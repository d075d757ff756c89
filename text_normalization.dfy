/**
 * `clean_text` (utils.py): `re.sub(r'\s+', ' ', str(text)).strip()`.
 * The regular-expression substitution is written out as `CollapseWhitespace`; Python's
 * `str.split()` (the maximal runs of non-whitespace, `Words`) serves as the independent
 * reference that `Clean` is compared with.
 */
module TextNormalization {
  import opened Wrappers
  import opened PyStrings

  /** A table cell as pandas hands it over: its text, or `None` for a missing value (NaN). */
  type Cell = Option<string>

  /** `str(cell)`: a missing value prints as `nan`. */
  function CellStr(c: Cell): string {
    match c
    case Some(s) => s
    case None => "nan"
  }

  /** The first index at or after `i` that holds whitespace (`|s|` if there is none). */
  function WordEnd(s: string, i: nat): (j: nat)
    requires i <= |s|
    ensures i <= j <= |s| && (j == |s| || IsSpace(s[j]))
    decreases |s| - i
  {
    if i < |s| && !IsSpace(s[i]) then WordEnd(s, i + 1) else i
  }

  lemma {:induction false} WordEndNoSpace(s: string, i: nat)
    requires i <= |s|
    ensures forall k :: i <= k < WordEnd(s, i) ==> !IsSpace(s[k])
    decreases |s| - i
  {
    if i < |s| && !IsSpace(s[i]) {
      WordEndNoSpace(s, i + 1);
    }
  }

  /** `re.sub(r'\s+', ' ', s[i..])`: every maximal run of whitespace becomes one space. */
  function CollapseFrom(s: string, i: nat): string
    requires i <= |s|
    decreases |s| - i
  {
    if i == |s| then []
    else if IsSpace(s[i]) then " " + CollapseFrom(s, SkipSpace(s, i + 1))
    else [s[i]] + CollapseFrom(s, i + 1)
  }

  function CollapseWhitespace(s: string): string {
    CollapseFrom(s, 0)
  }

  /** `clean_text` on a string. */
  function Clean(s: string): string {
    Strip(CollapseWhitespace(s))
  }

  /** `clean_text` on a table cell, which `str()` renders first. */
  function CleanText(c: Cell): string {
    Clean(CellStr(c))
  }

  /** A string in normal form: no whitespace at either end, and every whitespace character
    * is a plain space followed by a non-whitespace character. */
  predicate Normalized(s: string) {
    && TrimmedEnds(s)
    && forall i :: 0 <= i < |s| && IsSpace(s[i]) ==> s[i] == ' ' && i + 1 < |s| && !IsSpace(s[i + 1])
  }

  predicate IsWord(w: string) {
    w != [] && forall k :: 0 <= k < |w| ==> !IsSpace(w[k])
  }

  /** The words of `s[i..]`, in order. */
  function WordsFrom(s: string, i: nat): seq<string>
    requires i <= |s|
    decreases |s| - i
  {
    var j := SkipSpace(s, i);
    if j == |s| then []
    else
      var e := WordEnd(s, j);
      [s[j..e]] + WordsFrom(s, e)
  }

  /** Python's `s.split()`: the maximal runs of non-whitespace characters, in order. */
  function Words(s: string): seq<string> {
    WordsFrom(s, 0)
  }

  /** A single space when `s` ends in whitespace. */
  function Trail(s: string): string {
    if s != [] && IsSpace(s[|s| - 1]) then " " else ""
  }

  lemma {:induction false} WordsAreWords(s: string, i: nat)
    requires i <= |s|
    ensures forall k :: 0 <= k < |WordsFrom(s, i)| ==> IsWord(WordsFrom(s, i)[k])
    decreases |s| - i
  {
    var j := SkipSpace(s, i);
    if j < |s| {
      var e := WordEnd(s, j);
      WordsAreWords(s, e);
      WordEndNoSpace(s, j);
      assert IsWord(s[j..e]) by {
        assert WordEnd(s, j) == WordEnd(s, j + 1);
      }
    }
  }

  lemma JoinCons(w: string, ws: seq<string>, sep: string)
    requires ws != []
    ensures Join([w] + ws, sep) == w + sep + Join(ws, sep)
  {
    assert ([w] + ws)[1..] == ws;
  }

  lemma JoinAfterWord(c: string, w: string, rest: string, ws: seq<string>, trail: string)
    requires ws != [] && c == w + (" " + rest) && rest == Join(ws, " ") + trail
    ensures c == Join([w] + ws, " ") + trail
  {
    JoinCons(w, ws, " ");
    assert w + (" " + (Join(ws, " ") + trail)) == w + " " + Join(ws, " ") + trail;
  }

  /** Concatenation regrouped. Stated over free variables so that the proof below does not have to
    * find this step among the facts about concrete slices. */
  lemma Assoc(a: string, b: string, c: string)
    ensures a + (b + c) == a + b + c
  {
  }

  /** A non-empty slice is its first character followed by the rest. */
  lemma ConsSlice(s: string, i: nat, e: nat)
    requires i < e <= |s|
    ensures s[i..e] == [s[i]] + s[i + 1..e]
  {
  }

  /** From the start of a word, collapsing copies the word and carries on after it. */
  lemma {:induction false} CollapseTakesWord(s: string, i: nat)
    requires i < |s| && !IsSpace(s[i])
    ensures CollapseFrom(s, i) == s[i..WordEnd(s, i)] + CollapseFrom(s, WordEnd(s, i))
    decreases |s| - i
  {
    var e := WordEnd(s, i);
    assert e == WordEnd(s, i + 1);
    assert CollapseFrom(s, i) == [s[i]] + CollapseFrom(s, i + 1);
    if i + 1 < e {
      CollapseTakesWord(s, i + 1);
      ConsSlice(s, i, e);
      Assoc([s[i]], s[i + 1..e], CollapseFrom(s, e));
    } else {
      assert s[i..e] == [s[i]];
    }
  }

  /** After a word that is followed by whitespace, collapsing emits one space and resumes at the next word. */
  lemma CollapseAfterWord(s: string, e: nat)
    requires e < |s| && IsSpace(s[e])
    ensures CollapseFrom(s, e) == " " + CollapseFrom(s, SkipSpace(s, e))
    ensures WordsFrom(s, e) == WordsFrom(s, SkipSpace(s, e))
  {
    assert SkipSpace(s, e) == SkipSpace(s, e + 1);
    assert SkipSpace(s, SkipSpace(s, e)) == SkipSpace(s, e);
  }

  /** The words from the start of a word are that word followed by the words after it. */
  lemma WordsTakeWord(s: string, i: nat)
    requires i < |s| && !IsSpace(s[i])
    ensures WordsFrom(s, i) == [s[i..WordEnd(s, i)]] + WordsFrom(s, WordEnd(s, i))
  {
    assert SkipSpace(s, i) == i;
  }

  /** The last word of a string that does not end in whitespace collapses to itself. */
  lemma CollapseLastWord(s: string, i: nat)
    requires i < |s| && !IsSpace(s[i]) && WordEnd(s, i) == |s|
    ensures CollapseFrom(s, i) == Join(WordsFrom(s, i), " ") + Trail(s)
  {
    var w := s[i..];
    CollapseTakesWord(s, i);
    WordsTakeWord(s, i);
    WordEndNoSpace(s, i);
    assert Trail(s) == "";
    assert WordsFrom(s, |s|) == [];
    assert CollapseFrom(s, |s|) == [];
    assert w + [] == w;
  }

  lemma CollapseEnd(s: string)
    ensures CollapseFrom(s, |s|) == [] && WordsFrom(s, |s|) == []
  {
  }

  /** A string whose last run is whitespace ends in whitespace. */
  lemma TrailAfterSpaceRun(s: string, e: nat)
    requires e < |s| && SkipSpace(s, e) == |s|
    ensures Trail(s) == " "
  {
    assert IsSpace(s[|s| - 1]);
  }

  /** The last word of a string that ends in whitespace collapses to itself and one space. */
  lemma CollapseLastWordSpace(s: string, i: nat)
    requires i < |s| && !IsSpace(s[i])
    requires WordEnd(s, i) < |s| && SkipSpace(s, WordEnd(s, i)) == |s|
    ensures CollapseFrom(s, i) == Join(WordsFrom(s, i), " ") + Trail(s)
  {
    var e := WordEnd(s, i);
    var w := s[i..e];
    CollapseTakesWord(s, i);
    WordsTakeWord(s, i);
    CollapseAfterWord(s, e);
    CollapseEnd(s);
    TrailAfterSpaceRun(s, e);
    assert WordsFrom(s, i) == [w] && Join([w], " ") == w;
    assert CollapseFrom(s, e) == " " + [] == " ";
  }

  /** A word followed by whitespace and a further word: collapsing emits the word, one space
    * and what collapsing the rest gives. */
  lemma CollapseWordSpace(s: string, i: nat)
    requires i < |s| && !IsSpace(s[i])
    requires WordEnd(s, i) < |s| && SkipSpace(s, WordEnd(s, i)) < |s|
    ensures var u := SkipSpace(s, WordEnd(s, i));
      && CollapseFrom(s, i) == s[i..WordEnd(s, i)] + (" " + CollapseFrom(s, u))
      && WordsFrom(s, i) == [s[i..WordEnd(s, i)]] + WordsFrom(s, u)
      && WordsFrom(s, u) != []
  {
    var e := WordEnd(s, i);
    var u := SkipSpace(s, e);
    CollapseTakesWord(s, i);
    WordsTakeWord(s, i);
    CollapseAfterWord(s, e);
    assert SkipSpace(s, u) == u;
  }

  /** Collapsing from the start of a word yields the words joined by single spaces,
    * plus one space when the string ends in whitespace. */
  lemma {:induction false} CollapseShape(s: string, i: nat)
    requires i < |s| && !IsSpace(s[i])
    ensures CollapseFrom(s, i) == Join(WordsFrom(s, i), " ") + Trail(s)
    decreases |s| - i
  {
    var e := WordEnd(s, i);
    if e == |s| {
      CollapseLastWord(s, i);
    } else if SkipSpace(s, e) == |s| {
      CollapseLastWordSpace(s, i);
    } else {
      var u := SkipSpace(s, e);
      CollapseWordSpace(s, i);
      CollapseShape(s, u);
      JoinAfterWord(CollapseFrom(s, i), s[i..e], CollapseFrom(s, u), WordsFrom(s, u), Trail(s));
    }
  }

  /** Words joined by single spaces are in normal form. */
  lemma {:induction false} JoinWordsNormalized(ws: seq<string>)
    requires forall k :: 0 <= k < |ws| ==> IsWord(ws[k])
    ensures Normalized(Join(ws, " "))
  {
    if |ws| > 1 {
      var w, j' := ws[0], Join(ws[1..], " ");
      JoinWordsNormalized(ws[1..]);
      var j := w + " " + j';
      assert j' != [] by { assert IsWord(ws[1]); }
      assert forall i :: 0 <= i < |w| ==> j[i] == w[i];
      forall i | 0 <= i < |j| && IsSpace(j[i])
        ensures j[i] == ' ' && i + 1 < |j| && !IsSpace(j[i + 1])
      {
        if i > |w| {
          assert j[i] == j'[i - |w| - 1];
          assert i + 1 < |j| ==> j[i + 1] == j'[i - |w|];
        }
      }
    }
  }

  lemma StripAfterSpace(x: string)
    ensures Strip(" " + x) == Strip(x)
  {
    var t := Strip(x);
    var y := " " + x;
    StripSpec(x);
    var i :| PaddedAt(x, t, i);
    assert y[i + 1..i + 1 + |t|] == x[i..i + |t|];
    forall k | 0 <= k < i + 1 ensures IsSpace(y[k]) {
      assert k > 0 ==> y[k] == x[k - 1];
    }
    forall k | i + 1 + |t| <= k < |y| ensures IsSpace(y[k]) {
      assert y[k] == x[k - 1];
    }
    assert PaddedAt(y, t, i + 1);
    StripUnique(y, t);
  }

  /** Stripping a string with trimmed ends followed by whitespace gives back that string. */
  lemma StripPadded(j: string, tail: string)
    requires TrimmedEnds(j) && AllSpace(tail)
    ensures Strip(j + tail) == j
  {
    assert (j + tail)[0..|j|] == j;
    forall k | |j| <= k < |j + tail| ensures IsSpace((j + tail)[k]) {
      assert (j + tail)[k] == tail[k - |j|];
    }
    assert PaddedAt(j + tail, j, 0);
    StripUnique(j + tail, j);
  }

  lemma SpaceIsSpace()
    ensures AllSpace(" ") && AllSpace("")
  {
    assert " "[0] == ' ';
  }

  /** `clean_text` is Python's `" ".join(s.split())`: each whitespace run between words
    * becomes exactly one space and the runs at the ends disappear. */
  lemma CleanIsJoinedWords(s: string)
    ensures Clean(s) == Join(Words(s), " ")
  {
    var u := SkipSpace(s, 0);
    var tail := if u < |s| then Trail(s) else "";
    var j := Join(WordsFrom(s, u), " ");
    assert SkipSpace(s, u) == u;
    assert Words(s) == WordsFrom(s, u);
    if u < |s| {
      CollapseShape(s, u);
    } else {
      assert WordsFrom(s, u) == [] && CollapseFrom(s, u) == [];
    }
    if u > 0 {
      assert SkipSpace(s, 1) == u;
      assert CollapseWhitespace(s) == " " + CollapseFrom(s, u);
      StripAfterSpace(CollapseFrom(s, u));
    }
    assert Clean(s) == Strip(j + tail);
    WordsAreWords(s, u);
    JoinWordsNormalized(WordsFrom(s, u));
    SpaceIsSpace();
    StripPadded(j, tail);
  }

  /** Every result of `clean_text` is in normal form: no leading or trailing whitespace,
    * no tab or newline, never two adjacent spaces. */
  lemma CleanNormalized(s: string)
    ensures Normalized(Clean(s))
  {
    CleanIsJoinedWords(s);
    WordsAreWords(s, 0);
    JoinWordsNormalized(Words(s));
  }

  /** Every whitespace character is a single space followed by a non-whitespace character. */
  predicate SingleSpaced(s: string) {
    forall i :: 0 <= i < |s| && IsSpace(s[i]) ==> s[i] == ' ' && (i + 1 == |s| || !IsSpace(s[i + 1]))
  }

  lemma {:induction false} CollapseSingleSpaced(s: string, i: nat)
    requires SingleSpaced(s) && i <= |s|
    ensures CollapseFrom(s, i) == s[i..]
    decreases |s| - i
  {
    if i < |s| {
      CollapseSingleSpaced(s, i + 1);
      if IsSpace(s[i]) {
        assert SkipSpace(s, i + 1) == i + 1;
      }
      assert s[i..] == [s[i]] + s[i + 1..];
    }
  }

  /** The strings `clean_text` leaves unchanged are exactly those in normal form. */
  lemma CleanFixpoints(s: string)
    ensures Clean(s) == s <==> Normalized(s)
  {
    CleanNormalized(s);
    if Normalized(s) {
      CollapseSingleSpaced(s, 0);
      assert s[0..] == s;
      assert PaddedAt(s, s, 0) by { assert s[0..|s|] == s; }
      StripUnique(s, s);
    }
  }

  /** `clean_text(clean_text(s)) == clean_text(s)`. */
  lemma CleanIdempotent(s: string)
    ensures Clean(Clean(s)) == Clean(s)
  {
    CleanNormalized(s);
    CleanFixpoints(Clean(s));
  }

  /** The non-whitespace characters of `s`, in order. */
  function NonSpace(s: string): string {
    if s == [] then [] else (if IsSpace(s[0]) then [] else [s[0]]) + NonSpace(s[1..])
  }

  lemma {:induction false} NonSpaceAppend(a: string, b: string)
    ensures NonSpace(a + b) == NonSpace(a) + NonSpace(b)
  {
    if a == [] {
      assert a + b == b;
    } else {
      assert (a + b)[1..] == a[1..] + b;
      NonSpaceAppend(a[1..], b);
    }
  }

  lemma NonSpaceFrom(s: string, i: nat)
    requires i < |s|
    ensures NonSpace(s[i..]) == (if IsSpace(s[i]) then [] else [s[i]]) + NonSpace(s[i + 1..])
  {
    assert s[i..][1..] == s[i + 1..];
  }

  lemma {:induction false} NonSpaceSkip(s: string, i: nat)
    requires i <= |s|
    ensures NonSpace(s[i..]) == NonSpace(s[SkipSpace(s, i)..])
    decreases |s| - i
  {
    if i < |s| && IsSpace(s[i]) {
      NonSpaceFrom(s, i);
      NonSpaceSkip(s, i + 1);
    }
  }

  lemma {:induction false} CollapseKeepsNonSpace(s: string, i: nat)
    requires i <= |s|
    ensures NonSpace(CollapseFrom(s, i)) == NonSpace(s[i..])
    decreases |s| - i
  {
    if i < |s| {
      NonSpaceFrom(s, i);
      if IsSpace(s[i]) {
        var u := SkipSpace(s, i + 1);
        CollapseKeepsNonSpace(s, u);
        NonSpaceSkip(s, i + 1);
        NonSpaceAppend(" ", CollapseFrom(s, u));
      } else {
        CollapseKeepsNonSpace(s, i + 1);
        NonSpaceAppend([s[i]], CollapseFrom(s, i + 1));
      }
    }
  }

  lemma {:induction false} NonSpaceTrim(s: string, lo: nat, j: nat)
    requires lo <= j <= |s|
    ensures NonSpace(s[lo..TrimEnd(s, lo, j)]) == NonSpace(s[lo..j])
    decreases j
  {
    if j > lo && IsSpace(s[j - 1]) {
      NonSpaceTrim(s, lo, j - 1);
      assert s[lo..j] == s[lo..j - 1] + [s[j - 1]];
      NonSpaceAppend(s[lo..j - 1], [s[j - 1]]);
    }
  }

  lemma StripKeepsNonSpace(s: string)
    ensures NonSpace(Strip(s)) == NonSpace(s)
  {
    var i := SkipSpace(s, 0);
    NonSpaceSkip(s, 0);
    assert s[0..] == s;
    NonSpaceTrim(s, i, |s|);
    assert s[i..|s|] == s[i..];
  }

  /** `clean_text` keeps every non-whitespace character, in order, and adds none. */
  lemma CleanKeepsNonSpace(s: string)
    ensures NonSpace(Clean(s)) == NonSpace(s)
  {
    CollapseKeepsNonSpace(s, 0);
    assert s[0..] == s;
    StripKeepsNonSpace(CollapseWhitespace(s));
  }
}
