/**
 * Python string built-ins over `string` = `seq<char>`. The repository calls `str.strip`
 * (with the `str.isspace` set), `sep.join` and the substring test `in`; ASCII lower-casing stands
 * for the case folding of the department match. `str.split(sep)` is not called by the repository:
 * it is the reference against which the `join` round trips are stated.
 */
module PyStrings {
  import opened Wrappers

  /** Python's `str.isspace()` set; the regular expression class `\s` on `str` patterns is the same set. */
  predicate IsSpace(c: char) {
    || ('\U{9}' <= c <= '\U{D}')        // tab, line feed, vertical tab, form feed, carriage return
    || ('\U{1C}' <= c <= '\U{20}')      // file, group, record and unit separators, space
    || c == '\U{85}' || c == '\U{A0}' || c == '\U{1680}'
    || ('\U{2000}' <= c <= '\U{200A}')
    || c == '\U{2028}' || c == '\U{2029}' || c == '\U{202F}' || c == '\U{205F}' || c == '\U{3000}'
  }

  predicate AllSpace(s: string) {
    forall k :: 0 <= k < |s| ==> IsSpace(s[k])
  }

  /** Neither end of `s` is whitespace (the empty string qualifies). */
  predicate TrimmedEnds(s: string) {
    s == [] || (!IsSpace(s[0]) && !IsSpace(s[|s| - 1]))
  }

  /** `r` occurs in `s` at index `i`, with only whitespace before and after it. */
  predicate PaddedAt(s: string, r: string, i: int) {
    && 0 <= i <= |s| - |r|
    && s[i..i + |r|] == r
    && (forall k :: 0 <= k < i ==> IsSpace(s[k]))
    && (forall k :: i + |r| <= k < |s| ==> IsSpace(s[k]))
  }

  /** `s` is `r` with some whitespace before it and some whitespace after it. */
  ghost predicate SpacePadded(s: string, r: string) {
    exists i :: PaddedAt(s, r, i)
  }

  /** The first index at or after `i` that does not hold whitespace (`|s|` if there is none). */
  function SkipSpace(s: string, i: nat): (j: nat)
    requires i <= |s|
    ensures i <= j <= |s| && (j == |s| || !IsSpace(s[j]))
    ensures j > i ==> IsSpace(s[j - 1])
    decreases |s| - i
  {
    if i < |s| && IsSpace(s[i]) then SkipSpace(s, i + 1) else i
  }

  /** The end of `s[lo..j]` once its trailing whitespace is dropped. */
  function TrimEnd(s: string, lo: nat, j: nat): (k: nat)
    requires lo <= j <= |s|
    ensures lo <= k <= j && (k == lo || !IsSpace(s[k - 1]))
    ensures k < j ==> IsSpace(s[k])
    decreases j
  {
    if j > lo && IsSpace(s[j - 1]) then TrimEnd(s, lo, j - 1) else j
  }

  /** `s.strip()`: `s` with its leading and then its trailing whitespace removed. */
  function Strip(s: string): string {
    var i := SkipSpace(s, 0);
    s[i..TrimEnd(s, i, |s|)]
  }

  lemma {:induction false} SkipSpaceSkipsSpace(s: string, i: nat)
    requires i <= |s|
    ensures forall k :: i <= k < SkipSpace(s, i) ==> IsSpace(s[k])
    decreases |s| - i
  {
    if i < |s| && IsSpace(s[i]) {
      SkipSpaceSkipsSpace(s, i + 1);
    }
  }

  /** Whitespace that ends at index `j` is exactly what `SkipSpace` passes over. */
  lemma {:induction false} SkipSpaceAt(s: string, i: nat, j: nat)
    requires i <= j <= |s| && (j == |s| || !IsSpace(s[j]))
    requires forall k :: i <= k < j ==> IsSpace(s[k])
    ensures SkipSpace(s, i) == j
    decreases j - i
  {
    if i < j {
      SkipSpaceAt(s, i + 1, j);
    }
  }

  lemma {:induction false} TrimEndTrimsSpace(s: string, lo: nat, j: nat)
    requires lo <= j <= |s|
    ensures forall k :: TrimEnd(s, lo, j) <= k < j ==> IsSpace(s[k])
    decreases j
  {
    if j > lo && IsSpace(s[j - 1]) {
      TrimEndTrimsSpace(s, lo, j - 1);
    }
  }

  /** Whitespace that starts at index `k` and runs to `j` is exactly what `TrimEnd` drops. */
  lemma {:induction false} TrimEndAt(s: string, lo: nat, k: nat, j: nat)
    requires lo <= k <= j <= |s| && (k == lo || !IsSpace(s[k - 1]))
    requires forall m :: k <= m < j ==> IsSpace(s[m])
    ensures TrimEnd(s, lo, j) == k
    decreases j
  {
    if k < j {
      TrimEndAt(s, lo, k, j - 1);
    }
  }

  /** `s.strip()` is `s` without surrounding whitespace, and its ends are not whitespace. */
  lemma StripSpec(s: string)
    ensures SpacePadded(s, Strip(s)) && TrimmedEnds(Strip(s))
  {
    var i := SkipSpace(s, 0);
    var k := TrimEnd(s, i, |s|);
    SkipSpaceSkipsSpace(s, 0);
    TrimEndTrimsSpace(s, i, |s|);
    var r := s[i..k];
    assert r != [] ==> r[0] == s[i] && r[|r| - 1] == s[k - 1];
    assert s[i..i + |r|] == r;
    assert PaddedAt(s, r, i);
  }

  /** The two properties of `Strip` determine it: no other padding of `s` has trimmed ends. */
  lemma StripUnique(s: string, t: string)
    requires SpacePadded(s, t) && TrimmedEnds(t)
    ensures Strip(s) == t
  {
    var i :| PaddedAt(s, t, i);
    if t == [] {
      SkipSpaceAt(s, 0, |s|);
    } else {
      assert s[i] == t[0] && s[i + |t| - 1] == t[|t| - 1];
      SkipSpaceAt(s, 0, i);
      TrimEndAt(s, i, i + |t|, |s|);
    }
  }

  /** `sep.join(ts)`. */
  function Join(ts: seq<string>, sep: string): string {
    if |ts| == 0 then "" else if |ts| == 1 then ts[0] else ts[0] + sep + Join(ts[1..], sep)
  }

  /** `sep` occurs in `s` starting at index `i`. */
  predicate OccursAt(s: string, sep: string, i: int) {
    0 <= i && i + |sep| <= |s| && s[i..i + |sep|] == sep
  }

  /** `s.find(sep, k)` as an option: the first index at or after `k` where `sep` occurs. */
  function FindFrom(s: string, sep: string, k: nat): (r: Option<nat>)
    ensures r.Some? ==> k <= r.value && OccursAt(s, sep, r.value)
    ensures r.Some? ==> forall m :: k <= m < r.value ==> !OccursAt(s, sep, m)
    ensures r.None? ==> forall m :: k <= m ==> !OccursAt(s, sep, m)
    decreases |s| - k
  {
    if k + |sep| > |s| then None
    else if s[k..k + |sep|] == sep then Some(k)
    else FindFrom(s, sep, k + 1)
  }

  /** `s.split(sep)` for a non-empty separator: the pieces between successive occurrences, scanning left to right. */
  function Split(s: string, sep: string): (r: seq<string>)
    requires |sep| > 0
    ensures |r| >= 1
    decreases |s|
  {
    match FindFrom(s, sep, 0)
    case None => [s]
    case Some(i) => [s[..i]] + Split(s[i + |sep|..], sep)
  }

  /** No occurrence of `sep` in `t + sep` starts inside `t`: splitting `t + sep + ...` cuts right after `t`. */
  predicate Unambiguous(t: string, sep: string) {
    forall i :: 0 <= i < |t| ==> !OccursAt(t + sep, sep, i)
  }

  lemma FirstCharUnambiguous(t: string, sep: string)
    requires |sep| > 0 && sep[0] !in t
    ensures Unambiguous(t, sep)
  {
    forall i | 0 <= i < |t| ensures !OccursAt(t + sep, sep, i) {
      assert (t + sep)[i..i + |sep|][0] == t[i];
    }
  }

  lemma FindAfterPiece(t: string, sep: string, rest: string)
    requires |sep| > 0 && Unambiguous(t, sep)
    ensures FindFrom(t + sep + rest, sep, 0) == Some(|t|)
  {
    var s := t + sep + rest;
    forall m | 0 <= m < |t| ensures !OccursAt(s, sep, m) {
      assert !OccursAt(t + sep, sep, m);
      assert s[m..m + |sep|] == (t + sep)[m..m + |sep|];
    }
    assert s[|t|..|t| + |sep|] == sep;
    assert OccursAt(s, sep, |t|);
  }

  lemma FindNoneInPiece(t: string, sep: string)
    requires |sep| > 0 && Unambiguous(t, sep)
    ensures FindFrom(t, sep, 0) == None
  {
    forall m | 0 <= m ensures !OccursAt(t, sep, m) {
      if m + |sep| <= |t| {
        assert !OccursAt(t + sep, sep, m);
        assert t[m..m + |sep|] == (t + sep)[m..m + |sep|];
      }
    }
  }

  /** Splitting a join on its separator gives back the pieces, when no piece hides the separator. */
  lemma {:induction false} SplitJoin(ts: seq<string>, sep: string)
    requires ts != [] && |sep| > 0
    requires forall k :: 0 <= k < |ts| ==> Unambiguous(ts[k], sep)
    ensures Split(Join(ts, sep), sep) == ts
  {
    if |ts| == 1 {
      FindNoneInPiece(ts[0], sep);
    } else {
      var rest := Join(ts[1..], sep);
      var s := ts[0] + sep + rest;
      FindAfterPiece(ts[0], sep, rest);
      assert s[..|ts[0]|] == ts[0];
      assert s[|ts[0]| + |sep|..] == rest;
      SplitJoin(ts[1..], sep);
    }
  }

  /** `needle in hay` for strings. */
  predicate Contains(hay: string, needle: string) {
    exists i :: 0 <= i <= |hay| - |needle| && OccursAt(hay, needle, i)
  }

  function LowerAscii(c: char): char {
    if 'A' <= c <= 'Z' then (c as int - 'A' as int + 'a' as int) as char else c
  }

  /** ASCII lower-casing of every character. */
  function Lower(s: string): string {
    seq(|s|, k requires 0 <= k < |s| => LowerAscii(s[k]))
  }

  /** Lower-casing a lower-cased string changes nothing. */
  lemma LowerIdempotent(s: string)
    ensures Lower(Lower(s)) == Lower(s)
  {
    forall k | 0 <= k < |s| ensures Lower(Lower(s))[k] == Lower(s)[k] {
      assert Lower(s)[k] == LowerAscii(s[k]);
    }
  }

  /** Case-insensitive substring test, ASCII letters only. */
  predicate ContainsIgnoreCase(hay: string, needle: string) {
    Contains(Lower(hay), Lower(needle))
  }
}
