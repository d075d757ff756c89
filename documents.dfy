/**
 * The row-to-document pipeline of utils.py: `format_row_as_document` renders one table row as a
 * four-line `label: value` block, and `create_chunks_from_csv` selects the rows of a region
 * (case-insensitive match on the department column) and produces one document per kept row.
 */
module Documents {
  import opened Wrappers
  import opened PyStrings
  import opened TextNormalization
  import opened Sequences

  /** One row of the schemes table, by the four columns the pipeline reads. */
  datatype Row = Row(name: Cell, department: Cell, description: Cell, tags: Cell)

  /** A LangChain `Document`: its text and the `row_index` and `title` metadata. */
  datatype Document = Document(content: string, rowIndex: nat, title: Cell)

  const NameLabel: string := "Scheme Name: "
  const DepartmentLabel: string := "Ministries/Departments: "
  const DescriptionLabel: string := "Description & Benefits: "
  const TagsLabel: string := "Tags: "

  /** The four `label: value` lines, for already cleaned values. */
  function Lines(name: string, department: string, description: string, tags: string): seq<string> {
    [NameLabel + name, DepartmentLabel + department, DescriptionLabel + description, TagsLabel + tags]
  }

  /** The four lines joined by line breaks: the f-string of `format_row_as_document`. */
  function Render(name: string, department: string, description: string, tags: string): string {
    Join(Lines(name, department, description, tags), "\n")
  }

  lemma JoinFour(a: string, b: string, c: string, d: string, sep: string)
    ensures Join([a, b, c, d], sep) == a + sep + b + sep + c + sep + d
  {
    assert [a, b, c, d][1..] == [b, c, d];
    assert [b, c, d][1..] == [c, d];
    assert [c, d][1..] == [d];
    assert Join([c, d], sep) == c + sep + d;
    assert Join([b, c, d], sep) == b + sep + (c + sep + d);
  }

  lemma RenderFlat(name: string, department: string, description: string, tags: string)
    ensures Render(name, department, description, tags)
      == (NameLabel + name) + "\n" + (DepartmentLabel + department) + "\n"
       + (DescriptionLabel + description) + "\n" + (TagsLabel + tags)
  {
    JoinFour(NameLabel + name, DepartmentLabel + department, DescriptionLabel + description, TagsLabel + tags, "\n");
  }

  /** `format_row_as_document`: the rendering of the row's cleaned values, with the row's position
    * in the table and its raw, uncleaned name as metadata. */
  function FormatRowAsDocument(row: Row, rowIndex: nat): (d: Document)
    ensures d.rowIndex == rowIndex && d.title == row.name
  {
    var name, department, description, tags :=
      CleanText(row.name), CleanText(row.department), CleanText(row.description), CleanText(row.tags);
    Document(Render(name, department, description, tags), rowIndex, row.name)
  }

  /** The content is exactly the four labels, each followed by its cleaned value, on four lines. */
  lemma FormatContent(row: Row, rowIndex: nat)
    ensures FormatRowAsDocument(row, rowIndex).content
      == (NameLabel + CleanText(row.name)) + "\n"
       + (DepartmentLabel + CleanText(row.department)) + "\n"
       + (DescriptionLabel + CleanText(row.description)) + "\n"
       + (TagsLabel + CleanText(row.tags))
  {
    RenderFlat(CleanText(row.name), CleanText(row.department), CleanText(row.description), CleanText(row.tags));
  }

  /** A cleaned value never holds a line break. */
  lemma NoNewlineInClean(c: Cell)
    ensures '\n' !in CleanText(c)
  {
    CleanNormalized(CellStr(c));
    assert IsSpace('\n');
  }

  lemma NoNewlineInLabels()
    ensures '\n' !in NameLabel && '\n' !in DepartmentLabel && '\n' !in DescriptionLabel && '\n' !in TagsLabel
  {
  }

  /** With no line break inside the values, splitting the rendering at line breaks gives back the four lines. */
  lemma RenderSplits(name: string, department: string, description: string, tags: string)
    requires '\n' !in name && '\n' !in department && '\n' !in description && '\n' !in tags
    ensures Split(Render(name, department, description, tags), "\n") == Lines(name, department, description, tags)
  {
    var ls := Lines(name, department, description, tags);
    NoNewlineInLabels();
    forall k | 0 <= k < |ls| ensures Unambiguous(ls[k], "\n") {
      FirstCharUnambiguous(ls[k], "\n");
    }
    SplitJoin(ls, "\n");
  }

  lemma ThreeNewlines(a: string, b: string, c: string, d: string)
    requires '\n' !in a && '\n' !in b && '\n' !in c && '\n' !in d
    ensures multiset(a + "\n" + b + "\n" + c + "\n" + d)['\n'] == 3
  {
    assert multiset(a)['\n'] == 0 && multiset(b)['\n'] == 0 && multiset(c)['\n'] == 0 && multiset(d)['\n'] == 0;
    assert multiset("\n")['\n'] == 1;
  }

  /** With no line break inside the values, the rendering holds exactly three line breaks. */
  lemma RenderNewlines(name: string, department: string, description: string, tags: string)
    requires '\n' !in name && '\n' !in department && '\n' !in description && '\n' !in tags
    ensures multiset(Render(name, department, description, tags))['\n'] == 3
  {
    NoNewlineInLabels();
    RenderFlat(name, department, description, tags);
    ThreeNewlines(NameLabel + name, DepartmentLabel + department, DescriptionLabel + description, TagsLabel + tags);
  }

  /** Splitting a document's content at its line breaks gives back the four labelled lines, and every
    * value on them is in normal form; the content holds exactly three line breaks. */
  lemma FormatSplitsIntoLines(row: Row, rowIndex: nat)
    ensures Split(FormatRowAsDocument(row, rowIndex).content, "\n")
      == Lines(CleanText(row.name), CleanText(row.department), CleanText(row.description), CleanText(row.tags))
    ensures multiset(FormatRowAsDocument(row, rowIndex).content)['\n'] == 3
    ensures Normalized(CleanText(row.name)) && Normalized(CleanText(row.department))
    ensures Normalized(CleanText(row.description)) && Normalized(CleanText(row.tags))
  {
    NoNewlineInClean(row.name);
    NoNewlineInClean(row.department);
    NoNewlineInClean(row.description);
    NoNewlineInClean(row.tags);
    var name, department, description, tags :=
      CleanText(row.name), CleanText(row.department), CleanText(row.description), CleanText(row.tags);
    RenderSplits(name, department, description, tags);
    RenderNewlines(name, department, description, tags);
    CleanNormalized(CellStr(row.name));
    CleanNormalized(CellStr(row.department));
    CleanNormalized(CellStr(row.description));
    CleanNormalized(CellStr(row.tags));
  }

  /** The region that means "no filtering". */
  const AllIndia: string := "-- All India --"

  /** `state_filter and state_filter != "-- All India --"`: an absent or empty filter and the
    * all-India sentinel switch filtering off. */
  predicate FilterActive(filter: Option<string>) {
    filter.Some? && filter.value != "" && filter.value != AllIndia
  }

  /** `str.contains(needle, case=False, na=False)` on the department cell: a missing department never matches. */
  predicate Matches(needle: string, row: Row) {
    row.department.Some? && ContainsIgnoreCase(row.department.value, needle)
  }

  /** `case=False`: filters that differ only in letter case select the same rows. */
  lemma MatchesIgnoresFilterCase(a: string, b: string, row: Row)
    requires Lower(a) == Lower(b)
    ensures Matches(a, row) <==> Matches(b, row)
  {
  }

  /** In particular, lower-casing the filter changes nothing. */
  lemma MatchesLowerFilter(needle: string, row: Row)
    ensures Matches(needle, row) <==> Matches(Lower(needle), row)
  {
    LowerIdempotent(needle);
  }

  /** Nor does the letter case of the department text matter. */
  lemma MatchesIgnoresDepartmentCase(needle: string, row: Row, department: string)
    requires row.department.Some? && Lower(row.department.value) == Lower(department)
    ensures Matches(needle, row) <==> Matches(needle, row.(department := Some(department)))
  {
  }

  /** Whether `create_chunks_from_csv` keeps a row under `filter`. */
  predicate Selects(filter: Option<string>, row: Row) {
    !FilterActive(filter) || Matches(filter.value, row)
  }

  /** A non-empty table whose department column holds no value at all: pandas reads that column
    * as numbers, and the `.str` accessor of the filter raises. */
  predicate ColumnNotText(table: seq<Row>) {
    |table| > 0 && forall i :: 0 <= i < |table| ==> table[i].department.None?
  }

  /** The positions, in the original table, of the rows the filter keeps, in table order. */
  function KeptIndices(table: seq<Row>, filter: Option<string>): (ix: seq<nat>)
    ensures forall k :: 0 <= k < |ix| ==> ix[k] < |table|
  {
    FilterIndices(table, row => Selects(filter, row))
  }

  /** One document for each listed position, in the listed order. */
  function DocumentsAt(table: seq<Row>, ix: seq<nat>): (ds: seq<Document>)
    requires forall k :: 0 <= k < |ix| ==> ix[k] < |table|
  {
    MapAt(table, ix, FormatRowAsDocument)
  }

  lemma DocumentsAtIndex(table: seq<Row>, ix: seq<nat>, k: nat)
    requires k < |ix| && forall j :: 0 <= j < |ix| ==> ix[j] < |table|
    ensures DocumentsAt(table, ix)[k] == FormatRowAsDocument(table[ix[k]], ix[k])
    ensures DocumentsAt(table, ix)[k].rowIndex == ix[k]
  {
    MapAtIndex(table, ix, FormatRowAsDocument, k);
  }

  const StrAccessorError: string := "Can only use .str accessor with string values!"

  /** What `create_chunks_from_csv` produces for a table, before splitting. */
  function TableDocuments(table: seq<Row>, filter: Option<string>): Result<seq<Document>> {
    if FilterActive(filter) && ColumnNotText(table) then Err(StrAccessorError)
    else Ok(DocumentsAt(table, KeptIndices(table, filter)))
  }

  /** `create_chunks_from_csv` on an already parsed table: select the rows, then build one
    * document per kept row with a loop that appends. */
  method CreateChunksFromCsv(table: seq<Row>, filter: Option<string>) returns (r: Result<seq<Document>>)
    ensures r == TableDocuments(table, filter)
  {
    if FilterActive(filter) && ColumnNotText(table) {
      return Err(StrAccessorError);
    }
    var ix := KeptIndices(table, filter);
    var documents: seq<Document> := [];
    var k := 0;
    while k < |ix|
      invariant 0 <= k <= |ix| && documents == DocumentsAt(table, ix[..k])
    {
      MapAtSnoc(table, ix, FormatRowAsDocument, k);
      documents := documents + [FormatRowAsDocument(table[ix[k]], ix[k])];
      k := k + 1;
    }
    assert ix[..k] == ix;
    return Ok(documents);
  }

  /** The filter raises exactly when it is active and the department column holds no text. */
  lemma DocumentsFailure(table: seq<Row>, filter: Option<string>)
    ensures TableDocuments(table, filter).Err? <==> FilterActive(filter) && ColumnNotText(table)
    ensures TableDocuments(table, filter).Err? ==> TableDocuments(table, filter).message == StrAccessorError
  {
  }

  /** Soundness: every document is the formatted row at its `row_index`, and that row passes the filter. */
  lemma DocumentsSound(table: seq<Row>, filter: Option<string>)
    requires TableDocuments(table, filter).Ok?
    ensures forall k :: 0 <= k < |TableDocuments(table, filter).value| ==>
      var d := TableDocuments(table, filter).value[k];
      && d.rowIndex < |table|
      && Selects(filter, table[d.rowIndex])
      && d == FormatRowAsDocument(table[d.rowIndex], d.rowIndex)
  {
    var ix := KeptIndices(table, filter);
    var ds := TableDocuments(table, filter).value;
    FilterIndicesSpec(table, row => Selects(filter, row));
    forall k | 0 <= k < |ds|
      ensures ds[k].rowIndex < |table| && Selects(filter, table[ds[k].rowIndex])
      ensures ds[k] == FormatRowAsDocument(table[ds[k].rowIndex], ds[k].rowIndex)
    {
      DocumentsAtIndex(table, ix, k);
      assert ix[k] in ix;
    }
  }

  /** Completeness: every row that passes the filter has a document. */
  lemma DocumentsComplete(table: seq<Row>, filter: Option<string>)
    requires TableDocuments(table, filter).Ok?
    ensures forall i :: 0 <= i < |table| && Selects(filter, table[i]) ==>
      exists k :: 0 <= k < |TableDocuments(table, filter).value| && TableDocuments(table, filter).value[k].rowIndex == i
  {
    var ix := KeptIndices(table, filter);
    var ds := TableDocuments(table, filter).value;
    FilterIndicesSpec(table, row => Selects(filter, row));
    forall i | 0 <= i < |table| && Selects(filter, table[i])
      ensures exists k :: 0 <= k < |ds| && ds[k].rowIndex == i
    {
      assert i in ix;
      var k :| 0 <= k < |ix| && ix[k] == i;
      DocumentsAtIndex(table, ix, k);
    }
  }

  /** Order: documents follow table order, one per row (row indices strictly increase). */
  lemma DocumentsInTableOrder(table: seq<Row>, filter: Option<string>)
    requires TableDocuments(table, filter).Ok?
    ensures forall k, m :: 0 <= k < m < |TableDocuments(table, filter).value| ==>
      TableDocuments(table, filter).value[k].rowIndex < TableDocuments(table, filter).value[m].rowIndex
  {
    var ix := KeptIndices(table, filter);
    var ds := TableDocuments(table, filter).value;
    FilterIndicesSpec(table, row => Selects(filter, row));
    forall k | 0 <= k < |ds| ensures ds[k].rowIndex == ix[k] {
      DocumentsAtIndex(table, ix, k);
    }
  }

  /** A missing department never survives an active filter. */
  lemma MissingDepartmentDropped(table: seq<Row>, filter: Option<string>, i: nat)
    requires TableDocuments(table, filter).Ok? && FilterActive(filter)
    requires i < |table| && table[i].department.None?
    ensures forall k :: 0 <= k < |TableDocuments(table, filter).value| ==> TableDocuments(table, filter).value[k].rowIndex != i
  {
    DocumentsSound(table, filter);
  }

  /** No filter, an empty filter or the all-India sentinel: one document for every row, in table order. */
  lemma UnfilteredKeepsEveryRow(table: seq<Row>, filter: Option<string>)
    requires !FilterActive(filter)
    ensures TableDocuments(table, filter) == Ok(seq(|table|, i requires 0 <= i < |table| => FormatRowAsDocument(table[i], i)))
  {
    FilterIndicesAll(table, row => Selects(filter, row));
    assert DocumentsAt(table, seq(|table|, k => k))
      == seq(|table|, i requires 0 <= i < |table| => FormatRowAsDocument(table[i], i));
  }
}
