/**
 * Scraper.py: the crawl over the paginated scheme listing. The browser and the HTML parser are
 * abstracted into what they hand the loop: for every page the browser shows, the scheme cards
 * found on it and what the pagination widget offers. What remains is the loop state
 * (`page_num`, `data_rows`) and the rules that pick the next page and end the crawl.
 */
module Scraper {
  import opened Wrappers
  import opened PyStrings

  /** One scheme card as the selectors see it: the text of the element each selector matched
    * (`None` when it matched nothing) and the `title` of every tag element, or a failure that
    * the per-card `try` catches. */
  datatype Card =
    | CardFailure
    | CardFields(name: Option<string>, ministries: Option<string>, description: Option<string>, tagTitles: seq<string>)

  /** One output row: scheme name, ministries, description, tags. */
  datatype SchemeRow = SchemeRow(name: string, ministries: string, description: string, tags: string)

  /** `get_text_from_element`: the matched element's text with surrounding whitespace stripped, or `-`. */
  function TextFromElement(element: Option<string>): string {
    match element
    case None => "-"
    case Some(text) => Strip(text)
  }

  /** When nothing matched, the result is the placeholder `-`; when an element matched, the result is
    * its text with only whitespace removed around it, and neither end of the result is whitespace. */
  lemma TextFromElementSpec(element: Option<string>)
    ensures element.None? ==> TextFromElement(element) == "-"
    ensures element.Some? ==> SpacePadded(element.value, TextFromElement(element)) && TrimmedEnds(TextFromElement(element))
  {
    if element.Some? {
      StripSpec(element.value);
    }
  }

  const TagSeparator: string := ", "

  /** `", ".join(tags)`. */
  function JoinTags(titles: seq<string>): string {
    Join(titles, TagSeparator)
  }

  /** An empty tag list gives the empty string, a single tag itself, with no separator around it. */
  lemma JoinTagsEnds(titles: seq<string>)
    ensures titles == [] ==> JoinTags(titles) == ""
    ensures |titles| == 1 ==> JoinTags(titles) == titles[0]
  {
  }

  /** When no tag title holds a comma, splitting the tags field at `", "` gives back the titles. */
  lemma TagsRoundTrip(titles: seq<string>)
    requires titles != [] && forall k :: 0 <= k < |titles| ==> ',' !in titles[k]
    ensures Split(JoinTags(titles), TagSeparator) == titles
  {
    forall k | 0 <= k < |titles| ensures Unambiguous(titles[k], TagSeparator) {
      FirstCharUnambiguous(titles[k], TagSeparator);
    }
    SplitJoin(titles, TagSeparator);
  }

  /** The row a card contributes: one row when its extraction succeeds, none when it fails. */
  function ScrapeCard(card: Card): seq<SchemeRow> {
    match card
    case CardFailure => []
    case CardFields(name, ministries, description, tagTitles) =>
      [SchemeRow(TextFromElement(name), TextFromElement(ministries), TextFromElement(description), JoinTags(tagTitles))]
  }

  /** The rows the cards of one page contribute, in card order. */
  function CardRows(cards: seq<Card>): seq<SchemeRow> {
    if cards == [] then [] else CardRows(cards[..|cards| - 1]) + ScrapeCard(cards[|cards| - 1])
  }

  /** Card order: the rows of `a + b` are the rows of `a` followed by the rows of `b`. */
  lemma {:induction false} CardRowsAppend(a: seq<Card>, b: seq<Card>)
    ensures CardRows(a + b) == CardRows(a) + CardRows(b)
    decreases |b|
  {
    if b == [] {
      assert a + b == a;
    } else {
      var b' := b[..|b| - 1];
      CardRowsAppend(a, b');
      assert (a + b)[..|a + b| - 1] == a + b';
      assert (a + b)[|a + b| - 1] == b[|b| - 1];
      assert CardRows(a) + CardRows(b') + ScrapeCard(b[|b| - 1]) == CardRows(a) + (CardRows(b') + ScrapeCard(b[|b| - 1]));
    }
  }

  /** A card that extracts appends exactly one row built from its fields; a failing card appends nothing. */
  lemma CardRowsOfOne(card: Card)
    ensures card.CardFailure? ==> CardRows([card]) == []
    ensures card.CardFields? ==> CardRows([card]) == [SchemeRow(
      TextFromElement(card.name), TextFromElement(card.ministries), TextFromElement(card.description), JoinTags(card.tagTitles))]
  {
    assert [card][..0] == [];
  }

  /** `"!text-white" in classes and "bg-green-700" in classes`: the pagination entry of the current page. */
  predicate IsCurrentPage(classes: string) {
    Contains(classes, "!text-white") && Contains(classes, "bg-green-700")
  }

  /** The entry after the first current-page entry at or after `i` that has a successor. */
  function NextEntryFrom(classes: seq<string>, i: nat): Option<nat>
    decreases |classes| - i
  {
    if i >= |classes| then None
    else if IsCurrentPage(classes[i]) && i + 1 < |classes| then Some(i + 1)
    else NextEntryFrom(classes, i + 1)
  }

  /** The pagination entry to click, by position among the `<li>` elements. */
  function NextEntry(classes: seq<string>): Option<nat> {
    NextEntryFrom(classes, 0)
  }

  /** The chosen entry directly follows the first current-page entry that has a successor;
    * there is none exactly when no current-page entry has a successor. */
  lemma {:induction false} NextEntryFromSpec(classes: seq<string>, i: nat)
    ensures match NextEntryFrom(classes, i)
      case Some(j) =>
        && i < j < |classes| && IsCurrentPage(classes[j - 1])
        && forall m :: i <= m < j - 1 ==> !IsCurrentPage(classes[m])
      case None =>
        forall m :: i <= m && m + 1 < |classes| ==> !IsCurrentPage(classes[m])
    decreases |classes| - i
  {
    if i < |classes| && !(IsCurrentPage(classes[i]) && i + 1 < |classes|) {
      NextEntryFromSpec(classes, i + 1);
    }
  }

  lemma NextEntrySpec(classes: seq<string>)
    ensures match NextEntry(classes)
      case Some(j) =>
        && 0 < j < |classes| && IsCurrentPage(classes[j - 1])
        && forall m :: 0 <= m < j - 1 ==> !IsCurrentPage(classes[m])
      case None =>
        forall m :: 0 <= m && m + 1 < |classes| ==> !IsCurrentPage(classes[m])
  {
    NextEntryFromSpec(classes, 0);
  }

  /** The `for idx, li in enumerate(li_elements)` loop: the first current-page entry with a
    * successor selects that successor, and the loop stops there. */
  method FindNextEntry(classes: seq<string>) returns (next: Option<nat>)
    ensures next == NextEntry(classes)
  {
    next := None;
    var idx := 0;
    while idx < |classes|
      invariant 0 <= idx <= |classes|
      invariant NextEntryFrom(classes, idx) == NextEntry(classes)
    {
      if IsCurrentPage(classes[idx]) {
        if idx + 1 < |classes| {
          next := Some(idx + 1);
          break;
        }
      }
      idx := idx + 1;
    }
  }

  /** What the pagination step finds: the widget did not appear (`PaginationMissing`), or the class
    * strings of its `<li>` entries and whether clicking the chosen entry brought up the next cards. */
  datatype Pager =
    | PaginationMissing
    | Pagination(classes: seq<string>, clickLoads: bool)

  /** One page as the browser shows it. */
  datatype Page = Page(cards: seq<Card>, pager: Pager)

  /** Why the crawl ended. */
  datatype Stop = PageLimit | NoCards | NoNextPage | PaginationFailed

  /** The loop's guard `page_num <= 360`. */
  const MaxPage: nat := 360

  /** The `n`-th page the browser shows (counting from 1); past the last one, nothing is shown. */
  function PageAt(site: seq<Page>, n: nat): Page
    requires n >= 1
  {
    if n <= |site| then site[n - 1] else Page([], PaginationMissing)
  }

  /** Whether the loop leaves a page it has scraped, and why: `None` when it moves on to the next page. */
  function PageStop(page: Page): Option<Stop> {
    if page.cards == [] then Some(NoCards)
    else
      match page.pager
      case PaginationMissing => Some(PaginationFailed)
      case Pagination(classes, clickLoads) =>
        if NextEntry(classes).None? then Some(NoNextPage)
        else if !clickLoads then Some(PaginationFailed)
        else None
  }

  /** The final state of the crawl: `data_rows`, `page_num` and the reason it ended. */
  datatype Crawl = Crawl(rows: seq<SchemeRow>, pageNum: nat, stop: Stop)

  /** `rows` collected before a crawl that continues as `c`. */
  function Prepend(rows: seq<SchemeRow>, c: Crawl): Crawl {
    Crawl(rows + c.rows, c.pageNum, c.stop)
  }

  /** The crawl from page `n` on, as a recursive definition. */
  function CrawlFrom(site: seq<Page>, n: nat): (c: Crawl)
    requires 1 <= n <= MaxPage + 1
    ensures n <= c.pageNum <= MaxPage + 1
    decreases MaxPage + 1 - n
  {
    if n > MaxPage then Crawl([], n, PageLimit)
    else
      var page := PageAt(site, n);
      match PageStop(page)
      case Some(stop) => Crawl(CardRows(page.cards), n, stop)
      case None => Prepend(CardRows(page.cards), CrawlFrom(site, n + 1))
  }

  lemma PrependTwice(a: seq<SchemeRow>, b: seq<SchemeRow>, c: Crawl)
    ensures Prepend(a, Prepend(b, c)) == Prepend(a + b, c)
  {
    assert a + (b + c.rows) == a + b + c.rows;
  }

  /** The `for card in scheme_cards` loop: each card's row, if any, is appended to `data_rows`. */
  method ScrapeCards(dataRows: seq<SchemeRow>, cards: seq<Card>) returns (out: seq<SchemeRow>)
    ensures out == dataRows + CardRows(cards)
  {
    out := dataRows;
    var i := 0;
    while i < |cards|
      invariant 0 <= i <= |cards|
      invariant out == dataRows + CardRows(cards[..i])
    {
      assert cards[..i + 1][..i] == cards[..i];
      out := out + ScrapeCard(cards[i]);
      i := i + 1;
    }
    assert cards[..i] == cards;
  }

  /** The main `while page_num <= 360` loop of Scraper.py, with its per-card loop and the
    * pagination step; it computes exactly `CrawlFrom(site, 1)`. */
  method RunCrawl(site: seq<Page>) returns (dataRows: seq<SchemeRow>, pageNum: nat, stop: Stop)
    ensures Crawl(dataRows, pageNum, stop) == CrawlFrom(site, 1)
  {
    dataRows := [];
    pageNum := 1;
    stop := PageLimit;
    while pageNum <= MaxPage
      invariant 1 <= pageNum <= MaxPage + 1
      invariant CrawlFrom(site, 1) == Prepend(dataRows, CrawlFrom(site, pageNum))
      decreases MaxPage + 1 - pageNum
    {
      var page := PageAt(site, pageNum);
      if page.cards == [] {
        stop := NoCards;
        assert dataRows + [] == dataRows;
        break;
      }
      var before := dataRows;
      dataRows := ScrapeCards(dataRows, page.cards);
      if page.pager.PaginationMissing? {
        stop := PaginationFailed;
        break;
      }
      var next := FindNextEntry(page.pager.classes);
      if next.None? {
        stop := NoNextPage;
        break;
      }
      if !page.pager.clickLoads {
        stop := PaginationFailed;
        break;
      }
      PrependTwice(before, CardRows(page.cards), CrawlFrom(site, pageNum + 1));
      pageNum := pageNum + 1;
    }
    if pageNum > MaxPage {
      assert dataRows + [] == dataRows;
    }
  }

  /** `page_num` reaches 361 exactly when the crawl ran out of pages to try. */
  lemma {:induction false} CrawlBounds(site: seq<Page>, n: nat)
    requires 1 <= n <= MaxPage + 1
    ensures CrawlFrom(site, n).pageNum == MaxPage + 1 <==> CrawlFrom(site, n).stop == PageLimit
    decreases MaxPage + 1 - n
  {
    if n <= MaxPage && PageStop(PageAt(site, n)).None? {
      CrawlBounds(site, n + 1);
    }
  }

  /** Every page before the last one visited moved on to the next page, and the reason the crawl
    * ended is what the last page visited shows (or the page limit). */
  lemma {:induction false} CrawlStopsForItsReason(site: seq<Page>, n: nat)
    requires 1 <= n <= MaxPage + 1
    ensures forall k :: n <= k < CrawlFrom(site, n).pageNum ==> k <= MaxPage && PageStop(PageAt(site, k)).None?
    ensures CrawlFrom(site, n).stop == PageLimit
      || (CrawlFrom(site, n).pageNum <= MaxPage
          && PageStop(PageAt(site, CrawlFrom(site, n).pageNum)) == Some(CrawlFrom(site, n).stop))
    decreases MaxPage + 1 - n
  {
    var c := CrawlFrom(site, n);
    if n <= MaxPage && PageStop(PageAt(site, n)).None? {
      var rest := CrawlFrom(site, n + 1);
      CrawlStopsForItsReason(site, n + 1);
      assert c.pageNum == rest.pageNum && c.stop == rest.stop;
      forall k | n <= k < c.pageNum ensures k <= MaxPage && PageStop(PageAt(site, k)).None? {
        if k > n {
          assert n + 1 <= k < rest.pageNum;
        }
      }
    } else {
      assert c.pageNum == n;
    }
  }

  /** The rows of pages `from` up to (not including) `to`, page after page. */
  function PagesRows(site: seq<Page>, from: nat, to: nat): seq<SchemeRow>
    requires from >= 1
    decreases if from < to then to - from else 0
  {
    if from >= to then [] else CardRows(PageAt(site, from).cards) + PagesRows(site, from + 1, to)
  }

  /** One past the last page whose cards the crawl processed. */
  function ScrapedEnd(c: Crawl): nat {
    if c.stop == PageLimit then c.pageNum else c.pageNum + 1
  }

  /** Append-only accumulation: `data_rows` holds the rows of every page scraped, page after page
    * and card after card within a page; at most 360 pages are scraped. */
  lemma {:induction false} CrawlRowsArePageRows(site: seq<Page>, n: nat)
    requires 1 <= n <= MaxPage + 1
    ensures CrawlFrom(site, n).rows == PagesRows(site, n, ScrapedEnd(CrawlFrom(site, n)))
    ensures ScrapedEnd(CrawlFrom(site, n)) <= MaxPage + 1
    decreases MaxPage + 1 - n
  {
    CrawlBounds(site, n);
    var c := CrawlFrom(site, n);
    if n > MaxPage {
      assert PagesRows(site, n, ScrapedEnd(c)) == [];
    } else {
      var page := PageAt(site, n);
      match PageStop(page)
      case Some(_) =>
        assert PagesRows(site, n + 1, n + 1) == [];
        assert CardRows(page.cards) + [] == CardRows(page.cards);
      case None =>
        CrawlRowsArePageRows(site, n + 1);
        CrawlBounds(site, n + 1);
        assert ScrapedEnd(c) == ScrapedEnd(CrawlFrom(site, n + 1));
    }
  }

  /** The crawl as Scraper.py runs it, from page 1. */
  lemma CrawlSummary(site: seq<Page>)
    ensures 1 <= CrawlFrom(site, 1).pageNum <= MaxPage + 1
    ensures CrawlFrom(site, 1).rows == PagesRows(site, 1, ScrapedEnd(CrawlFrom(site, 1)))
    ensures ScrapedEnd(CrawlFrom(site, 1)) - 1 <= MaxPage
  {
    CrawlBounds(site, 1);
    CrawlRowsArePageRows(site, 1);
  }

  /** The CSV header row. */
  const Header: seq<string> := ["Scheme Name", "Ministries/Departments", "Description & Benefits", "Tags"]

  function Record(row: SchemeRow): seq<string> {
    [row.name, row.ministries, row.description, row.tags]
  }

  /** What `writerow(header)` then `writerows(data_rows)` write: the header, then every row in order. */
  function OutputRecords(rows: seq<SchemeRow>): seq<seq<string>> {
    [Header] + seq(|rows|, k requires 0 <= k < |rows| => Record(rows[k]))
  }

  /** The output holds one record more than there are rows: the 4-column header first, then the rows
    * in collection order, each with its four fields in header order. */
  lemma OutputShape(rows: seq<SchemeRow>)
    ensures |OutputRecords(rows)| == |rows| + 1 && OutputRecords(rows)[0] == Header
    ensures forall k :: 0 <= k < |rows| ==>
      var out := OutputRecords(rows)[k + 1];
      |out| == |Header| && out[0] == rows[k].name && out[1] == rows[k].ministries
      && out[2] == rows[k].description && out[3] == rows[k].tags
  {
  }
}
