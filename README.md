# Government Schemes QA Bot: the ingestion core in Dafny

This project models the data path of the Government Schemes QA Bot, from the scraper that collects
scheme records off the myScheme listing to the documents that reach the vector index.

- **Scraper** (`Scraper.py`). The crawl walks the paginated listing for up to 360 pages. On each page it
  turns every scheme card into a row: name, ministries and description (each stripped, or `-` when
  the element is absent) and the tags joined by `", "`. It then finds the pagination entry after the
  current one and clicks it. It stops when a page shows no cards, when there is no next entry, or when
  the pagination step fails. The header and the collected rows are what it writes out.
  - The browser is abstracted into a sequence of `Page` values. Each page holds its cards and what the
    pagination widget offers.
  - The crawl is a method whose loops mirror the source's. It is proved equal to a recursive
    definition, `CrawlFrom`, and the stopping and accumulation properties are proved about that definition.
- **Document builder** (`utils.py`).
  - `clean_text` collapses every whitespace run to one space and strips the ends.
  - `format_row_as_document` renders a row as four `label: value` lines, with the row index and the raw
    name as metadata.
  - `create_chunks_from_csv` keeps the rows whose department contains the region filter, ignoring case,
    and builds one document per kept row with an appending loop.
- **Vector store** (`utils.py`).
  - `add_documents_to_vector_store` gathers the documents of every table in order, then adds them in one call.
  - `get_vector_store` wipes the index and re-adds everything when a region filter is active.
  - The store is a class whose `entries` field holds its documents in insertion order.

Modules:
- `Wrappers`: `Option` and `Result`.
- `PyStrings`: the Python string built-ins the code calls (`strip` with the `isspace` set, `join`, `in`), ASCII
  lower-casing for the case-insensitive match, and `split(sep)`, which the code never calls and which serves
  only as the reference for the `join` round trips.
- `TextNormalization`: `clean_text`.
- `Sequences`: position-preserving selection, and concatenation of fallible results.
- `Documents`: `format_row_as_document` and `create_chunks_from_csv`.
- `VectorStores`: the store and the two ingestion functions.
- `Scraper`: the crawl.

Two behaviours of the code that a reader might not expect, both modelled as the code has them:
- **Empty fields render as `nan`, not as empty text.** `pd.read_csv` (utils.py:40) reads an empty cell
  as NaN, and `clean_text` calls `str()` on it (utils.py:24), which gives `nan` (`CellStr`).
- **An all-empty department column can raise.** With an active filter, a non-empty table whose
  department column holds no value at all is read as a numeric column, and `.str.contains`
  (utils.py:43) raises on it (`ColumnNotText`, an `Err` result).
  - `get_vector_store` hits that raise after `delete(delete_all=True)`, so the index is left empty
    (`Rebuilt` is `[]` in that case).

## Model

| member | source | states |
|---|---|---|
| PyStrings.IsSpace | utils.py:24-25 | the whitespace set: the characters for which Python's `str.isspace()` holds, the same set `re`'s `\s` matches on `str` patterns and `strip()` removes (also Scraper.py:41) |
| PyStrings.Strip | utils.py:25 | `str.strip()`: skips whitespace from the front, then trims whitespace from the back of what remains (also Scraper.py:41) |
| PyStrings.Join | Scraper.py:71 | `sep.join(ts)`: the pieces in order with `sep` between neighbours; empty for no pieces |
| PyStrings.Contains | Scraper.py:91 | `needle in hay`: the needle occurs at some position of the string |
| PyStrings.Lower | utils.py:43 | lower-cases every ASCII capital letter and leaves other characters alone |
| PyStrings.ContainsIgnoreCase | utils.py:43 | the `case=False` substring test: the lower-cased needle occurs in the lower-cased text |
| PyStrings.StripSpec | utils.py:25 | `str.strip()` returns the input minus only surrounding whitespace, and the result neither starts nor ends with whitespace |
| PyStrings.StripUnique | utils.py:25 | those two properties determine the stripped string: any whitespace-padded substring with trimmed ends equals `Strip(s)` |
| PyStrings.SplitJoin | Scraper.py:71 | splitting `sep.join(ts)` at `sep` gives back `ts` when no piece hides the separator |
| TextNormalization.CellStr | utils.py:24 | `str(cell)`: the cell's text, or `nan` for a missing value |
| TextNormalization.CollapseWhitespace | utils.py:24 | `re.sub(r'\s+', ' ', s)`: every maximal whitespace run becomes one space (through `CollapseFrom`) |
| TextNormalization.Clean | utils.py:23-25 | `clean_text` on a string: the collapse, then `strip()` |
| TextNormalization.CleanText | utils.py:23-25 | `clean_text` on a table cell: `str()` first, then `Clean` |
| TextNormalization.CleanIsJoinedWords | utils.py:23-25 | `clean_text(s)` equals `" ".join(s.split())`: the whitespace-separated words of `s`, one space apart |
| TextNormalization.CleanNormalized | utils.py:23-25 | the result has no whitespace at its ends, and its only whitespace is single spaces between words |
| TextNormalization.CleanFixpoints | utils.py:23-25 | `clean_text(s) == s` exactly when `s` is already in that normal form (both directions) |
| TextNormalization.CleanIdempotent | utils.py:23-25 | cleaning twice gives the same result as cleaning once |
| TextNormalization.CleanKeepsNonSpace | utils.py:23-25 | the non-whitespace characters of the input survive, all of them and in order |
| TextNormalization.CollapseShape | utils.py:24 | `re.sub(r'\s+', ' ', s)` from a non-space position gives the words joined by one space, plus one space when `s` ends in whitespace |
| TextNormalization.CollapseKeepsNonSpace | utils.py:24 | the substitution neither adds nor drops non-whitespace characters |
| TextNormalization.StripKeepsNonSpace | utils.py:25 | `strip()` removes only whitespace |
| TextNormalization.StripAfterSpace | utils.py:25 | a leading space makes no difference to `strip()` |
| TextNormalization.WordsAreWords | utils.py:24 | every piece of `s.split()` is non-empty and holds no whitespace |
| TextNormalization.CollapseSingleSpaced | utils.py:24 | the substitution leaves a string whose whitespace is single spaces unchanged |
| Documents.FormatRowAsDocument | utils.py:27-34 | the document's `row_index` is the given index and its `title` is the raw, uncleaned scheme name |
| Documents.FormatContent | utils.py:28-33 | the content is the four labels `Scheme Name: `, `Ministries/Departments: `, `Description & Benefits: `, `Tags: `, each followed by the cleaned value, one per line |
| Documents.FormatSplitsIntoLines | utils.py:28-33 | splitting the content at line breaks gives back exactly the four labelled lines, there are exactly three line breaks, and every value is in normal form |
| Documents.RenderSplits | utils.py:28-33 | for values without line breaks, the four-line rendering splits back into its four lines |
| Documents.RenderNewlines | utils.py:28-33 | for values without line breaks, the rendering holds exactly three line breaks |
| Documents.NoNewlineInClean | utils.py:23-25 | a cleaned value never holds a line break |
| Documents.FilterActive | utils.py:42 | `state_filter and state_filter != "-- All India --"`: the filter is present, non-empty and not the all-India sentinel |
| Documents.Matches | utils.py:43 | `str.contains(filter, case=False, na=False)` on the department cell: present, and contains the filter ignoring ASCII case |
| Documents.MatchesIgnoresFilterCase | utils.py:43 | `case=False`: two filters that differ only in letter case select the same rows |
| Documents.MatchesLowerFilter | utils.py:43 | lower-casing the filter does not change which rows match |
| Documents.MatchesIgnoresDepartmentCase | utils.py:43 | changing only the letter case of a department does not change whether it matches |
| PyStrings.LowerIdempotent | utils.py:43 | lower-casing twice gives the same result as lower-casing once |
| Documents.Selects | utils.py:42-43 | a row is kept when the filter is inactive or the row matches |
| Documents.ColumnNotText | utils.py:40-43 | the table is non-empty and no department cell has a value, so `.str` raises |
| Documents.TableDocuments | utils.py:39-48 | the `.str` error when an active filter meets such a column; otherwise the formatted documents of the kept rows, at their table positions, in table order |
| Documents.KeptIndices | utils.py:43 | `df[mask]`: the table positions of the rows the filter keeps, in ascending order |
| Documents.DocumentsAtIndex | utils.py:46-48 | the k-th document built is the formatted row at the k-th kept position, with that position as `row_index` |
| Documents.CreateChunksFromCsv | utils.py:39-49 | the filter and the appending loop produce exactly `TableDocuments`: an error when `.str` raises, otherwise one document per kept row in table order |
| Documents.DocumentsFailure | utils.py:42-43 | the result is an error exactly when the filter is active and the department column holds no text, and the error is the `.str` accessor's |
| Documents.DocumentsSound | utils.py:42-48 | every document is the formatted row at its `row_index`, and that row passes the filter |
| Documents.DocumentsComplete | utils.py:42-48 | every row that passes the filter has a document |
| Documents.DocumentsInTableOrder | utils.py:46-48 | `row_index` strictly increases along the documents: table order, one per row |
| Documents.MissingDepartmentDropped | utils.py:43 | under an active filter, no document comes from a row whose department is missing (`na=False`) |
| Documents.UnfilteredKeepsEveryRow | utils.py:42-48 | with no filter, an empty filter or `-- All India --`, every row yields its document, in order |
| Sequences.FilterIndicesSpec | utils.py:43 | the boolean-mask selection keeps exactly the positions whose row satisfies the mask, in ascending order |
| Sequences.FilterIndicesAll | utils.py:43 | when every row satisfies the mask, every position is kept |
| Sequences.ConcatResultsAppend | utils.py:122-123 | extending the list of inputs by more inputs appends their results, and the first error wins |
| Sequences.ConcatResultsErrorPersists | utils.py:122-123 | once a prefix of the inputs fails, the whole fails with that error |
| VectorStores.VectorStore.constructor | utils.py:131 | a store connected to an index holds that index's documents |
| VectorStores.VectorStore.DeleteAll | utils.py:135 | `delete(delete_all=True)` leaves the store empty |
| VectorStores.VectorStore.AddDocuments | utils.py:124 | `add_documents` appends the given documents after those already held |
| VectorStores.AllChunks | utils.py:121-123 | the documents of every table concatenated in table order; the first table that raises makes the whole an error |
| VectorStores.Rebuilt | utils.py:133-136 | the store after `get_vector_store`: unchanged without an active filter; otherwise every table's documents, or empty when ingestion raised after the wipe |
| VectorStores.AllChunksAppend | utils.py:121-123 | the chunks of `a + b` are those of `a` followed by those of `b`, and an error in `a` wins |
| VectorStores.AllChunksSound | utils.py:121-123 | every gathered chunk is the document of a row, in one of the tables, that passes the filter |
| VectorStores.AddDocumentsToVectorStore | utils.py:120-124 | on success the store holds its old contents followed by every table's documents in order; when a table raises, nothing is added, and the error is reported exactly then |
| VectorStores.GetVectorStore | utils.py:133-138 | without an active filter the store is unchanged; with one it holds exactly the re-ingested documents, or nothing when ingestion raised after the wipe |
| VectorStores.RebuildIdempotent | utils.py:133-136 | rebuilding twice leaves what rebuilding once leaves |
| VectorStores.RebuildForgetsPrior | utils.py:133-136 | with an active filter, the result does not depend on the prior contents |
| VectorStores.RebuildKeepsWhenInactive | utils.py:133-136 | without an active filter, the prior contents are kept |
| Scraper.TextFromElement | Scraper.py:39-41 | `-` when no element matched, otherwise the element's text stripped |
| Scraper.JoinTags | Scraper.py:71 | the tag titles joined by `", "` |
| Scraper.ScrapeCard | Scraper.py:59-77 | one row of the three extracted texts and the joined tags for a card that extracts, none for a card that raises |
| Scraper.CardRows | Scraper.py:58-77 | the rows of a page's cards, in card order |
| Scraper.TextFromElementSpec | Scraper.py:39-41 | no matching element gives `-`; otherwise the element's text minus only surrounding whitespace, with trimmed ends |
| Scraper.JoinTagsEnds | Scraper.py:71 | no tags give the empty string; a single tag gives itself, with no separator |
| Scraper.TagsRoundTrip | Scraper.py:64-71 | when no tag title holds a comma, splitting the tags field at `", "` recovers the titles |
| Scraper.CardRowsAppend | Scraper.py:58-77 | the rows of two card runs are the rows of the first followed by those of the second |
| Scraper.CardRowsOfOne | Scraper.py:58-77 | a card that extracts appends exactly one row built from its four fields; a card that raises appends nothing |
| Scraper.ScrapeCards | Scraper.py:58-77 | the card loop appends each card's row, if any, to `data_rows`, in card order |
| Scraper.IsCurrentPage | Scraper.py:91 | the class string contains both `!text-white` and `bg-green-700` |
| Scraper.NextEntry | Scraper.py:88-94 | the position after the first current-page `<li>` that has a successor, or none |
| Scraper.NextEntryFromSpec | Scraper.py:88-94 | the scan from a position picks the entry right after the first current-page entry that has a successor, or none exactly when no such entry exists |
| Scraper.NextEntrySpec | Scraper.py:88-94 | the chosen entry follows the first `<li>` whose class holds both `!text-white` and `bg-green-700` and has a successor; there is none exactly when no such `<li>` exists |
| Scraper.FindNextEntry | Scraper.py:88-94 | the `for`/`break` loop returns exactly that entry |
| Scraper.PageStop | Scraper.py:53-112 | why the loop leaves a scraped page: no cards, a missing pagination list, no next entry, or a click that does not load; none when it moves on |
| Scraper.CrawlFrom | Scraper.py:45-112 | the crawl from page `n` ends at a page between `n` and 361 |
| Scraper.RunCrawl | Scraper.py:43-112 | the `while page_num <= 360` loop, with its card loop and pagination step, ends with the rows, page number and stop reason of `CrawlFrom(site, 1)` |
| Scraper.CrawlBounds | Scraper.py:45-107 | `page_num` ends at 361 exactly when the crawl stopped for the page limit |
| Scraper.CrawlStopsForItsReason | Scraper.py:53-112 | every page before the last one visited moved on; the crawl ended either at the page limit or for what the last visited page shows (no cards, no next entry, or a failed pagination step) |
| Scraper.CrawlRowsArePageRows | Scraper.py:58-77 | the collected rows are the rows of every page scraped, page after page, and at most 360 pages are scraped |
| Scraper.CrawlSummary | Scraper.py:43-112 | from page 1: the final page number lies in 1..361, the rows are those of pages 1 up to the last one scraped, and no page past 360 is scraped |
| Scraper.OutputRecords | Scraper.py:114-118 | the header row followed by each collected row's four fields |
| Scraper.OutputShape | Scraper.py:114-118 | the output is the 4-column header followed by one 4-field record per collected row, in order |

## Left out

- The text splitter (`RecursiveCharacterTextSplitter`, 400 characters with 50 overlap) is left out: the
  model stops at the documents, and each document stands for the chunks cut from it. The chunks' text
  and their shared `row_index` and `title` metadata are not modelled.
- CSV reading and writing (`pd.read_csv`, `csv.writer`) are left out. A table is a sequence of rows over
  the four columns read, and the output is a sequence of records.
  - Every cell is assumed to be read as text or as missing (NaN); only the all-missing department column
    is modelled as not being text. Numeric and boolean type inference is not modelled:
    - `.str.contains` raising on a department column whose present cells all read as numbers or as
      `True`/`False`. For such a table `TableDocuments` returns `Ok`.
    - the number formatting `str()` applies to an inferred number: `007` printing as `7`, or `5` as `5.0`
      in a column with an empty cell.
  - A missing column (a `KeyError`) is not modelled.
- Documents.Matches: `str.contains` treats the filter text as a regular expression and folds case
  for all of Unicode. The model takes the filter as literal text and lower-cases ASCII letters only.
- Embeddings, the Pinecone index, the Gemini model, the QA chain, HyDE retrieval, the prompt template and
  the response printer are left out. They are calls into remote services; the index is modelled by the
  documents it holds.
- The browser is left out: Selenium, page loading, scrolling, explicit waits, clicks and BeautifulSoup
  parsing. Each page is given as the cards it shows and what its pagination offers.
  - A failing `wait.until`, a missing pagination list or a failing click becomes `PaginationFailed`.
  - An exception inside a card becomes `CardFailure`.
  - An element's `.text` is given as a string.
- Progress messages (`print`) and sleeps are left out.
- `main.py`, `streamlit.py` and `test.py` are not part of this model. They are the CLI, the chat front end,
  and the evaluation harness, which scores the bot's answers against `ground_truth.csv` with BERTScore,
  reports accuracy, precision, recall and F1, and plots the F1 per question.
