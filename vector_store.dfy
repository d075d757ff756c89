/**
 * The vector-store side of utils.py: `add_documents_to_vector_store` gathers the chunks of every
 * table in order and adds them in one call, and `get_vector_store` wipes the index and re-adds
 * everything when a region filter is active. The index is modelled as the sequence of documents
 * it holds, in insertion order; embeddings are not modelled.
 */
module VectorStores {
  import opened Wrappers
  import opened Sequences
  import opened Documents

  /** A Pinecone-backed store, as the documents it holds. */
  class VectorStore {
    var entries: seq<Document>

    constructor (initial: seq<Document>)
      ensures entries == initial
    {
      entries := initial;
    }

    /** `vector_store.delete(delete_all=True)`. */
    method DeleteAll()
      modifies this
      ensures entries == []
    {
      entries := [];
    }

    /** `vector_store.add_documents(docs)`: the new documents follow the ones already held. */
    method AddDocuments(docs: seq<Document>)
      modifies this
      ensures entries == old(entries) + docs
    {
      entries := entries + docs;
    }
  }

  /** The chunks of every table, in table order; the first table whose filter raises stops everything. */
  function AllChunks(tables: seq<seq<Row>>, filter: Option<string>): Result<seq<Document>> {
    ConcatResults(tables, table => TableDocuments(table, filter))
  }

  /** Table order: the chunks of `a + b` are the chunks of `a` followed by those of `b`,
    * and an error in `a` wins over one in `b`. */
  lemma AllChunksAppend(a: seq<seq<Row>>, b: seq<seq<Row>>, filter: Option<string>)
    ensures AllChunks(a + b, filter) == Combine(AllChunks(a, filter), AllChunks(b, filter))
  {
    ConcatResultsAppend(a, b, table => TableDocuments(table, filter));
  }

  /** `d` is the document of a row, in one of the tables, that passes the filter. */
  predicate FromKeptRow(tables: seq<seq<Row>>, filter: Option<string>, d: Document) {
    exists t :: 0 <= t < |tables| && d.rowIndex < |tables[t]|
      && Selects(filter, tables[t][d.rowIndex]) && d == FormatRowAsDocument(tables[t][d.rowIndex], d.rowIndex)
  }

  /** Every chunk is the document of a row that passes the filter, in one of the tables. */
  lemma {:induction false} AllChunksSound(tables: seq<seq<Row>>, filter: Option<string>)
    requires AllChunks(tables, filter).Ok?
    ensures forall d :: d in AllChunks(tables, filter).value ==> FromKeptRow(tables, filter, d)
    decreases |tables|
  {
    if tables != [] {
      var init, last := tables[..|tables| - 1], tables[|tables| - 1];
      AllChunksSound(init, filter);
      DocumentsSound(last, filter);
      var earlier, mine := AllChunks(init, filter).value, TableDocuments(last, filter).value;
      forall d | d in earlier + mine ensures FromKeptRow(tables, filter, d) {
        if d in earlier {
          var t :| 0 <= t < |init| && d.rowIndex < |init[t]|
            && Selects(filter, init[t][d.rowIndex]) && d == FormatRowAsDocument(init[t][d.rowIndex], d.rowIndex);
          assert tables[t] == init[t];
        } else {
          var k :| 0 <= k < |mine| && mine[k] == d;
          assert tables[|tables| - 1] == last;
        }
      }
    }
  }

  /** `add_documents_to_vector_store`: build the chunks of every table in order, then add them
    * all at once; a table whose filter raises stops the loop before anything is added. */
  method AddDocumentsToVectorStore(store: VectorStore, tables: seq<seq<Row>>, filter: Option<string>)
    returns (r: Result<()>)
    modifies store
    ensures r.Err? <==> AllChunks(tables, filter).Err?
    ensures store.entries
      == if AllChunks(tables, filter).Ok? then old(store.entries) + AllChunks(tables, filter).value
         else old(store.entries)
  {
    var chunks: seq<Document> := [];
    var i := 0;
    while i < |tables|
      invariant 0 <= i <= |tables| && AllChunks(tables[..i], filter) == Ok(chunks)
      invariant store.entries == old(store.entries)
    {
      assert tables[..i + 1][..i] == tables[..i];
      var part := CreateChunksFromCsv(tables[i], filter);
      if part.Err? {
        ConcatResultsErrorPersists(tables, table => TableDocuments(table, filter), i + 1);
        return Err(part.message);
      }
      chunks := chunks + part.value;
      i := i + 1;
    }
    assert tables[..i] == tables;
    store.AddDocuments(chunks);
    return Ok(());
  }

  /** What the store holds after `get_vector_store`: unchanged without an active filter; otherwise
    * the chunks of every table, or nothing when the filter raised after the wipe. */
  function Rebuilt(prior: seq<Document>, tables: seq<seq<Row>>, filter: Option<string>): seq<Document> {
    if !FilterActive(filter) then prior
    else
      match AllChunks(tables, filter)
      case Ok(chunks) => chunks
      case Err(_) => []
  }

  /** The rebuild branch of `get_vector_store`, on a store already connected to its index. */
  method GetVectorStore(store: VectorStore, tables: seq<seq<Row>>, filter: Option<string>)
    returns (r: Result<()>)
    modifies store
    ensures store.entries == Rebuilt(old(store.entries), tables, filter)
    ensures r.Err? <==> FilterActive(filter) && AllChunks(tables, filter).Err?
  {
    if FilterActive(filter) {
      store.DeleteAll();
      r := AddDocumentsToVectorStore(store, tables, filter);
    } else {
      r := Ok(());
    }
  }

  /** Rebuilding twice leaves what rebuilding once leaves. */
  lemma RebuildIdempotent(prior: seq<Document>, tables: seq<seq<Row>>, filter: Option<string>)
    ensures Rebuilt(Rebuilt(prior, tables, filter), tables, filter) == Rebuilt(prior, tables, filter)
  {
  }

  /** With an active filter, nothing of the prior contents survives. */
  lemma RebuildForgetsPrior(p: seq<Document>, q: seq<Document>, tables: seq<seq<Row>>, filter: Option<string>)
    requires FilterActive(filter)
    ensures Rebuilt(p, tables, filter) == Rebuilt(q, tables, filter)
  {
  }

  /** Without an active filter the store is left as it was. */
  lemma RebuildKeepsWhenInactive(prior: seq<Document>, tables: seq<seq<Row>>, filter: Option<string>)
    requires !FilterActive(filter)
    ensures Rebuilt(prior, tables, filter) == prior
  {
  }
}
