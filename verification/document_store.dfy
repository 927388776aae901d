/** The three tables the ingestion writes, and the effect of the four SQL
    statements of a document replacement on them.

    `Documents` rows are keyed by their identity column; each embedding
    table holds at most one row per document `Id`. An embedding computed
    by `AI_GENERATE_EMBEDDINGS` is an opaque value naming its model and the
    text it was computed from. */
module DocumentStore {
  import opened Wrappers
  import opened Domain

  /** A `dbo.Documents` row, without its `Id`. */
  datatype Document = Document(
    arxivId: string,
    title: Option<string>,
    summary: Option<string>,
    comments: Option<string>,
    metadata: Option<string>,
    pdfUri: Option<string>,
    published: DateTime)

  /** `AI_GENERATE_EMBEDDINGS(input USE MODEL model)`. */
  datatype Embedding = Embedding(model: string, input: string)

  /** The three tables and the next value of the `Documents` identity. */
  datatype Db = Db(
    documents: map<nat, Document>,
    summaryEmbeddings: map<nat, Embedding>,
    metadataEmbeddings: map<nat, Embedding>,
    nextId: nat)

  /** The value stored under `k`, if any. */
  function At<V>(m: map<nat, V>, k: nat): Option<V> {
    if k in m then Some(m[k]) else None
  }

  /** Identity values are below the next one, every embedding row belongs
      to a document, and no two documents share an arXiv id. */
  predicate Wellformed(db: Db) {
    && (forall k :: k in db.documents ==> k < db.nextId)
    && db.summaryEmbeddings.Keys <= db.documents.Keys
    && db.metadataEmbeddings.Keys <= db.documents.Keys
    && (forall j, k :: j in db.documents && k in db.documents && db.documents[j].arxivId == db.documents[k].arxivId ==> j == k)
  }

  /** The `Id`s of the documents whose `ArxivId` is `arxivId`. */
  function IdsOf(db: Db, arxivId: string): set<nat> {
    set k | k in db.documents && db.documents[k].arxivId == arxivId
  }

  /** The rows for `arxivId` are the same in both states: the same
      documents, and the same embeddings for them. */
  predicate SameRowsFor(d1: Db, d2: Db, arxivId: string) {
    && IdsOf(d1, arxivId) == IdsOf(d2, arxivId)
    && forall k :: k in IdsOf(d1, arxivId) ==>
         && d1.documents[k] == d2.documents[k]
         && At(d1.summaryEmbeddings, k) == At(d2.summaryEmbeddings, k)
         && At(d1.metadataEmbeddings, k) == At(d2.metadataEmbeddings, k)
  }

  /** The three `DELETE` statements: the embeddings of the documents with
      that arXiv id, then the documents. */
  function DeleteExisting(db: Db, arxivId: string): Db {
    var gone := IdsOf(db, arxivId);
    Db(db.documents - gone, db.summaryEmbeddings - gone, db.metadataEmbeddings - gone, db.nextId)
  }

  /** `INSERT INTO dbo.Documents ...; SELECT CAST(SCOPE_IDENTITY() as int)`:
      the row receives the next identity value, which is returned. */
  function InsertDocument(db: Db, row: Document): (Db, nat) {
    (db.(documents := db.documents[db.nextId := row], nextId := db.nextId + 1), db.nextId)
  }

  /** `INSERT INTO dbo.DocumentSummaryEmbeddings ... WHERE d.[Id] = @Id AND
      d.[Summary] IS NOT NULL`. */
  function InsertSummaryEmbedding(db: Db, id: nat, model: string): Db {
    if id in db.documents && db.documents[id].summary.Some? then
      db.(summaryEmbeddings := db.summaryEmbeddings[id := Embedding(model, db.documents[id].summary.value)])
    else db
  }

  /** `INSERT INTO dbo.DocumentMetadataEmbeddings ... WHERE d.[Id] = @Id AND
      d.[Metadata] IS NOT NULL`. */
  function InsertMetadataEmbedding(db: Db, id: nat, model: string): Db {
    if id in db.documents && db.documents[id].metadata.Some? then
      db.(metadataEmbeddings := db.metadataEmbeddings[id := Embedding(model, db.documents[id].metadata.value)])
    else db
  }

  /** The four statements of a save, in order, as one committed effect:
      the old rows for the arXiv id go, the new row is inserted, then its
      two embeddings. */
  function ReplaceDocument(db: Db, row: Document, model: string): (r: Db)
    ensures r.nextId == db.nextId + 1
    ensures db.nextId in r.documents && r.documents[db.nextId] == row
    ensures forall k :: k in r.documents && k != db.nextId ==>
              k in db.documents && r.documents[k] == db.documents[k] && db.documents[k].arxivId != row.arxivId
  {
    var cleared := DeleteExisting(db, row.arxivId);
    var (inserted, id) := InsertDocument(cleared, row);
    InsertMetadataEmbedding(InsertSummaryEmbedding(inserted, id, model), id, model)
  }

  /** The embedding row an `IS NOT NULL` guarded insert produces for a
      column value. */
  function EmbeddingOf(text: Option<string>, model: string): Option<Embedding> {
    if text.Some? then Some(Embedding(model, text.value)) else None
  }

  /** `row` is stored under `id`: the only document with its arXiv id, and
      each embedding present exactly when its source column is not null. */
  predicate StoredAt(db: Db, row: Document, model: string, id: nat) {
    && IdsOf(db, row.arxivId) == {id}
    && id in db.documents
    && db.documents[id] == row
    && At(db.summaryEmbeddings, id) == EmbeddingOf(row.summary, model)
    && At(db.metadataEmbeddings, id) == EmbeddingOf(row.metadata, model)
  }

  /** The state after a replacement, table by table. */
  lemma ReplaceTables(db: Db, row: Document, model: string)
    ensures var cleared := DeleteExisting(db, row.arxivId);
      var r := ReplaceDocument(db, row, model);
      var id := db.nextId;
      && r.nextId == id + 1
      && r.documents == cleared.documents[id := row]
      && (forall k :: k != id ==> At(r.summaryEmbeddings, k) == At(cleared.summaryEmbeddings, k))
      && (forall k :: k != id ==> At(r.metadataEmbeddings, k) == At(cleared.metadataEmbeddings, k))
      && At(r.summaryEmbeddings, id) == (if row.summary.Some? then EmbeddingOf(row.summary, model) else At(cleared.summaryEmbeddings, id))
      && At(r.metadataEmbeddings, id) == (if row.metadata.Some? then EmbeddingOf(row.metadata, model) else At(cleared.metadataEmbeddings, id))
  {
  }

  /** After a replacement the row is stored under the next identity value:
      every older row for its arXiv id is gone, embeddings included. */
  lemma ReplaceStores(db: Db, row: Document, model: string)
    requires Wellformed(db)
    ensures StoredAt(ReplaceDocument(db, row, model), row, model, db.nextId)
  {
    var cleared := DeleteExisting(db, row.arxivId);
    var r := ReplaceDocument(db, row, model);
    var id := db.nextId;
    ReplaceTables(db, row, model);
    assert id !in cleared.summaryEmbeddings && id !in cleared.metadataEmbeddings;
    forall k | k in r.documents && k != id
      ensures r.documents[k].arxivId != row.arxivId
    {
      assert k in cleared.documents;
    }
    assert IdsOf(r, row.arxivId) == {id};
  }

  /** A replacement keeps the tables well formed and advances the
      identity. */
  lemma ReplaceWellformed(db: Db, row: Document, model: string)
    requires Wellformed(db)
    ensures Wellformed(ReplaceDocument(db, row, model))
    ensures ReplaceDocument(db, row, model).nextId == db.nextId + 1
  {
    var r := ReplaceDocument(db, row, model);
    ReplaceTables(db, row, model);
    ReplaceStores(db, row, model);
    forall k | k in r.summaryEmbeddings
      ensures k in r.documents
    {
      assert At(r.summaryEmbeddings, k).Some?;
    }
    forall k | k in r.metadataEmbeddings
      ensures k in r.documents
    {
      assert At(r.metadataEmbeddings, k).Some?;
    }
  }

  /** A replacement leaves the rows of every other arXiv id as they were. */
  lemma ReplaceFrame(db: Db, row: Document, model: string, other: string)
    requires Wellformed(db) && other != row.arxivId
    ensures SameRowsFor(db, ReplaceDocument(db, row, model), other)
  {
    var cleared := DeleteExisting(db, row.arxivId);
    var r := ReplaceDocument(db, row, model);
    var id := db.nextId;
    ReplaceTables(db, row, model);
    forall k | k in IdsOf(db, other)
      ensures k in IdsOf(r, other)
      ensures r.documents[k] == db.documents[k]
      ensures At(r.summaryEmbeddings, k) == At(db.summaryEmbeddings, k)
      ensures At(r.metadataEmbeddings, k) == At(db.metadataEmbeddings, k)
    {
      assert k !in IdsOf(db, row.arxivId);
      assert k != id;
    }
    forall k | k in IdsOf(r, other)
      ensures k in IdsOf(db, other)
    {
      assert k != id;
    }
  }

  /** Rows that agree for an id stay stored there. */
  lemma StoredAtTransfer(d1: Db, d2: Db, row: Document, model: string, id: nat)
    requires StoredAt(d1, row, model, id) && SameRowsFor(d1, d2, row.arxivId)
    ensures StoredAt(d2, row, model, id)
  {
    assert id in IdsOf(d1, row.arxivId);
  }
}
