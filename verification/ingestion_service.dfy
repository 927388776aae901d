/** The ingestion pipeline: every paper the catalogue client yields for a
    request is saved in its own transaction, replacing any earlier copy.
    A paper is saved as the row of parameters its insert binds
    (`DocumentRow`).

    The client is a parameter from the requested ids to the stream it
    yields. Each step of a save may fail; which steps fail for the paper at
    position `k` of the stream is the parameter `faults(k)`. */
module IngestionService {
  import opened Wrappers
  import opened Domain
  import opened DocumentStore
  import ArxivExtensions
  import Json

  /** The database calls of one save, in the order they are made. */
  datatype Step = Open | Begin | Delete | Insert | EmbedSummary | EmbedMetadata | Commit | Close

  /** The calls made inside the `try` of a save, up to the commit. */
  const TransactionSteps: seq<Step> := [Begin, Delete, Insert, EmbedSummary, EmbedMetadata, Commit]

  /** The exception each call raises, if it fails. */
  type Faults = Step -> Option<Error>

  predicate NoFault(steps: seq<Step>, fault: Faults) {
    forall k :: 0 <= k < |steps| ==> fault(steps[k]).None?
  }

  /** The position of the first failing call among `steps`. */
  function FirstFault(steps: seq<Step>, fault: Faults): (r: Option<nat>)
    ensures r.Some? ==> r.value < |steps| && fault(steps[r.value]).Some?
    ensures r.Some? ==> NoFault(steps[..r.value], fault)
    ensures r.None? <==> NoFault(steps, fault)
  {
    if |steps| == 0 then None
    else if fault(steps[0]).Some? then Some(0)
    else match FirstFault(steps[1..], fault)
      case None => None
      case Some(k) =>
        assert steps[..k + 1] == [steps[0]] + steps[1..][..k];
        Some(k + 1)
  }

  /** The row a paper is inserted as: the summary is never null, the
      metadata is the paper's JSON text, the PDF address its string form. */
  function DocumentRow(p: ArxivPaper): (row: Document)
    ensures row.arxivId == p.id
    ensures row.title == p.title && row.comments == p.comments && row.published == p.published
    ensures row.summary == Some(p.summary)
    ensures row.metadata.Some?
    ensures Json.DecodeMetadata(row.metadata.value) == Success(Some(DocumentMetadata(p.authors, p.categories)))
    ensures row.pdfUri.Some? <==> p.pdfUri.Some?
    ensures p.pdfUri.Some? ==> row.pdfUri.value == p.pdfUri.value.text
  {
    ArxivExtensions.MetadataStringRoundTrip(p);
    Document(
      p.id, p.title, Some(p.summary), p.comments,
      Some(ArxivExtensions.MetadataString(p)),
      if p.pdfUri.Some? then Some(p.pdfUri.value.text) else None,
      p.published)
  }

  /** The rows of the papers, in order. */
  function RowsOf(papers: seq<ArxivPaper>): (rows: seq<Document>)
    ensures |rows| == |papers|
    ensures forall k :: 0 <= k < |papers| ==> rows[k].arxivId == papers[k].id
  {
    seq(|papers|, k requires 0 <= k < |papers| => DocumentRow(papers[k]))
  }

  /** The tables after a save, the exception it raised, and the calls it
      made. */
  datatype SaveOutcome = SaveOutcome(db: Db, error: Option<Error>, steps: seq<Step>)

  /** Every call before the `INSERT` succeeded, so the insert was sent. */
  predicate InsertReached(fault: Faults) {
    fault(Open).None? && fault(Begin).None? && fault(Delete).None?
  }

  /** `Save` of a paper whose parameters are `row`: open the connection
      (outside the `try`), run the statements in a transaction, commit, and
      close the connection in the `finally`. A failing call inside the
      `try` leaves the transaction uncommitted, so it rolls back; an
      exception from the close replaces the one in flight. A rollback
      restores the rows but not the identity: once the insert was sent, its
      identity value is used up. */
  function Save(db: Db, row: Document, fault: Faults, model: string): (o: SaveOutcome)
    ensures fault(Open).Some? ==> o == SaveOutcome(db, fault(Open), [Open])
    ensures fault(Open).None? ==> |o.steps| >= 2 && o.steps[0] == Open && o.steps[|o.steps| - 1] == Close
    ensures o.error.None? <==> fault(Open).None? && NoFault(TransactionSteps, fault) && fault(Close).None?
    ensures fault(Open).None? && fault(Close).Some? ==> o.error == fault(Close)
    ensures fault(Open).None? && NoFault(TransactionSteps, fault) ==> o.db == ReplaceDocument(db, row, model)
    ensures !(fault(Open).None? && NoFault(TransactionSteps, fault)) ==>
              && o.db.documents == db.documents
              && o.db.summaryEmbeddings == db.summaryEmbeddings
              && o.db.metadataEmbeddings == db.metadataEmbeddings
              && o.db.nextId == (if InsertReached(fault) then db.nextId + 1 else db.nextId)
  {
    if fault(Open).Some? then SaveOutcome(db, fault(Open), [Open])
    else
      var first := FirstFault(TransactionSteps, fault);
      var attempted := if first.None? then TransactionSteps else TransactionSteps[..first.value + 1];
      var failure := if first.None? then None else fault(TransactionSteps[first.value]);
      var committed :=
        if first.None? then ReplaceDocument(db, row, model)
        else if InsertReached(fault) then db.(nextId := db.nextId + 1)
        else db;
      SaveOutcome(committed, if fault(Close).Some? then fault(Close) else failure, [Open] + attempted + [Close])
  }

  /** A save keeps the tables well formed. */
  lemma SaveWellformed(db: Db, row: Document, fault: Faults, model: string)
    requires Wellformed(db)
    ensures Wellformed(Save(db, row, fault, model).db)
  {
    ReplaceWellformed(db, row, model);
  }

  /** A save touches no row of another arXiv id. */
  lemma SaveFrame(db: Db, row: Document, fault: Faults, model: string, other: string)
    requires Wellformed(db) && other != row.arxivId
    ensures SameRowsFor(db, Save(db, row, fault, model).db, other)
  {
    ReplaceFrame(db, row, model, other);
  }

  /** A save whose calls all succeed stores the row as the only document
      with its arXiv id. */
  lemma SaveStores(db: Db, row: Document, fault: Faults, model: string)
    requires Wellformed(db)
    requires forall s :: fault(s).None?
    ensures Save(db, row, fault, model).error.None?
    ensures StoredAt(Save(db, row, fault, model).db, row, model, db.nextId)
  {
    ReplaceStores(db, row, model);
  }

  /** A save that fails after its insert was sent uses up an identity
      value: the next save that goes through stores its row one further
      on, while the failed row's arXiv id keeps the rows it had. */
  lemma RolledBackSaveSkipsIdentity(db: Db, failed: Document, f1: Faults, row: Document, f2: Faults, model: string)
    requires Wellformed(db)
    requires InsertReached(f1) && !NoFault(TransactionSteps, f1)
    requires forall s :: f2(s).None?
    ensures var mid := Save(db, failed, f1, model).db;
      && SameRowsFor(db, mid, failed.arxivId)
      && StoredAt(Save(mid, row, f2, model).db, row, model, db.nextId + 1)
  {
    var mid := Save(db, failed, f1, model).db;
    SaveWellformed(db, failed, f1, model);
    SaveStores(mid, row, f2, model);
  }

  /** A paper's row always gets both embeddings once stored. */
  lemma PaperEmbeddings(db: Db, p: ArxivPaper, model: string, id: nat)
    requires StoredAt(db, DocumentRow(p), model, id)
    ensures At(db.summaryEmbeddings, id) == Some(Embedding(model, p.summary))
    ensures At(db.metadataEmbeddings, id) == Some(Embedding(model, ArxivExtensions.MetadataString(p)))
  {
  }

  /** The tables, and the arXiv ids whose save failed (each is logged and
      skipped). */
  datatype Progress = Progress(db: Db, logged: seq<string>)

  function SaveRow(pr: Progress, row: Document, fault: Faults, model: string): Progress {
    var o := Save(pr.db, row, fault, model);
    Progress(o.db, if o.error.Some? then pr.logged + [row.arxivId] else pr.logged)
  }

  /** The rows saved one after the other, in stream order; the row at
      position `k` meets the faults `faults(k)`. */
  function SaveAll(start: Progress, rows: seq<Document>, faults: nat -> Faults, model: string): (r: Progress)
    ensures start.db.nextId <= r.db.nextId <= start.db.nextId + |rows|
    decreases |rows|
  {
    if |rows| == 0 then start
    else
      var n := |rows| - 1;
      SaveRow(SaveAll(start, rows[..n], faults, model), rows[n], faults(n), model)
  }

  /** The arXiv ids the rows carry. */
  function ArxivIds(rows: seq<Document>): set<string> {
    set k | 0 <= k < |rows| :: rows[k].arxivId
  }

  /** Whether a save meeting these faults raises: a failing open, call
      inside the transaction, or close. */
  predicate SaveFails(fault: Faults) {
    fault(Open).Some? || !NoFault(TransactionSteps, fault) || fault(Close).Some?
  }

  /** The arXiv ids of the rows whose save fails, in row order. */
  function FailedIds(rows: seq<Document>, faults: nat -> Faults): seq<string>
    decreases |rows|
  {
    if |rows| == 0 then []
    else
      var n := |rows| - 1;
      FailedIds(rows[..n], faults) + (if SaveFails(faults(n)) then [rows[n].arxivId] else [])
  }

  /** At most one id per row, each the id of one of the rows, and none
      when no save fails. */
  lemma {:induction false} FailedIdsBounds(rows: seq<Document>, faults: nat -> Faults)
    ensures |FailedIds(rows, faults)| <= |rows|
    ensures forall x :: x in FailedIds(rows, faults) ==> x in ArxivIds(rows)
    ensures (forall k :: 0 <= k < |rows| ==> !SaveFails(faults(k))) ==> FailedIds(rows, faults) == []
    decreases |rows|
  {
    if |rows| > 0 {
      var n := |rows| - 1;
      FailedIdsBounds(rows[..n], faults);
      forall k | 0 <= k < n
        ensures rows[..n][k].arxivId in ArxivIds(rows)
      {
        assert rows[..n][k] == rows[k];
      }
      assert rows[n].arxivId in ArxivIds(rows);
    }
  }

  /** An arXiv id is listed exactly when the save of some row carrying it
      fails. */
  lemma {:induction false} FailedIdsMembers(rows: seq<Document>, faults: nat -> Faults, x: string)
    ensures x in FailedIds(rows, faults) <==>
      exists j :: 0 <= j < |rows| && rows[j].arxivId == x && SaveFails(faults(j))
    decreases |rows|
  {
    if |rows| > 0 {
      var n := |rows| - 1;
      FailedIdsMembers(rows[..n], faults, x);
      FailedIdsLast(rows, faults);
      if x in FailedIds(rows, faults) {
        if x in FailedIds(rows[..n], faults) {
          var j :| 0 <= j < n && rows[..n][j].arxivId == x && SaveFails(faults(j));
          assert rows[..n][j] == rows[j];
        } else {
          assert rows[n].arxivId == x && SaveFails(faults(n));
        }
      }
      if exists j :: 0 <= j < |rows| && rows[j].arxivId == x && SaveFails(faults(j)) {
        var j :| 0 <= j < |rows| && rows[j].arxivId == x && SaveFails(faults(j));
        if j < n {
          assert rows[..n][j] == rows[j];
        }
      }
    }
  }

  /** A save logs its row's arXiv id exactly when it fails. */
  lemma SaveRowLogged(pr: Progress, row: Document, fault: Faults, model: string)
    ensures SaveRow(pr, row, fault, model).logged ==
      if SaveFails(fault) then pr.logged + [row.arxivId] else pr.logged
  {
  }

  /** The last row's failure, if any, ends the list. */
  lemma FailedIdsLast(rows: seq<Document>, faults: nat -> Faults)
    requires |rows| > 0
    ensures var n := |rows| - 1;
      FailedIds(rows, faults) == FailedIds(rows[..n], faults) + if SaveFails(faults(n)) then [rows[n].arxivId] else []
  {
  }

  /** The saves log, after what was logged before, the arXiv id of every
      row whose save failed, in row order, and nothing else. */
  lemma {:induction false} SaveAllLogged(start: Progress, rows: seq<Document>, faults: nat -> Faults, model: string)
    ensures SaveAll(start, rows, faults, model).logged == start.logged + FailedIds(rows, faults)
    decreases |rows|
  {
    if |rows| > 0 {
      var n := |rows| - 1;
      SaveAllLogged(start, rows[..n], faults, model);
      SaveAllLast(start, rows, faults, model);
      LoggedAfter(SaveAll(start, rows[..n], faults, model), rows[n], faults(n), model, start.logged, FailedIds(rows[..n], faults));
      FailedIdsLast(rows, faults);
    }
  }

  lemma SaveAllLast(start: Progress, rows: seq<Document>, faults: nat -> Faults, model: string)
    requires |rows| > 0
    ensures var n := |rows| - 1;
      SaveAll(start, rows, faults, model) == SaveRow(SaveAll(start, rows[..n], faults, model), rows[n], faults(n), model)
  {
  }

  lemma LoggedAfter(pr: Progress, row: Document, fault: Faults, model: string, earlier: seq<string>, failed: seq<string>)
    requires pr.logged == earlier + failed
    ensures SaveRow(pr, row, fault, model).logged == earlier + (failed + if SaveFails(fault) then [row.arxivId] else [])
  {
    SaveRowLogged(pr, row, fault, model);
  }

  /** When every call succeeds nothing is logged. */
  lemma {:induction false} SaveAllWithoutFaults(start: Progress, rows: seq<Document>, faults: nat -> Faults, model: string)
    requires forall k: nat, s :: faults(k)(s).None?
    ensures SaveAll(start, rows, faults, model).logged == start.logged
    decreases |rows|
  {
    if |rows| > 0 {
      SaveAllWithoutFaults(start, rows[..|rows| - 1], faults, model);
    }
  }

  lemma {:induction false} SaveAllWellformed(start: Progress, rows: seq<Document>, faults: nat -> Faults, model: string)
    requires Wellformed(start.db)
    ensures Wellformed(SaveAll(start, rows, faults, model).db)
    decreases |rows|
  {
    if |rows| > 0 {
      var n := |rows| - 1;
      SaveAllWellformed(start, rows[..n], faults, model);
      SaveWellformed(SaveAll(start, rows[..n], faults, model).db, rows[n], faults(n), model);
    }
  }

  lemma SameRowsTrans(d1: Db, d2: Db, d3: Db, arxivId: string)
    requires SameRowsFor(d1, d2, arxivId) && SameRowsFor(d2, d3, arxivId)
    ensures SameRowsFor(d1, d3, arxivId)
  {
  }

  /** The rows of an arXiv id that no saved row carries are never
      touched. */
  lemma {:induction false} SaveAllFrame(start: Progress, rows: seq<Document>, faults: nat -> Faults,
                                        model: string, other: string)
    requires Wellformed(start.db)
    requires forall j :: 0 <= j < |rows| ==> rows[j].arxivId != other
    ensures SameRowsFor(start.db, SaveAll(start, rows, faults, model).db, other)
    decreases |rows|
  {
    if |rows| > 0 {
      var n := |rows| - 1;
      var before := SaveAll(start, rows[..n], faults, model);
      SaveAllFrame(start, rows[..n], faults, model, other);
      SaveAllWellformed(start, rows[..n], faults, model);
      SaveFrame(before.db, rows[n], faults(n), model, other);
      SameRowsTrans(start.db, before.db, SaveAll(start, rows, faults, model).db, other);
    }
  }

  /** A row whose save goes through, and which no later row replaces, ends
      up stored as the only document with its arXiv id. */
  lemma {:induction false} SavedRowStored(start: Progress, rows: seq<Document>, faults: nat -> Faults,
                                          model: string, k: nat) returns (id: nat)
    requires Wellformed(start.db)
    requires k < |rows| && forall s :: faults(k)(s).None?
    requires forall j :: k < j < |rows| ==> rows[j].arxivId != rows[k].arxivId
    ensures StoredAt(SaveAll(start, rows, faults, model).db, rows[k], model, id)
    decreases |rows|
  {
    var n := |rows| - 1;
    var before := SaveAll(start, rows[..n], faults, model);
    var after := SaveAll(start, rows, faults, model);
    assert after.db == Save(before.db, rows[n], faults(n), model).db;
    SaveAllWellformed(start, rows[..n], faults, model);
    if k == n {
      SaveStores(before.db, rows[n], faults(n), model);
      id := before.db.nextId;
    } else {
      assert rows[..n][k] == rows[k];
      forall j | k < j < n
        ensures rows[..n][j].arxivId != rows[..n][k].arxivId
      {
        assert rows[..n][j] == rows[j];
      }
      id := SavedRowStored(start, rows[..n], faults, model, k);
      SaveFrame(before.db, rows[n], faults(n), model, rows[k].arxivId);
      StoredAtTransfer(before.db, after.db, rows[k], model, id);
    }
  }

  /** Every paper of the stream whose save goes through, and which no later
      paper of the stream replaces, is stored as its row, both embeddings
      included. */
  lemma StreamedPaperStored(db: Db, papers: seq<ArxivPaper>, faults: nat -> Faults, model: string, k: nat)
      returns (id: nat)
    requires Wellformed(db)
    requires k < |papers| && forall s :: faults(k)(s).None?
    requires forall j :: k < j < |papers| ==> papers[j].id != papers[k].id
    ensures StoredAt(SaveAll(Progress(db, []), RowsOf(papers), faults, model).db, DocumentRow(papers[k]), model, id)
  {
    var rows := RowsOf(papers);
    id := SavedRowStored(Progress(db, []), rows, faults, model, k);
  }

  /** Saving one more row extends the run by one save. */
  lemma SaveAllStep(start: Progress, rows: seq<Document>, faults: nat -> Faults, model: string, k: nat)
    requires k < |rows|
    ensures SaveAll(start, rows[..k + 1], faults, model) == SaveRow(SaveAll(start, rows[..k], faults, model), rows[k], faults(k), model)
  {
    assert rows[..k + 1][..k] == rows[..k];
  }

  /** The parameter name of the `ArgumentNullException` for a null request. */
  const RequestParameter: string := "indexingRequest"

  /** `ProcessIndexingRequest`. A null request is refused before anything
      else. Otherwise the request's ids go to the client in one call
      (`requested` lists the calls), and the papers of its stream are saved
      in order; a failed save is logged (`logged`) and skipped. An
      exception raised by the stream itself ends the processing and
      propagates as it is, after the papers yielded before it were saved. */
  method ProcessIndexingRequest(request: Option<IndexingRequest>, getPapers: Option<seq<string>> -> PaperStream,
                                faults: nat -> Faults, model: string, db: Db)
      returns (result: Db, failure: Option<Error>, requested: seq<Option<seq<string>>>, logged: seq<string>)
    ensures request.None? ==>
      result == db && failure == Some(ArgumentNull(RequestParameter)) && requested == [] && logged == []
    ensures request.Some? ==> requested == [request.value.ids]
    ensures request.Some? ==>
      var stream := getPapers(request.value.ids);
      && Progress(result, logged) == SaveAll(Progress(db, []), RowsOf(stream.items), faults, model)
      && failure == stream.failure
  {
    if request.None? {
      return db, Some(ArgumentNull(RequestParameter)), [], [];
    }
    requested := [request.value.ids];
    var stream := getPapers(request.value.ids);
    var rows := RowsOf(stream.items);
    var progress := Progress(db, []);
    var k := 0;
    while k < |rows|
      invariant 0 <= k <= |rows|
      invariant progress == SaveAll(Progress(db, []), rows[..k], faults, model)
    {
      SaveAllStep(Progress(db, []), rows, faults, model, k);
      progress := SaveRow(progress, rows[k], faults(k), model);
      k := k + 1;
    }
    assert rows[..k] == rows;
    result, logged, failure := progress.db, progress.logged, stream.failure;
  }
}
