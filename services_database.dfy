/** flask-backend/services/database.py: the variant of the persistence code
    that stores the filename, the raw text and the PDF's own title. */
module ServicesDatabase {
  import opened Strings
  import opened SummaryStore
  import opened Parser

  /** metadata.get('title', '') for a truthy metadata dictionary. */
  function TitleOf(m: Metadata): string {
    if "title" in m then m["title"] else ""
  }

  /** The record this saveSummaryToDatabase sends; None when summary_data
      lacks document_id, filename or summary (the KeyError is caught). */
  function RecordFor(data: SummaryData, fullDocument: Option<ParsedDocument>): (r: Option<Row>)
    ensures r.None? <==> data.documentId.None? || data.filename.None? || data.summary.None?
    ensures r.Some? ==>
      var id := data.documentId.value;
      && Keyed(r.value) && r.value["document_id"] == Text(id)
      && "filename" in r.value && r.value["filename"] == data.filename.value
      && "summary" in r.value && r.value["summary"] == data.summary.value
      && "original_url" in r.value && r.value["original_url"] == Text(OriginalUrl(id))
      && ("raw_text" in r.value <==> fullDocument.Some?)
      && ("raw_text" in r.value ==> r.value["raw_text"] == Text(fullDocument.value.text))
      && ("meeting_title" in r.value <==>
            fullDocument.Some? && fullDocument.value.metadata.Some? && |fullDocument.value.metadata.value| > 0)
      && ("meeting_title" in r.value ==> r.value["meeting_title"] == Text(TitleOf(fullDocument.value.metadata.value)))
      && r.value.Keys <= {"document_id", "filename", "summary", "original_url", "raw_text", "meeting_title"}
  {
    if data.documentId.None? || data.filename.None? || data.summary.None? then None
    else
      var id := data.documentId.value;
      var base := map["document_id" := Text(id), "filename" := data.filename.value,
                      "summary" := data.summary.value, "original_url" := Text(OriginalUrl(id))];
      match fullDocument
      case None => Some(base)
      case Some(doc) =>
        var withText := base["raw_text" := Text(doc.text)];
        if doc.metadata.Some? && |doc.metadata.value| > 0
        then Some(withText["meeting_title" := Text(TitleOf(doc.metadata.value))])
        else Some(withText)
  }

  /** A record saved with a document sends that document's full text under
      the id it was summarised under, and without one it never touches
      raw_text or meeting_title: a later save without the document keeps them. */
  lemma SaveWithoutDocumentKeepsText(t: Snapshot, data: SummaryData, doc: ParsedDocument)
    requires Indexed(t) && RecordFor(data, Some(doc)).Some?
    ensures var first := Upserted(t, RecordFor(data, Some(doc)).value);
      var second := Upserted(first, RecordFor(data, None).value);
      var id := data.documentId.value;
      && second.rows[id]["raw_text"] == Text(doc.text)
      && second.rows[id]["summary"] == data.summary.value
  {
  }

  /** saveSummaryToDatabase: build the record key by key and upsert it; the
      record on success, None when a key is missing or the store fails. */
  method SaveSummaryToDatabase(data: SummaryData, fullDocument: Option<ParsedDocument>, table: SummaryTable, fails: bool)
    returns (result: Option<Row>)
    requires table.Valid()
    modifies table
    ensures table.Valid()
    ensures result == if fails then None else RecordFor(data, fullDocument)
    ensures table.State() == if result.Some? then Upserted(old(table.State()), result.value) else old(table.State())
  {
    if data.documentId.None? || data.filename.None? || data.summary.None? {
      return None;
    }
    var id := data.documentId.value;
    var dbRecord: Row := map[];
    dbRecord := dbRecord["document_id" := Text(id)];
    dbRecord := dbRecord["filename" := data.filename.value];
    dbRecord := dbRecord["summary" := data.summary.value];
    dbRecord := dbRecord["original_url" := Text(FileStreamUrl + id)];
    if fullDocument.Some? {
      var doc := fullDocument.value;
      dbRecord := dbRecord["raw_text" := Text(doc.text)];
      if doc.metadata.Some? && |doc.metadata.value| > 0 {
        dbRecord := dbRecord["meeting_title" := Text(TitleOf(doc.metadata.value))];
      }
    }
    assert dbRecord == RecordFor(data, fullDocument).value;
    var ok := table.Upsert(dbRecord, fails);
    if ok {
      result := Some(dbRecord);
    } else {
      result := None;
    }
  }

  /** The full-document lookup of saveMultipleSummaries. */
  function DocumentLookup(docs: seq<ParsedDocument>): (m: map<string, ParsedDocument>)
    ensures forall k :: 0 <= k < |docs| ==> docs[k].documentId in m
  {
    var entries := seq(|docs|, k requires 0 <= k < |docs| => (docs[k].documentId, docs[k]));
    assert forall k :: 0 <= k < |docs| ==> entries[k].0 == docs[k].documentId;
    LastById(entries)
  }

  /** For a duplicated id the later full document is the one used. */
  lemma DocumentLaterEntryWins(docs: seq<ParsedDocument>, j: nat)
    requires j < |docs|
    requires forall k :: j < k < |docs| ==> docs[k].documentId != docs[j].documentId
    ensures DocumentLookup(docs)[docs[j].documentId] == docs[j]
  {
    var entries := seq(|docs|, k requires 0 <= k < |docs| => (docs[k].documentId, docs[k]));
    LaterEntryWins(entries, j);
  }

  /** What saving one summary of the batch returns: None when the call fails. */
  function SaveOne(summary: SummaryData, lookup: map<string, ParsedDocument>, failed: bool): (r: Option<Row>)
    requires summary.documentId.Some?
    ensures r.Some? ==> Keyed(r.value) && r.value["document_id"] == Text(summary.documentId.value)
    ensures r.Some? <==> !failed && summary.filename.Some? && summary.summary.Some?
  {
    var id := summary.documentId.value;
    if failed then None else RecordFor(summary, if id in lookup then Some(lookup[id]) else None)
  }

  /** What each save of the batch returns, in order; call k fails when fails(k). */
  function SaveResults(summaries: seq<SummaryData>, lookup: map<string, ParsedDocument>, fails: nat -> bool): (rs: seq<Option<Row>>)
    requires forall k :: 0 <= k < |summaries| ==> summaries[k].documentId.Some?
    ensures |rs| == |summaries|
    ensures AllKeyed(rs)
    decreases |summaries|
  {
    if summaries == [] then []
    else
      var n := |summaries|;
      SaveResults(summaries[..n - 1], lookup, fails) + [SaveOne(summaries[n - 1], lookup, fails(n - 1))]
  }

  /** Result k is what saving summary k returns. */
  lemma {:induction false} SaveResultsAt(summaries: seq<SummaryData>, lookup: map<string, ParsedDocument>, fails: nat -> bool, k: nat)
    requires forall k :: 0 <= k < |summaries| ==> summaries[k].documentId.Some?
    requires k < |summaries|
    ensures SaveResults(summaries, lookup, fails)[k] == SaveOne(summaries[k], lookup, fails(k))
    decreases |summaries|
  {
    var n := |summaries|;
    if k < n - 1 {
      SaveResultsAt(summaries[..n - 1], lookup, fails, k);
    }
  }

  /** One pass of saveMultipleSummaries' loop: look the id up, save summary
      i, and report whether the save returned a record. */
  method SaveNext(summaries: seq<SummaryData>, lookup: map<string, ParsedDocument>, fails: nat -> bool,
                  i: nat, table: SummaryTable)
    returns (saved: bool)
    requires forall k :: 0 <= k < |summaries| ==> summaries[k].documentId.Some?
    requires i < |summaries| && table.Valid()
    modifies table
    ensures table.Valid()
    ensures var r := SaveResults(summaries, lookup, fails)[i];
      saved == r.Some? && table.State() == if r.Some? then Upserted(old(table.State()), r.value) else old(table.State())
  {
    var summary := summaries[i];
    var docId := summary.documentId.value;
    var fullDoc := if docId in lookup then Some(lookup[docId]) else None;
    var result := SaveSummaryToDatabase(summary, fullDoc, table, fails(i));
    SaveResultsAt(summaries, lookup, fails, i);
    saved := result.Some?;
  }

  /** saveMultipleSummaries: save each summary with its full document when
      one is listed, count the successes, and go on after a failure. */
  method SaveMultipleSummaries(summaries: seq<SummaryData>, fullDocuments: seq<ParsedDocument>,
                               table: SummaryTable, fails: nat -> bool)
    returns (successCount: nat)
    requires forall k :: 0 <= k < |summaries| ==> summaries[k].documentId.Some?
    requires table.Valid()
    modifies table
    ensures table.Valid()
    ensures var rs := SaveResults(summaries, DocumentLookup(fullDocuments), fails);
      var recs := SavedUpTo(rs, |rs|);
      successCount == |recs| <= |summaries| && table.State() == UpsertAll(old(table.State()), recs)
  {
    successCount := 0;
    var docLookup: map<string, ParsedDocument> := map[];
    if |fullDocuments| > 0 {
      docLookup := DocumentLookup(fullDocuments);
    }
    assert docLookup == DocumentLookup(fullDocuments);
    ghost var results := SaveResults(summaries, docLookup, fails);
    ghost var start := table.State();
    var i := 0;
    while i < |summaries|
      invariant 0 <= i <= |summaries|
      invariant table.Valid()
      invariant successCount == SuccessCount(results, i)
      invariant table.State() == StateAfter(start, results, i)
    {
      var saved := SaveNext(summaries, docLookup, fails, i, table);
      if saved {
        successCount := successCount + 1;
      }
      i := i + 1;
    }
    StateAfterIsUpsertAll(start, results, i);
    SuccessCountIsSaved(results, i);
  }

  /** checkIfDocumentExists: some row has that document_id; False when the query fails. */
  function CheckIfDocumentExists(table: SummaryTable, documentId: string, fails: bool): (found: bool)
    reads table
    ensures found <==> !fails && Selected(table.State(), Text(documentId)) != []
  {
    if fails then false else |Selected(table.State(), Text(documentId))| > 0
  }

  /** In the table a document exists exactly when a row is stored under its id. */
  lemma CheckFindsStoredRow(table: SummaryTable, documentId: string, fails: bool)
    requires table.Valid()
    ensures CheckIfDocumentExists(table, documentId, fails) <==> !fails && documentId in table.rows
  {
    SelectedOfIndexed(table.State(), documentId);
  }
}
