/** flask-backend/scraper/orchestrator.py: the complete ingestion pipeline.
    Discovery, the portal, the model and the store's failures are oracles
    passed in; the stages, their gating and the early returns are modelled. */
module Orchestrator {
  import opened Strings
  import opened Parser
  import opened Summarizer
  import opened SummaryStore
  import Database

  /** int(document_id): the sort key of a discovered document. */
  function Key(d: Database.MeetingRecord): nat
    requires IsDecimal(d.documentId)
  {
    DecimalValue(d.documentId)
  }

  predicate AllDecimal(ds: seq<Database.MeetingRecord>) {
    forall k :: 0 <= k < |ds| ==> IsDecimal(ds[k].documentId)
  }

  predicate SortedDesc(ds: seq<Database.MeetingRecord>)
    requires AllDecimal(ds)
  {
    forall i, j :: 0 <= i < j < |ds| ==> Key(ds[i]) >= Key(ds[j])
  }

  /** No id in ds is larger than b. */
  predicate AtMost(ds: seq<Database.MeetingRecord>, b: nat)
    requires AllDecimal(ds)
  {
    forall k :: 0 <= k < |ds| ==> Key(ds[k]) <= b
  }

  /** Place d before the first element with a smaller key. */
  function Insert(d: Database.MeetingRecord, ds: seq<Database.MeetingRecord>): (r: seq<Database.MeetingRecord>)
    requires IsDecimal(d.documentId) && AllDecimal(ds)
    ensures AllDecimal(r) && |r| == |ds| + 1
    decreases |ds|
  {
    if ds == [] || Key(d) >= Key(ds[0]) then [d] + ds
    else [ds[0]] + Insert(d, ds[1..])
  }

  lemma {:induction false} InsertPermutes(d: Database.MeetingRecord, ds: seq<Database.MeetingRecord>)
    requires IsDecimal(d.documentId) && AllDecimal(ds)
    ensures multiset(Insert(d, ds)) == multiset([d] + ds)
    decreases |ds|
  {
    if ds != [] && Key(d) < Key(ds[0]) {
      InsertPermutes(d, ds[1..]);
      assert ds == [ds[0]] + ds[1..];
    }
  }

  lemma {:induction false} InsertAtMost(d: Database.MeetingRecord, ds: seq<Database.MeetingRecord>, b: nat)
    requires IsDecimal(d.documentId) && AllDecimal(ds)
    requires Key(d) <= b && AtMost(ds, b)
    ensures AtMost(Insert(d, ds), b)
    decreases |ds|
  {
    if ds != [] && Key(d) < Key(ds[0]) {
      InsertAtMost(d, ds[1..], b);
    }
  }

  lemma SortedCons(x: Database.MeetingRecord, rest: seq<Database.MeetingRecord>)
    requires IsDecimal(x.documentId) && AllDecimal(rest)
    requires SortedDesc(rest) && AtMost(rest, Key(x))
    ensures AllDecimal([x] + rest) && SortedDesc([x] + rest)
  {
    var r := [x] + rest;
    forall i, j | 0 <= i < j < |r|
      ensures Key(r[i]) >= Key(r[j])
    {
      assert r[j] == rest[j - 1];
      if i > 0 {
        assert r[i] == rest[i - 1];
      }
    }
  }

  /** Inserting into a sorted list keeps it sorted. */
  lemma {:induction false} InsertSorted(d: Database.MeetingRecord, ds: seq<Database.MeetingRecord>)
    requires IsDecimal(d.documentId) && AllDecimal(ds) && SortedDesc(ds)
    ensures SortedDesc(Insert(d, ds))
    decreases |ds|
  {
    if ds == [] || Key(d) >= Key(ds[0]) {
      SortedCons(d, ds);
    } else {
      var tail := ds[1..];
      InsertSorted(d, tail);
      InsertAtMost(d, tail, Key(ds[0]));
      SortedCons(ds[0], Insert(d, tail));
    }
  }

  /** all_documents.sort(key=lambda x: int(x['document_id']), reverse=True):
      a stable sort, largest id first. */
  function SortByIdDesc(ds: seq<Database.MeetingRecord>): (r: seq<Database.MeetingRecord>)
    requires AllDecimal(ds)
    ensures AllDecimal(r) && |r| == |ds|
    decreases |ds|
  {
    if ds == [] then [] else Insert(ds[0], SortByIdDesc(ds[1..]))
  }

  /** The sort orders by id, largest first, and loses and adds nothing. */
  lemma {:induction false} SortByIdDescSortsAndPermutes(ds: seq<Database.MeetingRecord>)
    requires AllDecimal(ds)
    ensures SortedDesc(SortByIdDesc(ds))
    ensures multiset(SortByIdDesc(ds)) == multiset(ds)
    decreases |ds|
  {
    if ds != [] {
      var tail := ds[1..];
      SortByIdDescSortsAndPermutes(tail);
      InsertSorted(ds[0], SortByIdDesc(tail));
      InsertPermutes(ds[0], SortByIdDesc(tail));
      assert ds == [ds[0]] + tail;
    }
  }

  const DefaultLimit := 30

  /** recent_docs: the sorted documents, cut at max_documents when it is
      truthy and at 30 otherwise. */
  function SelectRecent(discovered: seq<Database.MeetingRecord>, maxDocuments: Option<int>): seq<Database.MeetingRecord>
    requires AllDecimal(discovered)
  {
    PyPrefix(SortByIdDesc(discovered), if Truthy(maxDocuments) then maxDocuments.value else DefaultLimit)
  }

  /** The selection is a prefix of the sorted list, the most recent ids first,
      of min(n, max_documents) documents, or min(n, 30) without a limit. */
  lemma SelectRecentTakesNewest(discovered: seq<Database.MeetingRecord>, maxDocuments: Option<int>)
    requires AllDecimal(discovered)
    ensures var r := SelectRecent(discovered, maxDocuments);
      && r <= SortByIdDesc(discovered)
      && AllDecimal(r) && SortedDesc(r)
      && multiset(r) <= multiset(discovered)
      && (maxDocuments.Some? && maxDocuments.value > 0 ==> |r| == Min(|discovered|, maxDocuments.value))
      && (!Truthy(maxDocuments) ==> |r| == Min(|discovered|, DefaultLimit))
  {
    var sorted := SortByIdDesc(discovered);
    SortByIdDescSortsAndPermutes(discovered);
    var r := SelectRecent(discovered, maxDocuments);
    assert sorted == r + sorted[|r|..];
    assert multiset(sorted) == multiset(r) + multiset(sorted[|r|..]);
  }

  /** document_ids: the ids of the selected documents, in order. */
  function DocumentIdsOf(ds: seq<Database.MeetingRecord>): (ids: seq<string>)
    ensures |ids| == |ds| && forall k :: 0 <= k < |ds| ==> ids[k] == ds[k].documentId
  {
    seq(|ds|, k requires 0 <= k < |ds| => ds[k].documentId)
  }

  /** The summary dictionary as the save functions read it. */
  function SummaryDataOf(r: SummaryResult): (d: SummaryData)
    ensures d.documentId == Some(r.documentId) && d.filename == Some(Text(r.filename))
    ensures d.summary.Some? && (d.summary.value.Text? <==> r.Summarized?)
  {
    match r
    case Summarized(id, filename, summary, _, _, _) => SummaryData(Some(id), Some(Text(filename)), Some(Text(summary)))
    case SummaryFailed(id, filename, _) => SummaryData(Some(id), Some(Text(filename)), Some(Null))
  }

  function SummaryDataAll(rs: seq<SummaryResult>): (ds: seq<SummaryData>)
    ensures |ds| == |rs| && forall k :: 0 <= k < |rs| ==> ds[k] == SummaryDataOf(rs[k])
  {
    seq(|rs|, k requires 0 <= k < |rs| => SummaryDataOf(rs[k]))
  }

  /** The LLM-ready documents: prepareTextForLLM of each parsed document, no limit. */
  function PreparedAll(parsed: seq<ParsedDocument>): (llm: seq<LlmDocument>)
    ensures |llm| == |parsed|
    ensures forall k :: 0 <= k < |parsed| ==> llm[k] == PrepareTextForLLM(parsed[k], None)
  {
    seq(|parsed|, k requires 0 <= k < |parsed| => PrepareTextForLLM(parsed[k], None))
  }

  /** Preparing keeps each document's id, filename and metadata, and its
      text is the cleaned parsed text. */
  lemma PreparedKeepsDocuments(parsed: seq<ParsedDocument>, k: nat)
    requires k < |parsed|
    ensures var d := PreparedAll(parsed)[k];
      && d.documentId == parsed[k].documentId && d.filename == parsed[k].filename
      && d.metadata == parsed[k].metadata
      && d.text == CleanText(Some(parsed[k].text))
  {
    PreparedTextBounds(parsed[k], None);
  }

  /** An accepted result is one of the results. */
  lemma {:induction false} AcceptedAreResults(rs: seq<SummaryResult>, s: SummaryResult)
    requires s in Accepted(rs)
    ensures s in rs
    decreases |rs|
  {
    var n := |rs|;
    if s !in Accepted(rs[..n - 1]) {
      assert s == rs[n - 1];
    } else {
      AcceptedAreResults(rs[..n - 1], s);
    }
  }

  /** Every summary the pipeline returns is about a parsed document. */
  lemma SummariesAreOfParsedDocuments(parsed: seq<ParsedDocument>, model: Model, s: SummaryResult)
    requires s in Accepted(Results(PreparedAll(parsed), model))
    ensures exists k :: 0 <= k < |parsed| && parsed[k].documentId == s.documentId
  {
    var rs := Results(PreparedAll(parsed), model);
    AcceptedAreResults(rs, s);
    var k :| 0 <= k < |rs| && rs[k] == s;
    ResultsAt(PreparedAll(parsed), model, k);
    PreparedKeepsDocuments(parsed, k);
  }

  /** The ids handed to the save step never lack a document_id. */
  lemma SummaryDataKeyed(rs: seq<SummaryResult>)
    ensures forall k :: 0 <= k < |SummaryDataAll(rs)| ==> SummaryDataAll(rs)[k].documentId.Some?
  {
  }

  /** prepareTextForLLM without a length limit, as a function of the document. */
  function PrepareEach(): ParsedDocument -> LlmDocument {
    d => PrepareTextForLLM(d, None)
  }

  /** The first i documents mapped one at a time, as the loop does. */
  function PreparedUpTo(prep: ParsedDocument -> LlmDocument, parsed: seq<ParsedDocument>, i: nat): (llm: seq<LlmDocument>)
    requires i <= |parsed|
    ensures |llm| == i
  {
    if i == 0 then [] else PreparedUpTo(prep, parsed, i - 1) + [prep(parsed[i - 1])]
  }

  lemma PreparedStep(prep: ParsedDocument -> LlmDocument, parsed: seq<ParsedDocument>, i: nat)
    requires i < |parsed|
    ensures PreparedUpTo(prep, parsed, i + 1) == PreparedUpTo(prep, parsed, i) + [prep(parsed[i])]
  {
  }

  lemma {:induction false} PreparedUpToAt(prep: ParsedDocument -> LlmDocument, parsed: seq<ParsedDocument>, i: nat, k: nat)
    requires k < i <= |parsed|
    ensures PreparedUpTo(prep, parsed, i)[k] == prep(parsed[k])
    decreases i
  {
    assert PreparedUpTo(prep, parsed, i) == PreparedUpTo(prep, parsed, i - 1) + [prep(parsed[i - 1])];
    if k < i - 1 {
      PreparedUpToAt(prep, parsed, i - 1, k);
    }
  }

  /** Preparing one document at a time prepares every document, in order. */
  lemma PreparedUpToIsAll(parsed: seq<ParsedDocument>)
    ensures PreparedUpTo(PrepareEach(), parsed, |parsed|) == PreparedAll(parsed)
  {
    var a := PreparedUpTo(PrepareEach(), parsed, |parsed|);
    var b := PreparedAll(parsed);
    forall k | 0 <= k < |parsed| ensures a[k] == b[k] {
      PreparedUpToAt(PrepareEach(), parsed, |parsed|, k);
    }
  }

  /** The preparation loop of runCompletePipeline: every parsed document,
      cleaned and without a length limit, in order. */
  method PrepareAllForLlm(parsedDocuments: seq<ParsedDocument>) returns (llmReadyDocuments: seq<LlmDocument>)
    ensures llmReadyDocuments == PreparedAll(parsedDocuments)
  {
    ghost var prep := PrepareEach();
    llmReadyDocuments := [];
    var i := 0;
    while i < |parsedDocuments|
      invariant 0 <= i <= |parsedDocuments|
      invariant llmReadyDocuments == PreparedUpTo(prep, parsedDocuments, i)
    {
      var llmDoc := PrepareTextForLLM(parsedDocuments[i], None);
      assert llmDoc == prep(parsedDocuments[i]);
      PreparedStep(prep, parsedDocuments, i);
      llmReadyDocuments := llmReadyDocuments + [llmDoc];
      i := i + 1;
    }
    PreparedUpToIsAll(parsedDocuments);
  }


  /** runCompletePipeline. discovered is what scrapeMultiplePages returns;
      save_to_file is accepted and not used, as in the source. */
  method RunCompletePipeline(maxDocuments: Option<int>, saveToFile: bool, summarize: bool, saveToDb: bool,
                             discovered: seq<Database.MeetingRecord>, portal: Portal, model: Model,
                             storeFails: nat -> bool, table: SummaryTable)
    returns (llmReadyDocuments: seq<LlmDocument>, summaries: seq<SummaryResult>)
    requires AllDecimal(discovered)
    requires table.Valid()
    modifies table
    ensures table.Valid()
    ensures discovered == [] ==> llmReadyDocuments == [] && summaries == [] && table.State() == old(table.State())
    ensures discovered != [] ==>
      var recent := SelectRecent(discovered, maxDocuments);
      var parsed := ParsedOf(DocumentIdsOf(recent), ParseWith(portal));
      && (parsed == [] ==> llmReadyDocuments == [] && summaries == [] && table.State() == old(table.State()))
      && (parsed != [] ==>
            && llmReadyDocuments == PreparedAll(parsed)
            && summaries == (if summarize then Accepted(Results(llmReadyDocuments, model)) else [])
            && (saveToDb && summaries != [] ==>
                  var rs := Database.SaveResults(SummaryDataAll(summaries), Database.MetadataLookup(recent), storeFails);
                  table.State() == UpsertAll(old(table.State()), SavedUpTo(rs, |rs|)))
            && (!saveToDb || summaries == [] ==> table.State() == old(table.State())))
  {
    if discovered == [] {
      return [], [];
    }
    var allDocuments := SortByIdDesc(discovered);
    var recentDocs := PyPrefix(allDocuments, if Truthy(maxDocuments) then maxDocuments.value else DefaultLimit);
    var documentIds := DocumentIdsOf(recentDocs);

    var parsedDocuments, failed := ParseMultiplePdfs(documentIds, None, portal);
    assert ProcessedIds(documentIds, None) == documentIds;
    if parsedDocuments == [] {
      return [], [];
    }

    llmReadyDocuments := PrepareAllForLlm(parsedDocuments);

    summaries := [];
    if summarize && llmReadyDocuments != [] {
      var failedSummaries, trace;
      summaries, failedSummaries, trace := SummarizeMultipleDocuments(llmReadyDocuments, model);
    }

    if saveToDb && summaries != [] {
      SummaryDataKeyed(summaries);
      var savedCount := Database.SaveMultipleSummaries(SummaryDataAll(summaries), recentDocs, table, storeFails);
    }
  }
}
