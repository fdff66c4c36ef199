/** The summarisation stage: one Gemini call per prepared document. The model
    call is an oracle; the model only shapes the result record from what the
    call returns and sorts the records into summaries and failures. */
module Summarizer {
  import opened Strings
  import opened Parser

  /** What generate_content yields for one prompt: a response, whose text is
      None when the model gives no text, or an exception with its message. */
  datatype ModelReply = Reply(text: Option<string>) | Raised(message: string)

  /** compression_ratio: 0 for an empty summary, otherwise the rounded quotient
      of the two lengths, kept here as the lengths it is computed from. */
  datatype Ratio = ZeroRatio | Quotient(originalLength: nat, summaryLength: nat)

  /** The dictionary summarizeDocument returns: with a summary, or with
      summary None and the error message. */
  datatype SummaryResult =
    | Summarized(documentId: string, filename: string, summary: string,
                 originalLength: nat, summaryLength: nat, compressionRatio: Ratio)
    | SummaryFailed(documentId: string, filename: string, error: string)

  /** str() of the AttributeError raised by calling strip() on a missing text. */
  const NoTextError := "'NoneType' object has no attribute 'strip'"

  /** summarizeDocument, given what the model call returned. */
  function SummarizeDocument(documentText: string, filename: string, documentId: string, reply: ModelReply): (r: SummaryResult)
    ensures r.documentId == documentId && r.filename == filename
    ensures r.Summarized? <==> reply.Reply? && reply.text.Some?
    ensures r.Summarized? ==>
      && Trimmed(r.summary)
      && (exists i :: OccursAt(reply.text.value, i, r.summary))
      && r.summaryLength == |r.summary|
      && r.originalLength == |documentText|
      && (r.compressionRatio.ZeroRatio? <==> r.summary == [])
      && (r.compressionRatio.Quotient? ==> r.compressionRatio == Quotient(|documentText|, |r.summary|))
    ensures reply.Raised? ==> r.error == reply.message
    ensures reply.Reply? && reply.text.None? ==> r.error == NoTextError
  {
    match reply
    case Raised(message) => SummaryFailed(documentId, filename, message)
    case Reply(None) => SummaryFailed(documentId, filename, NoTextError)
    case Reply(Some(text)) =>
      StripDropsOnlySpace(text);
      var summary := Strip(text);
      var ratio := if |summary| > 0 then Quotient(|documentText|, |summary|) else ZeroRatio;
      Summarized(documentId, filename, summary, |documentText|, |summary|, ratio)
  }

  /** The summary is the reply without surrounding whitespace: a reply that
      already is a summary comes back unchanged. */
  lemma {:induction false} SummaryIsStrippedReply(documentText: string, filename: string, documentId: string, text: string)
    ensures var r := SummarizeDocument(documentText, filename, documentId, Reply(Some(text)));
      r.Summarized? && r.summary == Strip(text)
      && SummarizeDocument(documentText, filename, documentId, Reply(Some(r.summary))).summary == r.summary
  {
    StripOfTrimmed(Strip(text));
  }

  /** result.get('summary') is truthy: a summary that is not empty. */
  predicate HasSummary(r: SummaryResult) {
    r.Summarized? && r.summary != []
  }

  /** The model, called with the 1-based position of the document in the batch. */
  type Model = (nat, LlmDocument) -> ModelReply

  /** The result of summarizing document k of the batch: call number k + 1. */
  function ResultOf(docs: seq<LlmDocument>, model: Model, k: nat): SummaryResult
    requires k < |docs|
  {
    SummarizeDocument(docs[k].text, docs[k].filename, docs[k].documentId, model(k + 1, docs[k]))
  }

  /** The results of the first i documents, in input order. */
  function ResultsUpTo(docs: seq<LlmDocument>, model: Model, i: nat): (rs: seq<SummaryResult>)
    requires i <= |docs|
    ensures |rs| == i
  {
    if i == 0 then [] else ResultsUpTo(docs, model, i - 1) + [ResultOf(docs, model, i - 1)]
  }

  /** The result for every document, in input order. */
  function Results(docs: seq<LlmDocument>, model: Model): (rs: seq<SummaryResult>)
    ensures |rs| == |docs|
  {
    ResultsUpTo(docs, model, |docs|)
  }

  lemma {:induction false} ResultsUpToAt(docs: seq<LlmDocument>, model: Model, i: nat, k: nat)
    requires k < i <= |docs|
    ensures ResultsUpTo(docs, model, i)[k] == ResultOf(docs, model, k)
    decreases i
  {
    assert ResultsUpTo(docs, model, i) == ResultsUpTo(docs, model, i - 1) + [ResultOf(docs, model, i - 1)];
    if k < i - 1 {
      ResultsUpToAt(docs, model, i - 1, k);
    }
  }

  /** Result k is the summary of document k, made from reply k + 1 of the model. */
  lemma ResultsAt(docs: seq<LlmDocument>, model: Model, k: nat)
    requires k < |docs|
    ensures Results(docs, model)[k]
      == SummarizeDocument(docs[k].text, docs[k].filename, docs[k].documentId, model(k + 1, docs[k]))
  {
    ResultsUpToAt(docs, model, |docs|, k);
  }

  /** The results that go to summaries, in order. */
  function Accepted(rs: seq<SummaryResult>): (a: seq<SummaryResult>)
    ensures |a| <= |rs|
    ensures forall k :: 0 <= k < |a| ==> HasSummary(a[k])
    decreases |rs|
  {
    if rs == [] then []
    else Accepted(rs[..|rs| - 1]) + (if HasSummary(rs[|rs| - 1]) then [rs[|rs| - 1]] else [])
  }

  /** The results that go to failed, in order. */
  function Rejected(rs: seq<SummaryResult>): (f: seq<SummaryResult>)
    ensures |f| <= |rs|
    ensures forall k :: 0 <= k < |f| ==> !HasSummary(f[k])
    decreases |rs|
  {
    if rs == [] then []
    else Rejected(rs[..|rs| - 1]) + (if HasSummary(rs[|rs| - 1]) then [] else [rs[|rs| - 1]])
  }

  /** One more result extends exactly one of the two lists. */
  lemma AcceptedRejectedSnoc(rs: seq<SummaryResult>, x: SummaryResult)
    ensures Accepted(rs + [x]) == Accepted(rs) + (if HasSummary(x) then [x] else [])
    ensures Rejected(rs + [x]) == Rejected(rs) + (if HasSummary(x) then [] else [x])
  {
    assert (rs + [x])[..|rs|] == rs;
  }

  lemma PartitionStep(init: seq<SummaryResult>, x: SummaryResult, a: seq<SummaryResult>, f: seq<SummaryResult>)
    requires |a| + |f| == |init| && multiset(a) + multiset(f) == multiset(init)
    ensures var a' := a + (if HasSummary(x) then [x] else []);
      var f' := f + (if HasSummary(x) then [] else [x]);
      |a'| + |f'| == |init + [x]| && multiset(a') + multiset(f') == multiset(init + [x])
  {
    if HasSummary(x) {
      assert f + [] == f;
    } else {
      assert a + [] == a;
    }
  }

  /** Every result lands in exactly one of the two lists. */
  lemma {:induction false} AcceptedRejectedPartition(rs: seq<SummaryResult>)
    ensures |Accepted(rs)| + |Rejected(rs)| == |rs|
    ensures multiset(Accepted(rs)) + multiset(Rejected(rs)) == multiset(rs)
    decreases |rs|
  {
    if rs != [] {
      var init := rs[..|rs| - 1];
      var x := rs[|rs| - 1];
      assert rs == init + [x];
      AcceptedRejectedPartition(init);
      AcceptedRejectedSnoc(init, x);
      PartitionStep(init, x, Accepted(init), Rejected(init));
    }
  }

  /** Both lists keep the input order: splitting the input splits each list. */
  lemma {:induction false} AcceptedRejectedKeepOrder(a: seq<SummaryResult>, b: seq<SummaryResult>)
    ensures Accepted(a + b) == Accepted(a) + Accepted(b)
    ensures Rejected(a + b) == Rejected(a) + Rejected(b)
    decreases |b|
  {
    if b == [] {
      assert a + b == a;
    } else {
      var init := b[..|b| - 1];
      var x := b[|b| - 1];
      assert b == init + [x];
      assert a + b == (a + init) + [x];
      AcceptedRejectedKeepOrder(a, init);
      AcceptedRejectedSnoc(a + init, x);
      AcceptedRejectedSnoc(init, x);
      var ax := if HasSummary(x) then [x] else [];
      var rx := if HasSummary(x) then [] else [x];
      assert Accepted(a) + Accepted(init) + ax == Accepted(a) + (Accepted(init) + ax);
      assert Rejected(a) + Rejected(init) + rx == Rejected(a) + (Rejected(init) + rx);
    }
  }

  /** One more document extends exactly one of the two lists by its result. */
  lemma BatchStep(docs: seq<LlmDocument>, model: Model, i: nat)
    requires i < |docs|
    ensures var r := ResultOf(docs, model, i);
      var rs := ResultsUpTo(docs, model, i);
      && Accepted(ResultsUpTo(docs, model, i + 1)) == Accepted(rs) + (if HasSummary(r) then [r] else [])
      && Rejected(ResultsUpTo(docs, model, i + 1)) == Rejected(rs) + (if HasSummary(r) then [] else [r])
  {
    assert ResultsUpTo(docs, model, i + 1) == ResultsUpTo(docs, model, i) + [ResultOf(docs, model, i)];
    AcceptedRejectedSnoc(ResultsUpTo(docs, model, i), ResultOf(docs, model, i));
  }

  /** The summaries and the failures among the first i documents, gathered one document at a time. */
  function AcceptedUpTo(docs: seq<LlmDocument>, model: Model, i: nat): seq<SummaryResult>
    requires i <= |docs|
  {
    if i == 0 then []
    else
      var r := ResultOf(docs, model, i - 1);
      AcceptedUpTo(docs, model, i - 1) + (if HasSummary(r) then [r] else [])
  }

  function RejectedUpTo(docs: seq<LlmDocument>, model: Model, i: nat): seq<SummaryResult>
    requires i <= |docs|
  {
    if i == 0 then []
    else
      var r := ResultOf(docs, model, i - 1);
      RejectedUpTo(docs, model, i - 1) + (if HasSummary(r) then [] else [r])
  }

  lemma UpToStep(docs: seq<LlmDocument>, model: Model, i: nat)
    requires i < |docs|
    ensures var r := ResultOf(docs, model, i);
      && AcceptedUpTo(docs, model, i + 1) == AcceptedUpTo(docs, model, i) + (if HasSummary(r) then [r] else [])
      && RejectedUpTo(docs, model, i + 1) == RejectedUpTo(docs, model, i) + (if HasSummary(r) then [] else [r])
  {
  }

  /** Gathering one document at a time sorts the results of the batch. */
  lemma {:induction false} UpToIsSorted(docs: seq<LlmDocument>, model: Model, i: nat)
    requires i <= |docs|
    ensures AcceptedUpTo(docs, model, i) == Accepted(ResultsUpTo(docs, model, i))
    ensures RejectedUpTo(docs, model, i) == Rejected(ResultsUpTo(docs, model, i))
  {
    if i > 0 {
      UpToIsSorted(docs, model, i - 1);
      BatchStep(docs, model, i - 1);
    }
  }

  /** A reply made only of whitespace strips to "" and so lands in failed. */
  lemma BlankReplyFails(doc: LlmDocument, text: string)
    requires forall i :: 0 <= i < |text| ==> IsSpace(text[i])
    ensures !HasSummary(SummarizeDocument(doc.text, doc.filename, doc.documentId, Reply(Some(text))))
  {
  }

  /** One step of the batch loop: a model call, then a pause unless it was the last. */
  datatype Event = Call(index: nat) | Pause

  /** The events of the first k iterations of a batch of n documents. */
  function Steps(k: nat, n: nat): seq<Event>
  {
    if k == 0 then []
    else
      var called := Steps(k - 1, n) + [Call(k)];
      if k < n then called + [Pause] else called
  }

  /** How many pauses a trace holds. */
  function Pauses(t: seq<Event>): nat
  {
    multiset(t)[Pause]
  }

  /** The delay runs between calls: n - 1 times for n documents, never after
      the last call, and not at all for an empty batch. */
  lemma {:induction false} DelayBetweenCalls(k: nat, n: nat)
    requires k <= n
    ensures Pauses(Steps(k, n)) == if k < n then k else Max(0, k - 1)
  {
    if k > 0 {
      DelayBetweenCalls(k - 1, n);
      var prev := Steps(k - 1, n);
      var called := prev + [Call(k)];
      assert multiset{Call(k)}[Pause] == 0;
      assert multiset(called) == multiset(prev) + multiset{Call(k)};
      assert Pauses(called) == k - 1;
      if k < n {
        assert multiset(called + [Pause]) == multiset(called) + multiset{Pause};
        assert Pauses(called + [Pause]) == k;
      }
    }
  }

  /** The batch ends with the last call, not with a pause. */
  lemma EndsWithCall(n: nat)
    requires n > 0
    ensures Steps(n, n)[|Steps(n, n)| - 1] == Call(n)
  {
  }

  lemma StepsStep(k: nat, n: nat)
    ensures Steps(k + 1, n) == Steps(k, n) + [Call(k + 1)] + (if k + 1 < n then [Pause] else [])
  {
  }

  /** summarizeMultipleDocuments: summarize each document in order, sort the
      results into summaries and failed, and pause between calls. */
  method SummarizeMultipleDocuments(documents: seq<LlmDocument>, model: Model)
    returns (summaries: seq<SummaryResult>, failed: seq<SummaryResult>, trace: seq<Event>)
    ensures summaries == Accepted(Results(documents, model))
    ensures failed == Rejected(Results(documents, model))
    ensures trace == Steps(|documents|, |documents|)
  {
    summaries := [];
    failed := [];
    trace := [];
    var n := |documents|;
    var idx := 0;
    while idx < n
      invariant 0 <= idx <= n
      invariant summaries == AcceptedUpTo(documents, model, idx)
      invariant failed == RejectedUpTo(documents, model, idx)
      invariant trace == Steps(idx, n)
    {
      var doc := documents[idx];
      var result := SummarizeDocument(doc.text, doc.filename, doc.documentId, model(idx + 1, doc));
      assert result == ResultOf(documents, model, idx);
      UpToStep(documents, model, idx);
      if HasSummary(result) {
        summaries := summaries + [result];
      } else {
        failed := failed + [result];
      }
      StepsStep(idx, n);
      trace := trace + [Call(idx + 1)];
      if idx + 1 < n {
        trace := trace + [Pause];
      }
      idx := idx + 1;
    }
    UpToIsSorted(documents, model, n);
  }
}
