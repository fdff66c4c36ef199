/** flask-backend/database.py: save summaries with their meeting title and
    date (no raw text), and read them back. */
module Database {
  import opened Strings
  import opened SummaryStore

  // ---------------------------------------------------------------- dates

  /** A datetime.date. */
  datatype Date = Date(year: int, month: int, day: int)

  predicate IsLeapYear(y: int) {
    y % 4 == 0 && (y % 100 != 0 || y % 400 == 0)
  }

  function DaysInMonth(y: int, m: int): int {
    if m == 2 then (if IsLeapYear(y) then 29 else 28)
    else if m == 4 || m == 6 || m == 9 || m == 11 then 30
    else 31
  }

  predicate ValidDate(d: Date) {
    1 <= d.year <= 9999 && 1 <= d.month <= 12 && 1 <= d.day <= DaysInMonth(d.year, d.month)
  }

  type CalendarDate = d: Date | ValidDate(d) witness Date(1, 1, 1)

  function Pow10(w: nat): nat {
    if w == 0 then 1 else 10 * Pow10(w - 1)
  }

  function DigitChar(n: nat): (c: char)
    requires n < 10
    ensures IsDigit(c) && DigitValue(c) == n
  {
    ('0' as int + n) as char
  }

  /** n written with exactly w decimal digits, zero-padded on the left. */
  function Digits(n: nat, w: nat): (s: string)
    requires n < Pow10(w)
    ensures |s| == w && forall i :: 0 <= i < w ==> IsDigit(s[i])
  {
    if w == 0 then [] else Digits(n / 10, w - 1) + [DigitChar(n % 10)]
  }

  /** Reading the padded digits back gives the number. */
  lemma {:induction false} DigitsRoundTrip(n: nat, w: nat)
    requires n < Pow10(w)
    ensures DecimalValue(Digits(n, w)) == n
  {
    if w > 0 {
      DigitsRoundTrip(n / 10, w - 1);
      var s := Digits(n, w);
      assert s[..w - 1] == Digits(n / 10, w - 1);
    }
  }

  /** strftime('%Y-%m-%d'). */
  function FormatDate(d: CalendarDate): (s: string)
    ensures |s| == 10 && s[4] == '-' && s[7] == '-'
    ensures forall i :: 0 <= i < 10 && i != 4 && i != 7 ==> IsDigit(s[i])
  {
    Digits(d.year, 4) + "-" + Digits(d.month, 2) + "-" + Digits(d.day, 2)
  }

  /** date.fromisoformat for the YYYY-MM-DD form. */
  function ParseIsoDate(s: string): Option<CalendarDate>
  {
    if |s| == 10 && s[4] == '-' && s[7] == '-'
       && (forall i :: 0 <= i < 10 && i != 4 && i != 7 ==> IsDigit(s[i]))
    then
      var d := Date(DecimalValue(s[..4]), DecimalValue(s[5..7]), DecimalValue(s[8..]));
      if ValidDate(d) then Some(d) else None
    else None
  }

  /** The stored meeting_date reads back as the date it was made from. */
  lemma FormatDateRoundTrip(d: CalendarDate)
    ensures ParseIsoDate(FormatDate(d)) == Some(d)
  {
    var s := FormatDate(d);
    var y := Digits(d.year, 4);
    var m := Digits(d.month, 2);
    var dd := Digits(d.day, 2);
    assert s == y + "-" + m + "-" + dd;
    assert s[..4] == y;
    assert s[5..7] == m;
    assert s[8..] == dd;
    DigitsRoundTrip(d.year, 4);
    DigitsRoundTrip(d.month, 2);
    DigitsRoundTrip(d.day, 2);
  }

  // ---------------------------------------------------------------- records

  /** The document_metadata dictionary: meeting_title (None when the key is
      absent) and meeting_date (None when absent or None). */
  datatype MeetingInfo = MeetingInfo(meetingTitle: Option<Value>, meetingDate: Option<CalendarDate>)

  /** One discovered document: its id and its metadata dictionary. */
  datatype MeetingRecord = MeetingRecord(documentId: string, info: MeetingInfo)

  const UnknownMeeting := "Unknown Meeting"

  /** summary_data.get('filename', 'Unknown Meeting') */
  function FilenameOr(data: SummaryData): Value {
    if data.filename.Some? then data.filename.value else Text(UnknownMeeting)
  }

  /** The record saveSummaryToDatabase sends; None when summary_data lacks
      document_id or summary (the KeyError is caught). The metadata argument is
      None for None and for an empty dictionary, which are both falsy. */
  function RecordFor(data: SummaryData, metadata: Option<MeetingInfo>): (r: Option<Row>)
    ensures r.None? <==> data.documentId.None? || data.summary.None?
    ensures r.Some? ==>
      var id := data.documentId.value;
      && Keyed(r.value) && r.value["document_id"] == Text(id)
      && "summary" in r.value && r.value["summary"] == data.summary.value
      && "original_url" in r.value && r.value["original_url"] == Text(OriginalUrl(id))
      && "meeting_title" in r.value
      && r.value["meeting_title"] ==
           (if metadata.Some? && metadata.value.meetingTitle.Some? then metadata.value.meetingTitle.value
            else FilenameOr(data))
      && ("meeting_date" in r.value <==> metadata.Some? && metadata.value.meetingDate.Some?)
      && ("meeting_date" in r.value ==> r.value["meeting_date"] == Text(FormatDate(metadata.value.meetingDate.value)))
      && r.value.Keys <= {"document_id", "summary", "original_url", "meeting_title", "meeting_date"}
  {
    if data.documentId.None? || data.summary.None? then None
    else
      var id := data.documentId.value;
      var base := map["document_id" := Text(id), "summary" := data.summary.value, "original_url" := Text(OriginalUrl(id))];
      match metadata
      case None => Some(base["meeting_title" := FilenameOr(data)])
      case Some(m) =>
        var titled := base["meeting_title" := if m.meetingTitle.Some? then m.meetingTitle.value else FilenameOr(data)];
        if m.meetingDate.Some? then Some(titled["meeting_date" := Text(FormatDate(m.meetingDate.value))])
        else Some(titled)
  }

  /** The stored date text and URL give back the meeting date and the id. */
  lemma RecordReadsBack(data: SummaryData, metadata: Option<MeetingInfo>)
    requires RecordFor(data, metadata).Some?
    ensures var r := RecordFor(data, metadata).value;
      && r["original_url"].text[|FileStreamUrl|..] == data.documentId.value
      && ("meeting_date" in r ==> ParseIsoDate(r["meeting_date"].text) == metadata.value.meetingDate)
  {
    if metadata.Some? && metadata.value.meetingDate.Some? {
      FormatDateRoundTrip(metadata.value.meetingDate.value);
    }
  }

  /** saveSummaryToDatabase: build the record key by key and upsert it; the
      record on success, None when a key is missing or the store fails. */
  method SaveSummaryToDatabase(data: SummaryData, metadata: Option<MeetingInfo>, table: SummaryTable, fails: bool)
    returns (result: Option<Row>)
    requires table.Valid()
    modifies table
    ensures table.Valid()
    ensures result == if fails then None else RecordFor(data, metadata)
    ensures table.State() == if result.Some? then Upserted(old(table.State()), result.value) else old(table.State())
  {
    if data.documentId.None? || data.summary.None? {
      return None;
    }
    var id := data.documentId.value;
    var dbRecord: Row := map[];
    dbRecord := dbRecord["document_id" := Text(id)];
    dbRecord := dbRecord["summary" := data.summary.value];
    dbRecord := dbRecord["original_url" := Text(FileStreamUrl + id)];
    if metadata.Some? {
      var m := metadata.value;
      dbRecord := dbRecord["meeting_title" := if m.meetingTitle.Some? then m.meetingTitle.value else FilenameOr(data)];
      if m.meetingDate.Some? {
        dbRecord := dbRecord["meeting_date" := Text(FormatDate(m.meetingDate.value))];
      }
    } else {
      dbRecord := dbRecord["meeting_title" := FilenameOr(data)];
    }
    assert dbRecord == RecordFor(data, metadata).value;
    var ok := table.Upsert(dbRecord, fails);
    if ok {
      result := Some(dbRecord);
    } else {
      result := None;
    }
  }

  /** The metadata lookup of saveMultipleSummaries. */
  function MetadataLookup(ms: seq<MeetingRecord>): (m: map<string, MeetingInfo>)
    ensures forall k :: 0 <= k < |ms| ==> ms[k].documentId in m
  {
    var entries := seq(|ms|, k requires 0 <= k < |ms| => (ms[k].documentId, ms[k].info));
    assert forall k :: 0 <= k < |ms| ==> entries[k].0 == ms[k].documentId;
    LastById(entries)
  }

  /** For a duplicated id the later metadata entry is the one used. */
  lemma MetadataLaterEntryWins(ms: seq<MeetingRecord>, j: nat)
    requires j < |ms|
    requires forall k :: j < k < |ms| ==> ms[k].documentId != ms[j].documentId
    ensures MetadataLookup(ms)[ms[j].documentId] == ms[j].info
  {
    var entries := seq(|ms|, k requires 0 <= k < |ms| => (ms[k].documentId, ms[k].info));
    LaterEntryWins(entries, j);
  }

  /** What saving one summary of the batch returns: None when the call fails. */
  function SaveOne(summary: SummaryData, lookup: map<string, MeetingInfo>, failed: bool): (r: Option<Row>)
    requires summary.documentId.Some?
    ensures r.Some? ==> Keyed(r.value) && r.value["document_id"] == Text(summary.documentId.value)
    ensures r.Some? <==> !failed && summary.summary.Some?
  {
    var id := summary.documentId.value;
    if failed then None else RecordFor(summary, if id in lookup then Some(lookup[id]) else None)
  }

  /** What each save of the batch returns, in order; call k fails when fails(k). */
  function SaveResults(summaries: seq<SummaryData>, lookup: map<string, MeetingInfo>, fails: nat -> bool): (rs: seq<Option<Row>>)
    requires forall k :: 0 <= k < |summaries| ==> summaries[k].documentId.Some?
    ensures |rs| == |summaries|
    ensures AllKeyed(rs)
    decreases |summaries|
  {
    if summaries == [] then []
    else
      var n := |summaries|;
      SaveResults(summaries[..n - 1], lookup, fails) + [SaveOne(summaries[n - 1], lookup, fails(n - 1))]
  }

  /** Result k is what saving summary k returns. */
  lemma {:induction false} SaveResultsAt(summaries: seq<SummaryData>, lookup: map<string, MeetingInfo>, fails: nat -> bool, k: nat)
    requires forall k :: 0 <= k < |summaries| ==> summaries[k].documentId.Some?
    requires k < |summaries|
    ensures SaveResults(summaries, lookup, fails)[k] == SaveOne(summaries[k], lookup, fails(k))
    decreases |summaries|
  {
    var n := |summaries|;
    if k < n - 1 {
      SaveResultsAt(summaries[..n - 1], lookup, fails, k);
    }
  }

  /** One pass of saveMultipleSummaries' loop: look the id up, save summary
      i, and report whether the save returned a record. */
  method SaveNext(summaries: seq<SummaryData>, lookup: map<string, MeetingInfo>, fails: nat -> bool,
                  i: nat, table: SummaryTable)
    returns (saved: bool)
    requires forall k :: 0 <= k < |summaries| ==> summaries[k].documentId.Some?
    requires i < |summaries| && table.Valid()
    modifies table
    ensures table.Valid()
    ensures var r := SaveResults(summaries, lookup, fails)[i];
      saved == r.Some? && table.State() == if r.Some? then Upserted(old(table.State()), r.value) else old(table.State())
  {
    var summary := summaries[i];
    var docId := summary.documentId.value;
    var metadata := if docId in lookup then Some(lookup[docId]) else None;
    var result := SaveSummaryToDatabase(summary, metadata, table, fails(i));
    SaveResultsAt(summaries, lookup, fails, i);
    saved := result.Some?;
  }

  /** saveMultipleSummaries: save each summary with its metadata, count the
      successes, and go on after a failure. */
  method SaveMultipleSummaries(summaries: seq<SummaryData>, documentsMetadata: seq<MeetingRecord>,
                               table: SummaryTable, fails: nat -> bool)
    returns (successCount: nat)
    requires forall k :: 0 <= k < |summaries| ==> summaries[k].documentId.Some?
    requires table.Valid()
    modifies table
    ensures table.Valid()
    ensures var rs := SaveResults(summaries, MetadataLookup(documentsMetadata), fails);
      var recs := SavedUpTo(rs, |rs|);
      successCount == |recs| <= |summaries| && table.State() == UpsertAll(old(table.State()), recs)
  {
    successCount := 0;
    var metadataLookup: map<string, MeetingInfo> := map[];
    if |documentsMetadata| > 0 {
      metadataLookup := MetadataLookup(documentsMetadata);
    }
    assert metadataLookup == MetadataLookup(documentsMetadata);
    ghost var results := SaveResults(summaries, metadataLookup, fails);
    ghost var start := table.State();
    var i := 0;
    while i < |summaries|
      invariant 0 <= i <= |summaries|
      invariant table.Valid()
      invariant successCount == SuccessCount(results, i)
      invariant table.State() == StateAfter(start, results, i)
    {
      var saved := SaveNext(summaries, metadataLookup, fails, i, table);
      if saved {
        successCount := successCount + 1;
      }
      i := i + 1;
    }
    StateAfterIsUpsertAll(start, results, i);
    SuccessCountIsSaved(results, i);
  }

  // ---------------------------------------------------------------- reads

  /** getAllSummaries: newest first, at most limit rows when limit is truthy;
      [] when the query fails. A negative limit is refused by the service and
      so also gives []. */
  function GetAllSummaries(table: SummaryTable, limit: Option<int>, fails: bool): (rs: seq<Row>)
    reads table
    requires table.Valid()
    ensures fails ==> rs == []
    ensures !fails && limit.Some? && limit.value > 0 ==>
      |rs| == Min(limit.value, |table.created|) && rs == NewestFirst(table.State())[..|rs|]
    ensures !fails && !Truthy(limit) ==> rs == NewestFirst(table.State())
  {
    if fails then []
    else
      var all := NewestFirst(table.State());
      if Truthy(limit) then (if limit.value < 0 then [] else PyPrefix(all, limit.value)) else all
  }

  /** getSummaryByDocumentId: the first row with that document_id, or None;
      None when the query fails. */
  function GetSummaryByDocumentId(table: SummaryTable, documentId: string, fails: bool): (r: Option<Row>)
    reads table
    ensures fails ==> r.None?
    ensures !fails ==> (r.Some? <==> Selected(table.State(), Text(documentId)) != [])
    ensures r.Some? ==> r.value == Selected(table.State(), Text(documentId))[0]
  {
    if fails then None
    else
      var found := Selected(table.State(), Text(documentId));
      if found != [] then Some(found[0]) else None
  }

  /** In the table the lookup finds the row stored under the id. */
  lemma GetSummaryFindsStoredRow(table: SummaryTable, documentId: string, fails: bool)
    requires table.Valid()
    ensures GetSummaryByDocumentId(table, documentId, fails) ==
      if fails || documentId !in table.rows then None else Some(table.rows[documentId])
  {
    SelectedOfIndexed(table.State(), documentId);
  }
}
