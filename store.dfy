/** The Supabase table meeting_summaries as the persistence code sees it: rows
    keyed by document_id, written with an upsert on that column and read with
    equality filters and a newest-first listing. */
module SummaryStore {
  import opened Strings

  /** A column value: a string or SQL NULL (Python None). */
  datatype Value = Null | Text(text: string)

  /** A record as sent to or read from the table: column name to value. */
  type Row = map<string, Value>

  /** The fields of a summary dictionary that the save functions read; None
      stands for a key the dictionary lacks (reading it raises KeyError). */
  datatype SummaryData = SummaryData(documentId: Option<string>, filename: Option<Value>, summary: Option<Value>)

  const FileStreamUrl := "https://pub-london.escribemeetings.com/FileStream.ashx?DocumentId="

  /** original_url of a document: the FileStream address with the id appended. */
  function OriginalUrl(documentId: string): (url: string)
    ensures FileStreamUrl <= url && url[|FileStreamUrl|..] == documentId
  {
    FileStreamUrl + documentId
  }

  /** Two documents never share an original_url. */
  lemma OriginalUrlInjective(a: string, b: string)
    ensures OriginalUrl(a) == OriginalUrl(b) ==> a == b
  {
    if OriginalUrl(a) == OriginalUrl(b) {
      assert a == OriginalUrl(a)[|FileStreamUrl|..];
    }
  }

  /** ON CONFLICT (document_id) DO UPDATE: the sent columns overwrite, the
      others keep their stored values; without a stored row the record is inserted. */
  function Merge(existing: Option<Row>, rec: Row): (r: Row)
    ensures r.Keys == rec.Keys + (if existing.Some? then existing.value.Keys else {})
    ensures forall c :: c in rec ==> r[c] == rec[c]
    ensures existing.Some? ==> forall c :: c in existing.value && c !in rec ==> r[c] == existing.value[c]
  {
    if existing.None? then rec else existing.value + rec
  }

  predicate Distinct(s: seq<string>) {
    forall i, j :: 0 <= i < j < |s| ==> s[i] != s[j]
  }

  /** The table's contents: its rows by document_id, and the ids in the order
      their rows were created (what created_at orders). */
  datatype Snapshot = Snapshot(rows: map<string, Row>, created: seq<string>)

  /** Every stored id is listed once in creation order, and every row holds its own id. */
  ghost predicate Indexed(t: Snapshot) {
    && (forall id :: id in t.rows <==> id in t.created)
    && Distinct(t.created)
    && (forall id :: id in t.rows ==> "document_id" in t.rows[id] && t.rows[id]["document_id"] == Text(id))
  }

  /** The record's own document_id, which the upsert resolves conflicts on. */
  predicate Keyed(rec: Row) {
    "document_id" in rec && rec["document_id"].Text?
  }

  function Upserted(t: Snapshot, rec: Row): (u: Snapshot)
    requires Keyed(rec)
  {
    var id := rec["document_id"].text;
    var existing := if id in t.rows then Some(t.rows[id]) else None;
    Snapshot(t.rows[id := Merge(existing, rec)], if id in t.rows then t.created else t.created + [id])
  }

  /** The upsert keeps the table indexed: never two rows for one id. */
  lemma UpsertKeepsIndexed(t: Snapshot, rec: Row)
    requires Indexed(t) && Keyed(rec)
    ensures Indexed(Upserted(t, rec))
  {
    var id := rec["document_id"].text;
    var u := Upserted(t, rec);
    if id !in t.rows {
      assert id !in t.created;
      forall i, j | 0 <= i < j < |u.created| ensures u.created[i] != u.created[j] {
        if j == |t.created| {
          assert u.created[i] == t.created[i];
          assert t.created[i] in t.created;
        }
      }
    }
  }

  /** Saving the same record twice leaves the table as after one save. */
  lemma UpsertIdempotent(t: Snapshot, rec: Row)
    requires Keyed(rec)
    ensures Upserted(Upserted(t, rec), rec) == Upserted(t, rec)
  {
    var id := rec["document_id"].text;
    var u := Upserted(t, rec);
    var once := u.rows[id];
    assert Merge(Some(once), rec) == once;
  }

  /** The upsert touches the row of its own id only, and that row then holds the sent columns. */
  lemma UpsertTouchesOneRow(t: Snapshot, rec: Row, other: string)
    requires Keyed(rec)
    ensures var u := Upserted(t, rec);
      var id := rec["document_id"].text;
      && id in u.rows
      && (forall c :: c in rec ==> c in u.rows[id] && u.rows[id][c] == rec[c])
      && (other != id ==> (other in u.rows <==> other in t.rows))
      && (other != id && other in t.rows ==> u.rows[other] == t.rows[other])
      && t.created <= u.created
  {
  }

  /** Rows whose document_id column equals v, in creation order:
      `.eq('document_id', v)`. */
  function Selected(t: Snapshot, v: Value): (rs: seq<Row>)
    ensures |rs| <= |t.created|
    decreases |t.created|
  {
    if t.created == [] then []
    else
      var n := |t.created|;
      var id := t.created[n - 1];
      var init := Selected(Snapshot(t.rows, t.created[..n - 1]), v);
      if id in t.rows && "document_id" in t.rows[id] && t.rows[id]["document_id"] == v
      then init + [t.rows[id]] else init
  }

  /** In an indexed table the filter on an id finds exactly the row stored under it. */
  lemma SelectedOfIndexed(t: Snapshot, id: string)
    requires Indexed(t)
    ensures Selected(t, Text(id)) == if id in t.rows then [t.rows[id]] else []
  {
    SelectedOfListed(t.rows, t.created, id);
  }

  lemma {:induction false} SelectedOfListed(rows: map<string, Row>, created: seq<string>, id: string)
    requires Distinct(created)
    requires forall k :: k in created ==> k in rows && "document_id" in rows[k] && rows[k]["document_id"] == Text(k)
    ensures Selected(Snapshot(rows, created), Text(id)) == if id in created then [rows[id]] else []
    decreases |created|
  {
    if created != [] {
      var n := |created|;
      var init := created[..n - 1];
      var last := created[n - 1];
      assert created == init + [last];
      assert Distinct(init);
      SelectedOfListed(rows, init, id);
      forall i | 0 <= i < |init| ensures init[i] != last {
        assert init[i] == created[i];
      }
      assert rows[last]["document_id"] == Text(id) <==> last == id;
    }
  }

  /** `.order('created_at', desc=True)`: every row, the newest first. */
  function NewestFirst(t: Snapshot): (rs: seq<Row>)
    requires forall k :: 0 <= k < |t.created| ==> t.created[k] in t.rows
    ensures |rs| == |t.created|
    ensures forall k :: 0 <= k < |rs| ==> rs[k] == t.rows[t.created[|t.created| - 1 - k]]
    decreases |t.created|
  {
    if t.created == [] then []
    else
      var n := |t.created|;
      [t.rows[t.created[n - 1]]] + NewestFirst(Snapshot(t.rows, t.created[..n - 1]))
  }

  /** `{doc['document_id']: doc for doc in docs}`: a later entry for an id
      replaces an earlier one. */
  function LastById<T>(entries: seq<(string, T)>): (m: map<string, T>)
    ensures forall k :: 0 <= k < |entries| ==> entries[k].0 in m
    decreases |entries|
  {
    if entries == [] then map[]
    else
      var n := |entries|;
      LastById(entries[..n - 1])[entries[n - 1].0 := entries[n - 1].1]
  }

  /** The lookup holds exactly the listed ids, each with its last entry. */
  lemma {:induction false} LaterEntryWins<T>(entries: seq<(string, T)>, j: nat)
    requires j < |entries|
    requires forall k :: j < k < |entries| ==> entries[k].0 != entries[j].0
    ensures LastById(entries)[entries[j].0] == entries[j].1
    decreases |entries|
  {
    var n := |entries|;
    if j < n - 1 {
      LaterEntryWins(entries[..n - 1], j);
    }
  }

  lemma {:induction false} LastByIdKeys<T>(entries: seq<(string, T)>, id: string)
    ensures id in LastById(entries) <==> exists k :: 0 <= k < |entries| && entries[k].0 == id
    decreases |entries|
  {
    if entries != [] {
      var n := |entries|;
      LastByIdKeys(entries[..n - 1], id);
      if id in LastById(entries[..n - 1]) {
        var k :| 0 <= k < n - 1 && entries[..n - 1][k].0 == id;
        assert entries[k].0 == id;
      }
    }
  }

  /** Upserts of several records, one after the other. */
  function UpsertAll(t: Snapshot, recs: seq<Row>): (u: Snapshot)
    requires forall k :: 0 <= k < |recs| ==> Keyed(recs[k])
    decreases |recs|
  {
    if recs == [] then t
    else
      var n := |recs|;
      Upserted(UpsertAll(t, recs[..n - 1]), recs[n - 1])
  }

  lemma UpsertAllSnoc(t: Snapshot, recs: seq<Row>, rec: Row)
    requires forall k :: 0 <= k < |recs| ==> Keyed(recs[k])
    requires Keyed(rec)
    ensures UpsertAll(t, recs + [rec]) == Upserted(UpsertAll(t, recs), rec)
  {
    assert (recs + [rec])[..|recs|] == recs;
  }

  /** A batch of upserts keeps the table indexed, and every saved id has a row. */
  lemma {:induction false} UpsertAllKeepsIndexed(t: Snapshot, recs: seq<Row>)
    requires Indexed(t)
    requires forall k :: 0 <= k < |recs| ==> Keyed(recs[k])
    ensures Indexed(UpsertAll(t, recs))
    ensures forall k :: 0 <= k < |recs| ==> recs[k]["document_id"].text in UpsertAll(t, recs).rows
    decreases |recs|
  {
    if recs != [] {
      var n := |recs|;
      var init := recs[..n - 1];
      UpsertAllKeepsIndexed(t, init);
      UpsertKeepsIndexed(UpsertAll(t, init), recs[n - 1]);
      forall k | 0 <= k < n ensures recs[k]["document_id"].text in UpsertAll(t, recs).rows {
        if k < n - 1 {
          assert recs[k] == init[k];
          UpsertTouchesOneRow(UpsertAll(t, init), recs[n - 1], recs[k]["document_id"].text);
        }
      }
    }
  }

  /** Every record among the results carries its document_id. */
  predicate AllKeyed(rs: seq<Option<Row>>) {
    forall k :: 0 <= k < |rs| && rs[k].Some? ==> Keyed(rs[k].value)
  }

  /** The records among the first i results that were saved, in order. */
  function SavedUpTo(rs: seq<Option<Row>>, i: nat): (recs: seq<Row>)
    requires i <= |rs|
    ensures |recs| <= i
    ensures AllKeyed(rs) ==> forall k :: 0 <= k < |recs| ==> Keyed(recs[k])
  {
    if i == 0 then []
    else SavedUpTo(rs, i - 1) + (if rs[i - 1].Some? then [rs[i - 1].value] else [])
  }

  /** One more result: a success adds its record to the saved ones and to the
      batch of upserts, a failure adds nothing. */
  lemma SavedStep(t: Snapshot, rs: seq<Option<Row>>, i: nat)
    requires i < |rs| && AllKeyed(rs)
    ensures |SavedUpTo(rs, i + 1)| == |SavedUpTo(rs, i)| + (if rs[i].Some? then 1 else 0)
    ensures UpsertAll(t, SavedUpTo(rs, i + 1)) ==
      if rs[i].Some? then Upserted(UpsertAll(t, SavedUpTo(rs, i)), rs[i].value) else UpsertAll(t, SavedUpTo(rs, i))
  {
    if rs[i].Some? {
      assert SavedUpTo(rs, i + 1) == SavedUpTo(rs, i) + [rs[i].value];
      UpsertAllSnoc(t, SavedUpTo(rs, i), rs[i].value);
    } else {
      assert SavedUpTo(rs, i + 1) == SavedUpTo(rs, i);
    }
  }

  /** The table after the first i results of a batch have been applied. */
  function StateAfter(t: Snapshot, rs: seq<Option<Row>>, i: nat): Snapshot
    requires i <= |rs| && AllKeyed(rs)
  {
    if i == 0 then t
    else
      var prev := StateAfter(t, rs, i - 1);
      if rs[i - 1].Some? then Upserted(prev, rs[i - 1].value) else prev
  }

  /** How many of the first i results are records. */
  function SuccessCount(rs: seq<Option<Row>>, i: nat): nat
    requires i <= |rs|
  {
    if i == 0 then 0 else SuccessCount(rs, i - 1) + (if rs[i - 1].Some? then 1 else 0)
  }

  /** Applying the results one by one is upserting the saved records in order. */
  lemma {:induction false} StateAfterIsUpsertAll(t: Snapshot, rs: seq<Option<Row>>, i: nat)
    requires i <= |rs| && AllKeyed(rs)
    ensures StateAfter(t, rs, i) == UpsertAll(t, SavedUpTo(rs, i))
  {
    if i > 0 {
      StateAfterIsUpsertAll(t, rs, i - 1);
      SavedStep(t, rs, i - 1);
    }
  }

  /** The successes counted one by one are the saved records. */
  lemma {:induction false} SuccessCountIsSaved(rs: seq<Option<Row>>, i: nat)
    requires i <= |rs|
    ensures SuccessCount(rs, i) == |SavedUpTo(rs, i)|
  {
    if i > 0 {
      SuccessCountIsSaved(rs, i - 1);
      assert |SavedUpTo(rs, i)| == |SavedUpTo(rs, i - 1)| + (if rs[i - 1].Some? then 1 else 0);
    }
  }

  /** A failed save does not stop the batch: every success among the first i
      results, wherever it comes, is among the saved records. */
  lemma {:induction false} SavedAreTheSuccesses(rs: seq<Option<Row>>, i: nat, k: nat)
    requires k < i <= |rs| && rs[k].Some?
    ensures rs[k].value in SavedUpTo(rs, i)
  {
    if k < i - 1 {
      SavedAreTheSuccesses(rs, i - 1, k);
    }
  }

  /** Only successes are saved: the count is the number of calls that
      returned a record. */
  lemma {:induction false} SavedCountsSuccesses(rs: seq<Option<Row>>, i: nat)
    requires i <= |rs|
    ensures |SavedUpTo(rs, i)| == |set k | 0 <= k < i && rs[k].Some?|
  {
    if i > 0 {
      SavedCountsSuccesses(rs, i - 1);
      var prev := set k | 0 <= k < i - 1 && rs[k].Some?;
      var now := set k | 0 <= k < i && rs[k].Some?;
      if rs[i - 1].Some? {
        assert now == prev + {i - 1};
      } else {
        assert now == prev;
      }
    }
  }

  /** The meeting_summaries table. */
  class SummaryTable {
    var rows: map<string, Row>
    var created: seq<string>

    function State(): Snapshot
      reads this
    {
      Snapshot(rows, created)
    }

    ghost predicate Valid()
      reads this
    {
      Indexed(State())
    }

    constructor()
      ensures Valid() && rows == map[] && created == []
    {
      rows := map[];
      created := [];
    }

    /** `.upsert(rec, on_conflict='document_id').execute()`; fails stands for
        a request the service rejects, which changes nothing. */
    method Upsert(rec: Row, fails: bool) returns (ok: bool)
      requires Valid() && Keyed(rec)
      modifies this
      ensures Valid()
      ensures ok == !fails
      ensures State() == if fails then old(State()) else Upserted(old(State()), rec)
    {
      if fails {
        return false;
      }
      UpsertKeepsIndexed(State(), rec);
      var id := rec["document_id"].text;
      if id in rows {
        rows := rows[id := Merge(Some(rows[id]), rec)];
      } else {
        rows := rows[id := Merge(None, rec)];
        created := created + [id];
      }
      return true;
    }
  }
}
