/** The attendance service of server/src/modules/attendance/attendance.service.ts:
    sessions, the per-student entries of a session with their audit trail,
    and the per-date class summary. The three tables are sequences whose
    positions are the row ids. */
module Attendance {
  import opened Common

  datatype SessionStatus = Draft | Submitted

  datatype Session = Session(
    date: string, classId: nat, subjectId: Option<nat>, teacherId: nat, status: SessionStatus)

  /** A row of attendance_entries; its id is its position in the table. */
  datatype Entry = Entry(
    sessionId: nat, studentId: nat, status: string, reason: Option<string>, updatedBy: nat)

  /** A row of attendance_audit. */
  datatype AuditRow = AuditRow(
    entryId: nat, oldStatus: string, newStatus: string, reason: Option<string>, changedBy: nat)

  /** One item of the bulk request. */
  datatype EntryInput = EntryInput(studentId: nat, status: string, reason: Option<string>)

  /** The entries and the audit trail, which every write touches together. */
  datatype Tables = Tables(entries: seq<Entry>, audit: seq<AuditRow>)

  datatype Key = Key(sessionId: nat, studentId: nat)

  function KeyOf(e: Entry): Key {
    Key(e.sessionId, e.studentId)
  }

  /** `reason || null`: a missing or empty reason is stored as NULL. */
  function StoredReason(reason: Option<string>): (r: Option<string>)
    ensures r.None? <==> reason.None? || reason.value == ""
    ensures r.Some? ==> r == reason
  {
    if reason.Some? && reason.value != "" then reason else None
  }

  /** `subjectId || null`: a missing subject or subject 0 is stored as NULL. */
  function StoredSubject(subjectId: Option<nat>): (r: Option<nat>)
    ensures r.None? <==> subjectId.None? || subjectId.value == 0
    ensures r.Some? ==> r == subjectId
  {
    if subjectId.Some? && subjectId.value != 0 then subjectId else None
  }

  /** At most one entry per (session, student). */
  ghost predicate UniqueKeys(entries: seq<Entry>) {
    forall i, j :: 0 <= i < j < |entries| ==> KeyOf(entries[i]) != KeyOf(entries[j])
  }

  /** The SELECT by (session_id, student_id). */
  function Find(entries: seq<Entry>, key: Key): (r: Option<nat>)
    ensures r.Some? ==> r.value < |entries| && KeyOf(entries[r.value]) == key
    ensures r.None? ==> forall i :: 0 <= i < |entries| ==> KeyOf(entries[i]) != key
  {
    if entries == [] then None
    else if KeyOf(entries[|entries| - 1]) == key then Some(|entries| - 1)
    else Find(entries[..|entries| - 1], key)
  }

  /** With unique keys, the lookup finds the one entry that has the key. */
  lemma FindUnique(entries: seq<Entry>, i: nat)
    requires UniqueKeys(entries)
    requires i < |entries|
    ensures Find(entries, KeyOf(entries[i])) == Some(i)
  {
  }

  // ---------------------------------------------------------------------
  // Writes
  // ---------------------------------------------------------------------

  /** The UPDATE of an existing entry, preceded by an audit row when the
      status changes; shared by bulkUpsertEntries and updateEntry. */
  function Overwrite(t: Tables, id: nat, status: string, reason: Option<string>, actor: nat): Tables
    requires id < |t.entries|
  {
    var e := t.entries[id];
    var stored := StoredReason(reason);
    Tables(
      t.entries[id := e.(status := status, reason := stored, updatedBy := actor)],
      t.audit + (if e.status != status then [AuditRow(id, e.status, status, stored, actor)] else []))
  }

  /** One iteration of the loop in bulkUpsertEntries: insert when no entry
      has the key, otherwise overwrite the one that has it. */
  function Upsert(t: Tables, sessionId: nat, x: EntryInput, actor: nat): Tables {
    match Find(t.entries, Key(sessionId, x.studentId))
    case None =>
      Tables(t.entries + [Entry(sessionId, x.studentId, x.status, StoredReason(x.reason), actor)], t.audit)
    case Some(id) =>
      Overwrite(t, id, x.status, x.reason, actor)
  }

  /** The whole loop of bulkUpsertEntries. */
  function UpsertAll(t: Tables, sessionId: nat, xs: seq<EntryInput>, actor: nat): Tables {
    if xs == [] then t
    else Upsert(UpsertAll(t, sessionId, xs[..|xs| - 1], actor), sessionId, xs[|xs| - 1], actor)
  }

  /** Overwriting changes the one entry and keeps every key; it appends an
      audit row, recording the old and the new status, exactly when the
      status changes. */
  lemma OverwriteFacts(t: Tables, id: nat, status: string, reason: Option<string>, actor: nat)
    requires id < |t.entries|
    ensures var r := Overwrite(t, id, status, reason, actor);
      && |r.entries| == |t.entries|
      && (forall i :: 0 <= i < |t.entries| ==> KeyOf(r.entries[i]) == KeyOf(t.entries[i]))
      && (forall i :: 0 <= i < |t.entries| && i != id ==> r.entries[i] == t.entries[i])
      && r.entries[id].status == status && r.entries[id].reason == StoredReason(reason)
      && r.audit[..|t.audit|] == t.audit
      && (|r.audit| == |t.audit| + 1 <==> t.entries[id].status != status)
      && (|r.audit| == |t.audit| + 1 ==>
            r.audit[|t.audit|] == AuditRow(id, t.entries[id].status, status, StoredReason(reason), actor))
      && (|r.audit| != |t.audit| + 1 ==> r.audit == t.audit)
  {
  }

  /** One upsert step: a row is inserted only when no entry has the key, a
      fresh insert writes no audit row, other entries keep their values, and
      afterwards the key has exactly one entry, holding the new status and
      reason. */
  lemma {:induction false} UpsertFacts(t: Tables, sessionId: nat, x: EntryInput, actor: nat)
    requires UniqueKeys(t.entries)
    ensures var r := Upsert(t, sessionId, x, actor);
      var key := Key(sessionId, x.studentId);
      && UniqueKeys(r.entries)
      && (|r.entries| == |t.entries| + 1 <==> Find(t.entries, key).None?)
      && (Find(t.entries, key).None? ==> r.audit == t.audit)
      && |r.entries| >= |t.entries|
      && (forall i :: 0 <= i < |t.entries| && KeyOf(t.entries[i]) != key ==> r.entries[i] == t.entries[i])
      && (forall i :: |t.entries| <= i < |r.entries| ==> KeyOf(r.entries[i]) == key)
      && Find(r.entries, key).Some?
      && r.entries[Find(r.entries, key).value].status == x.status
      && r.entries[Find(r.entries, key).value].reason == StoredReason(x.reason)
  {
    var key := Key(sessionId, x.studentId);
    var r := Upsert(t, sessionId, x, actor);
    match Find(t.entries, key)
    case None =>
      assert KeyOf(r.entries[|t.entries|]) == key;
      assert UniqueKeys(r.entries) by {
        forall i, j | 0 <= i < j < |r.entries| ensures KeyOf(r.entries[i]) != KeyOf(r.entries[j]) {
          if j < |t.entries| {
            assert r.entries[i] == t.entries[i] && r.entries[j] == t.entries[j];
          }
        }
      }
      FindUnique(r.entries, |t.entries|);
    case Some(id) =>
      OverwriteFacts(t, id, x.status, x.reason, actor);
      assert UniqueKeys(r.entries) by {
        forall i, j | 0 <= i < j < |r.entries| ensures KeyOf(r.entries[i]) != KeyOf(r.entries[j]) {
          assert KeyOf(t.entries[i]) != KeyOf(t.entries[j]);
        }
      }
      FindUnique(r.entries, id);
  }

  /** bulkUpsertEntries keeps at most one entry per (session, student). */
  lemma {:induction false} UpsertAllKeepsKeysUnique(t: Tables, sessionId: nat, xs: seq<EntryInput>, actor: nat)
    requires UniqueKeys(t.entries)
    ensures UniqueKeys(UpsertAll(t, sessionId, xs, actor).entries)
    ensures |UpsertAll(t, sessionId, xs, actor).entries| >= |t.entries|
  {
    if xs != [] {
      UpsertAllKeepsKeysUnique(t, sessionId, xs[..|xs| - 1], actor);
      UpsertFacts(UpsertAll(t, sessionId, xs[..|xs| - 1], actor), sessionId, xs[|xs| - 1], actor);
    }
  }

  /** No later item of xs is for the same student as item k. */
  predicate LastFor(xs: seq<EntryInput>, k: nat)
    requires k < |xs|
  {
    forall j :: k < j < |xs| ==> xs[j].studentId != xs[k].studentId
  }

  /** After bulkUpsertEntries each input student's entry carries the status
      and reason of the last item for that student. */
  lemma {:induction false} UpsertAllLastItemWins(t: Tables, sessionId: nat, xs: seq<EntryInput>, actor: nat, k: nat)
    requires UniqueKeys(t.entries)
    requires k < |xs| && LastFor(xs, k)
    ensures var r := UpsertAll(t, sessionId, xs, actor);
      var f := Find(r.entries, Key(sessionId, xs[k].studentId));
      && f.Some?
      && r.entries[f.value].status == xs[k].status
      && r.entries[f.value].reason == StoredReason(xs[k].reason)
  {
    var prefix := xs[..|xs| - 1];
    var mid := UpsertAll(t, sessionId, prefix, actor);
    UpsertAllKeepsKeysUnique(t, sessionId, prefix, actor);
    UpsertFacts(mid, sessionId, xs[|xs| - 1], actor);
    if k < |xs| - 1 {
      assert LastFor(prefix, k) by {
        forall j | k < j < |prefix| ensures prefix[j].studentId != prefix[k].studentId {
          assert prefix[j] == xs[j];
        }
      }
      UpsertAllLastItemWins(t, sessionId, prefix, actor, k);
      var key := Key(sessionId, xs[k].studentId);
      var id := Find(mid.entries, key).value;
      var r := UpsertAll(t, sessionId, xs, actor);
      assert xs[|xs| - 1].studentId != xs[k].studentId;
      assert r.entries[id] == mid.entries[id];
      FindUnique(r.entries, id);
    }
  }

  /** bulkUpsertEntries leaves every entry whose student is not in the
      request, or which belongs to another session, as it was. */
  lemma {:induction false} UpsertAllOthersUnchanged(t: Tables, sessionId: nat, xs: seq<EntryInput>, actor: nat, i: nat)
    requires UniqueKeys(t.entries)
    requires i < |t.entries|
    requires t.entries[i].sessionId != sessionId || forall j :: 0 <= j < |xs| ==> xs[j].studentId != t.entries[i].studentId
    ensures var r := UpsertAll(t, sessionId, xs, actor);
      i < |r.entries| && r.entries[i] == t.entries[i]
  {
    if xs != [] {
      var prefix := xs[..|xs| - 1];
      assert t.entries[i].sessionId != sessionId || forall j :: 0 <= j < |prefix| ==> prefix[j].studentId != t.entries[i].studentId by {
        if t.entries[i].sessionId == sessionId {
          forall j | 0 <= j < |prefix| ensures prefix[j].studentId != t.entries[i].studentId {
            assert prefix[j] == xs[j];
          }
        }
      }
      UpsertAllOthersUnchanged(t, sessionId, prefix, actor, i);
      UpsertAllKeepsKeysUnique(t, sessionId, prefix, actor);
      UpsertFacts(UpsertAll(t, sessionId, prefix, actor), sessionId, xs[|xs| - 1], actor);
    }
  }

  /** The audit trail only grows, and every row the batch adds records a
      real change of status. */
  lemma {:induction false} UpsertAllAuditsOnlyChanges(t: Tables, sessionId: nat, xs: seq<EntryInput>, actor: nat)
    ensures var r := UpsertAll(t, sessionId, xs, actor);
      && |r.audit| >= |t.audit|
      && r.audit[..|t.audit|] == t.audit
      && forall k :: |t.audit| <= k < |r.audit| ==> r.audit[k].oldStatus != r.audit[k].newStatus
  {
    if xs != [] {
      var prefix := xs[..|xs| - 1];
      var mid := UpsertAll(t, sessionId, prefix, actor);
      UpsertAllAuditsOnlyChanges(t, sessionId, prefix, actor);
      var f := Find(mid.entries, Key(sessionId, xs[|xs| - 1].studentId));
      if f.Some? {
        var x := xs[|xs| - 1];
        OverwriteFacts(mid, f.value, x.status, x.reason, actor);
        var r := UpsertAll(t, sessionId, xs, actor);
        assert r.audit[..|mid.audit|] == mid.audit;
        assert r.audit[..|t.audit|] == mid.audit[..|t.audit|];
      }
    }
  }

  // ---------------------------------------------------------------------
  // Per-date class summary (getClassAttendanceSummary)
  // ---------------------------------------------------------------------

  /** One joined row: the session's date and whether the entry is 'present'. */
  datatype DayMark = DayMark(date: string, present: bool)

  datatype DayRate = DayRate(date: string, presentRate: real)

  /** substr(date, 1, 7) */
  function Month(date: string): string {
    Take(date, 7)
  }

  /** The inner join of entries with their sessions, restricted to the
      class and the month. */
  function Joined(sessions: seq<Session>, entries: seq<Entry>, classId: nat, month: string): (r: seq<DayMark>)
    ensures |r| <= |entries|
  {
    if entries == [] then []
    else
      var e := entries[|entries| - 1];
      Joined(sessions, entries[..|entries| - 1], classId, month)
        + (if e.sessionId < |sessions| && sessions[e.sessionId].classId == classId
              && Month(sessions[e.sessionId].date) == month
           then [DayMark(sessions[e.sessionId].date, e.status == "present")]
           else [])
  }

  function CountOn(marks: seq<DayMark>, date: string): (r: nat)
    ensures r <= |marks|
    ensures r > 0 <==> exists i :: 0 <= i < |marks| && marks[i].date == date
  {
    if marks == [] then 0
    else
      var last := marks[|marks| - 1];
      var n := CountOn(marks[..|marks| - 1], date);
      assert forall i :: 0 <= i < |marks| - 1 ==> marks[..|marks| - 1][i] == marks[i];
      n + (if last.date == date then 1 else 0)
  }

  function PresentOn(marks: seq<DayMark>, date: string): (r: nat)
    ensures r <= CountOn(marks, date)
  {
    if marks == [] then 0
    else
      var last := marks[|marks| - 1];
      PresentOn(marks[..|marks| - 1], date) + (if last.date == date && last.present then 1 else 0)
  }

  ghost predicate Ascending(ds: seq<string>) {
    forall i, j :: 0 <= i < j < |ds| ==> LexLt(ds[i], ds[j])
  }

  /** Adds a date to an ascending list of distinct dates. */
  function InsertDate(d: string, ds: seq<string>): (r: seq<string>)
    ensures forall x :: x in r <==> x == d || x in ds
  {
    if ds == [] then [d]
    else if d == ds[0] then ds
    else if LexLe(d, ds[0]) then [d] + ds
    else [ds[0]] + InsertDate(d, ds[1..])
  }

  lemma {:induction false} InsertDateAscending(d: string, ds: seq<string>)
    requires Ascending(ds)
    ensures Ascending(InsertDate(d, ds))
  {
    if ds != [] && d != ds[0] {
      if LexLe(d, ds[0]) {
        forall j | 0 < j < |ds| + 1 ensures LexLt(d, ([d] + ds)[j]) {
          var x := ds[j - 1];
          if j > 1 {
            assert LexLt(ds[0], x);
            LexLeTransitive(d, ds[0], x);
            if d == x { LexLeAntisymmetric(d, ds[0]); }
          }
        }
      } else {
        InsertDateAscending(d, ds[1..]);
        var r := InsertDate(d, ds);
        forall j | 0 < j < |r| ensures LexLt(ds[0], r[j]) {
          assert r[j] in r[1..];
          if r[j] == d {
            LexLeTotal(d, ds[0]);
          } else {
            assert r[j] in ds[1..];
          }
        }
      }
    }
  }

  /** The GROUP BY date ... ORDER BY date: every date of the joined rows once. */
  function Dates(marks: seq<DayMark>): (r: seq<string>)
    ensures forall d :: d in r <==> exists i :: 0 <= i < |marks| && marks[i].date == d
  {
    if marks == [] then []
    else
      var prefix := marks[..|marks| - 1];
      var r := InsertDate(marks[|marks| - 1].date, Dates(prefix));
      assert forall i :: 0 <= i < |prefix| ==> prefix[i] == marks[i];
      r
  }

  lemma {:induction false} DatesAscending(marks: seq<DayMark>)
    ensures Ascending(Dates(marks))
  {
    if marks != [] {
      DatesAscending(marks[..|marks| - 1]);
      InsertDateAscending(marks[|marks| - 1].date, Dates(marks[..|marks| - 1]));
    }
  }

  /** AVG(CASE WHEN status = 'present' THEN 1.0 ELSE 0.0 END) per date. */
  function Summary(marks: seq<DayMark>): (r: seq<DayRate>)
    ensures |r| == |Dates(marks)|
    ensures forall i :: 0 <= i < |r| ==> r[i].date == Dates(marks)[i]
    ensures forall i :: 0 <= i < |r| ==> 0.0 <= r[i].presentRate <= 1.0
  {
    var ds := Dates(marks);
    seq(|ds|, i requires 0 <= i < |ds| =>
      var n := CountOn(marks, ds[i]);
      assert n > 0 by { assert ds[i] in ds; }
      DayRate(ds[i], RateOf(PresentOn(marks, ds[i]), n)))
  }

  /** present ÷ total for a day with at least one entry. */
  function RateOf(present: nat, total: nat): (r: real)
    requires 0 < total && present <= total
    ensures 0.0 <= r <= 1.0
    ensures r * total as real == present as real
  {
    present as real / total as real
  }

  function ClassAttendanceSummary(sessions: seq<Session>, entries: seq<Entry>, classId: nat, month: string): seq<DayRate> {
    Summary(Joined(sessions, entries, classId, month))
  }

  /** The summary rows are strictly ascending by date. */
  lemma SummaryAscending(marks: seq<DayMark>)
    ensures var r := Summary(marks);
      forall i, j :: 0 <= i < j < |r| ==> LexLt(r[i].date, r[j].date)
  {
    DatesAscending(marks);
  }

  /** Every date of the joined rows has a summary row. */
  lemma SummaryCoversEveryDate(marks: seq<DayMark>, k: nat)
    requires k < |marks|
    ensures exists i :: 0 <= i < |Summary(marks)| && Summary(marks)[i].date == marks[k].date
  {
    var ds := Dates(marks);
    assert marks[k].date in ds;
    var i :| 0 <= i < |ds| && ds[i] == marks[k].date;
    assert Summary(marks)[i].date == marks[k].date;
  }

  /** Each summary row is for a date with entries, and its rate is the
      share of present entries that day. */
  lemma SummaryRate(marks: seq<DayMark>, i: nat)
    requires i < |Summary(marks)|
    ensures var d := Summary(marks)[i].date;
      && CountOn(marks, d) > 0
      && Summary(marks)[i].presentRate == RateOf(PresentOn(marks, d), CountOn(marks, d))
  {
    var ds := Dates(marks);
    assert ds[i] in ds;
  }

  // ---------------------------------------------------------------------
  // The store
  // ---------------------------------------------------------------------

  class AttendanceStore {
    var sessions: seq<Session>
    var entries: seq<Entry>
    var audit: seq<AuditRow>

    ghost predicate Valid()
      reads this
    {
      UniqueKeys(entries)
    }

    function Current(): Tables
      reads this
    {
      Tables(entries, audit)
    }

    constructor ()
      ensures Valid() && sessions == [] && entries == [] && audit == []
    {
      sessions, entries, audit := [], [], [];
    }

    /** createSession: a new session, always in status draft. */
    method CreateSession(date: string, classId: nat, subjectId: Option<nat>, teacherId: nat) returns (id: nat)
      requires Valid()
      modifies this
      ensures Valid()
      ensures id == |old(sessions)|
      ensures sessions == old(sessions) + [Session(date, classId, StoredSubject(subjectId), teacherId, Draft)]
      ensures entries == old(entries) && audit == old(audit)
    {
      id := |sessions|;
      sessions := sessions + [Session(date, classId, StoredSubject(subjectId), teacherId, Draft)];
    }

    /** updateSessionStatus: only that session's status changes; an unknown
        id updates nothing. */
    method UpdateSessionStatus(sessionId: nat, status: SessionStatus)
      requires Valid()
      modifies this
      ensures Valid()
      ensures sessions == if sessionId < |old(sessions)|
        then old(sessions)[sessionId := old(sessions)[sessionId].(status := status)]
        else old(sessions)
      ensures entries == old(entries) && audit == old(audit)
    {
      if sessionId < |sessions| {
        sessions := sessions[sessionId := sessions[sessionId].(status := status)];
      }
    }

    /** bulkUpsertEntries: one select and then an insert or an audited
        update per item, in request order. */
    method BulkUpsertEntries(sessionId: nat, xs: seq<EntryInput>, actor: nat)
      requires Valid()
      modifies this
      ensures Valid()
      ensures Current() == UpsertAll(old(Current()), sessionId, xs, actor)
      ensures sessions == old(sessions)
    {
      for i := 0 to |xs|
        invariant Current() == UpsertAll(old(Current()), sessionId, xs[..i], actor)
        invariant UniqueKeys(entries)
        invariant sessions == old(sessions)
      {
        var x := xs[i];
        UpsertFacts(Current(), sessionId, x, actor);
        var existing := Find(entries, Key(sessionId, x.studentId));
        if existing.None? {
          entries := entries + [Entry(sessionId, x.studentId, x.status, StoredReason(x.reason), actor)];
        } else {
          var id := existing.value;
          var e := entries[id];
          if e.status != x.status {
            audit := audit + [AuditRow(id, e.status, x.status, StoredReason(x.reason), actor)];
          }
          entries := entries[id := e.(status := x.status, reason := StoredReason(x.reason), updatedBy := actor)];
        }
        assert xs[..i + 1][..i] == xs[..i];
      }
      assert xs[..|xs|] == xs;
    }

    /** updateEntry: an unknown id is a no-op; otherwise an audit row when
        the status changes, then the overwrite. */
    method UpdateEntry(entryId: nat, status: string, reason: Option<string>, actor: nat)
      requires Valid()
      modifies this
      ensures Valid()
      ensures Current() == if entryId < |old(entries)|
        then Overwrite(old(Current()), entryId, status, reason, actor)
        else old(Current())
      ensures sessions == old(sessions)
    {
      if entryId < |entries| {
        OverwriteFacts(Current(), entryId, status, reason, actor);
        var e := entries[entryId];
        if e.status != status {
          audit := audit + [AuditRow(entryId, e.status, status, StoredReason(reason), actor)];
        }
        entries := entries[entryId := e.(status := status, reason := StoredReason(reason), updatedBy := actor)];
        assert UniqueKeys(entries) by {
          forall i, j | 0 <= i < j < |entries| ensures KeyOf(entries[i]) != KeyOf(entries[j]) {
            assert KeyOf(old(entries)[i]) != KeyOf(old(entries)[j]);
          }
        }
      }
    }
  }
}
