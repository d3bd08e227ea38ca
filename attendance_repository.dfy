/** The attendance ledger: gate passages, appended and never changed. The
    queries read one user's passages, latest first. */
module AttendanceRepository {
  import opened Base
  import opened Ordering

  datatype AttendanceLog = AttendanceLog(userId: nat, direction: string, source: string, occurredAt: Instant)

  /** The owner column: `user_id`. */
  function Attendee(log: AttendanceLog): nat { log.userId }

  /** `ORDER BY occurred_at desc`. */
  predicate LaterOccurrence(a: AttendanceLog, b: AttendanceLog) { a.occurredAt >= b.occurredAt }

  lemma LaterOccurrenceIsTotalPreorder()
    ensures TotalPreorder(LaterOccurrence)
  {
  }

  /** What FindLastByUserID answers on a ledger: the user's latest passage, not-found, or the fault. */
  function LastLookup(rows: seq<AttendanceLog>, userId: nat, fault: Option<string>): (r: Result<AttendanceLog>)
    ensures r.Ok? ==> r.value in rows && r.value.userId == userId
    ensures r.Ok? ==> forall x :: x in rows && x.userId == userId ==> r.value.occurredAt >= x.occurredAt
    ensures fault.None? ==> (r == Err(RecordNotFound) <==> forall x :: x in rows ==> x.userId != userId)
    ensures fault.Some? ==> r == Err(Driver(fault.value))
  {
    LaterOccurrenceIsTotalPreorder();
    LatestIsFirst(rows, Attendee, userId, LaterOccurrence);
    if fault.Some? then Err(Driver(fault.value))
    else match Latest(rows, Attendee, userId, LaterOccurrence)
      case None => Err(RecordNotFound)
      case Some(log) => Ok(log)
  }

  /** A passage appended no earlier than any of the user's passages becomes the user's last one. */
  lemma AppendBecomesLast(rows: seq<AttendanceLog>, log: AttendanceLog)
    requires forall x :: x in rows && x.userId == log.userId ==> x.occurredAt <= log.occurredAt
    ensures LastLookup(rows + [log], log.userId, None) == Ok(log)
  {
    var s := rows + [log];
    assert s[..|s| - 1] == rows;
    LaterOccurrenceIsTotalPreorder();
    LatestIsFirst(rows, Attendee, log.userId, LaterOccurrence);
  }

  /** Appending another user's passage does not change a user's last passage. */
  lemma AppendOtherUser(rows: seq<AttendanceLog>, log: AttendanceLog, userId: nat)
    requires log.userId != userId
    ensures LastLookup(rows + [log], userId, None) == LastLookup(rows, userId, None)
  {
    var s := rows + [log];
    assert s[..|s| - 1] == rows;
  }

  class AttendanceLedger {
    var rows: seq<AttendanceLog>

    constructor ()
      ensures rows == []
    {
      rows := [];
    }

    /** attendanceRepository.Create: appends exactly one passage, or fails and changes nothing. */
    method Create(log: AttendanceLog, fault: Option<string>) returns (err: Option<Error>)
      modifies this
      ensures err == Outcome(fault)
      ensures fault.None? ==> rows == old(rows) + [log]
      ensures fault.Some? ==> rows == old(rows)
    {
      err := Outcome(fault);
      if fault.None? {
        rows := rows + [log];
      }
    }

    /** attendanceRepository.FindLastByUserID: the user's latest passage, or not-found. */
    method FindLastByUserID(userId: nat, fault: Option<string>) returns (r: Result<AttendanceLog>)
      ensures r == LastLookup(rows, userId, fault)
      ensures r.Ok? ==> r.value in rows && r.value.userId == userId
      ensures r.Ok? ==> forall x :: x in rows && x.userId == userId ==> r.value.occurredAt >= x.occurredAt
      ensures fault.None? ==> (r == Err(RecordNotFound) <==> forall x :: x in rows ==> x.userId != userId)
    {
      if fault.Some? {
        return Err(Driver(fault.value));
      }
      var found := FindFirst(rows, Attendee, userId, LaterOccurrence);
      r := if found.None? then Err(RecordNotFound) else Ok(found.value);
    }

    /** attendanceRepository.ListByUserID: the user's passages, latest first,
        at most `limit` of them when limit > 0 and all of them otherwise. */
    method ListByUserID(userId: nat, limit: int, fault: Option<string>) returns (r: Result<seq<AttendanceLog>>)
      ensures fault.Some? ==> r == Err(Driver(fault.value))
      ensures fault.None? ==> r.Ok?
      ensures r.Ok? ==> r.value == Take(SortBy(Owned(rows, Attendee, userId), LaterOccurrence), limit)
      ensures r.Ok? ==> forall x :: x in r.value ==> x in rows && x.userId == userId
      ensures r.Ok? && limit <= 0 ==> multiset(r.value) == multiset(Owned(rows, Attendee, userId))
      ensures r.Ok? && limit > 0 ==> |r.value| <= limit
      ensures r.Ok? ==> Sorted(r.value, LaterOccurrence)
      ensures r.Ok? ==> Head(r.value) == Latest(rows, Attendee, userId, LaterOccurrence)
    {
      if fault.Some? {
        return Err(Driver(fault.value));
      }
      var all := Select(rows, Attendee, userId, LaterOccurrence);
      LaterOccurrenceIsTotalPreorder();
      HeadIsLatest(rows, Attendee, userId, LaterOccurrence);
      var limited := if 0 < limit < |all| then all[..limit] else all;
      TakeKeepsOrder(all, limit, LaterOccurrence);
      r := Ok(limited);
    }
  }
}
