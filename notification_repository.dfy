/** The notifications table, read and marked read by its recipient only:
    every query is scoped by user_id, so another user's notification
    behaves as if it did not exist. */
module NotificationRepository {
  import opened Base
  import opened Ordering

  datatype Notification = Notification(notificationId: nat, userId: nat, kind: string, title: string,
                                       isRead: bool, createdAt: Instant)

  function Recipient(n: Notification): nat { n.userId }

  /** `ORDER BY created_at desc`. */
  predicate LaterCreation(a: Notification, b: Notification) { a.createdAt >= b.createdAt }

  lemma LaterCreationIsTotalPreorder()
    ensures TotalPreorder(LaterCreation)
  {
  }

  /** `WHERE id = ? AND user_id = ?`. */
  predicate Addressed(n: Notification, id: nat, userId: nat)
  {
    n.notificationId == id && n.userId == userId
  }

  /** What FindByIDForUser answers: the user's notification with that id, not-found, or the fault. */
  function FindForUser(rows: seq<Notification>, id: nat, userId: nat, fault: Option<string>): (r: Result<Notification>)
    ensures fault.Some? ==> r == Err(Driver(fault.value))
    ensures fault.None? ==> (r == Err(RecordNotFound) <==> forall k :: 0 <= k < |rows| ==> !Addressed(rows[k], id, userId))
    ensures fault.None? ==> r.Ok? || r == Err(RecordNotFound)
    ensures r.Ok? ==> r.value in rows && Addressed(r.value, id, userId)
  {
    if fault.Some? then Err(Driver(fault.value))
    else if rows == [] then Err(RecordNotFound)
    else if Addressed(rows[0], id, userId) then Ok(rows[0])
    else
      var r := FindForUser(rows[1..], id, userId, None);
      assert forall k :: 1 <= k < |rows| ==> rows[k] == rows[1..][k - 1];
      r
  }

  /** A notification that exists but belongs to someone else is not found. */
  lemma OthersNotificationNotFound(rows: seq<Notification>, i: nat, userId: nat)
    requires i < |rows| && rows[i].userId != userId
    requires forall k :: 0 <= k < |rows| && k != i ==> rows[k].notificationId != rows[i].notificationId
    ensures FindForUser(rows, rows[i].notificationId, userId, None) == Err(RecordNotFound)
  {
  }

  /** The table after MarkRead: is_read set on the addressed rows, every other row as it was. */
  function MarkedRead(rows: seq<Notification>, id: nat, userId: nat): (r: seq<Notification>)
    ensures |r| == |rows|
    ensures forall k :: 0 <= k < |rows| ==>
              r[k] == if Addressed(rows[k], id, userId) then rows[k].(isRead := true) else rows[k]
  {
    seq(|rows|, k requires 0 <= k < |rows| => if Addressed(rows[k], id, userId) then rows[k].(isRead := true) else rows[k])
  }

  /** Marking twice is marking once. */
  lemma MarkReadIdempotent(rows: seq<Notification>, id: nat, userId: nat)
    ensures MarkedRead(MarkedRead(rows, id, userId), id, userId) == MarkedRead(rows, id, userId)
  {
  }

  /** Marking another user's notification (or an unknown id) changes nothing. */
  lemma MarkReadOfOthersChangesNothing(rows: seq<Notification>, id: nat, userId: nat)
    requires FindForUser(rows, id, userId, None) == Err(RecordNotFound)
    ensures MarkedRead(rows, id, userId) == rows
  {
  }

  /** After marking, the user's notification with that id reads back as read. */
  lemma MarkedIsFoundRead(rows: seq<Notification>, id: nat, userId: nat)
    requires FindForUser(rows, id, userId, None).Ok?
    ensures FindForUser(MarkedRead(rows, id, userId), id, userId, None).Ok?
    ensures FindForUser(MarkedRead(rows, id, userId), id, userId, None).value.isRead
  {
    var after := MarkedRead(rows, id, userId);
    var n := FindForUser(rows, id, userId, None).value;
    var k :| 0 <= k < |rows| && rows[k] == n;
    assert Addressed(after[k], id, userId);
    var m := FindForUser(after, id, userId, None).value;
    var j :| 0 <= j < |after| && after[j] == m;
    assert Addressed(rows[j], id, userId);
  }

  class NotificationTable {
    var rows: seq<Notification>

    constructor (rows: seq<Notification>)
      ensures this.rows == rows
    {
      this.rows := rows;
    }

    /** notificationRepository.ListByUserID: the user's notifications,
        newest first, at most `limit` of them when limit > 0. */
    method ListByUserID(userId: nat, limit: int, fault: Option<string>) returns (r: Result<seq<Notification>>)
      ensures fault.Some? ==> r == Err(Driver(fault.value))
      ensures fault.None? ==> r == Ok(Take(SortBy(Owned(rows, Recipient, userId), LaterCreation), limit))
      ensures r.Ok? ==> forall n :: n in r.value ==> n in rows && n.userId == userId
      ensures r.Ok? && limit <= 0 ==> multiset(r.value) == multiset(Owned(rows, Recipient, userId))
      ensures r.Ok? && limit > 0 ==> |r.value| <= limit
      ensures r.Ok? ==> Sorted(r.value, LaterCreation)
    {
      if fault.Some? {
        return Err(Driver(fault.value));
      }
      var all := Select(rows, Recipient, userId, LaterCreation);
      LaterCreationIsTotalPreorder();
      TakeKeepsOrder(all, limit, LaterCreation);
      r := Ok(if 0 < limit < |all| then all[..limit] else all);
    }

    /** notificationRepository.FindByIDForUser. */
    method FindByIDForUser(id: nat, userId: nat, fault: Option<string>) returns (r: Result<Notification>)
      ensures r == FindForUser(rows, id, userId, fault)
    {
      if fault.Some? {
        return Err(Driver(fault.value));
      }
      var k := 0;
      while k < |rows|
        invariant 0 <= k <= |rows|
        invariant forall j :: 0 <= j < k ==> !Addressed(rows[j], id, userId)
        invariant FindForUser(rows, id, userId, None) == FindForUser(rows[k..], id, userId, None)
      {
        if Addressed(rows[k], id, userId) {
          return Ok(rows[k]);
        }
        assert rows[k..][1..] == rows[k + 1..];
        k := k + 1;
      }
      r := Err(RecordNotFound);
    }

    /** notificationRepository.MarkRead: sets is_read on the row with that id
        and that owner; no error when no row matches. */
    method MarkRead(id: nat, userId: nat, fault: Option<string>) returns (err: Option<Error>)
      modifies this
      ensures err == Outcome(fault)
      ensures rows == if fault.None? then MarkedRead(old(rows), id, userId) else old(rows)
    {
      if fault.Some? {
        return Some(Driver(fault.value));
      }
      for k := 0 to |rows|
        invariant |rows| == |old(rows)|
        invariant forall j :: 0 <= j < k ==> rows[j] == MarkedRead(old(rows), id, userId)[j]
        invariant forall j :: k <= j < |rows| ==> rows[j] == old(rows)[j]
      {
        if Addressed(rows[k], id, userId) {
          rows := rows[k := rows[k].(isRead := true)];
        }
      }
      err := None;
    }
  }
}
