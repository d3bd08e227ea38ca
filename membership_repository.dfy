/** The memberships table: one row per membership period of a user. Rows are
    only inserted and bulk-expired; the queries read the rows of one user
    ordered by end instant, latest first. */
module MembershipRepository {
  import opened Base
  import opened Ordering

  const Active: string := "active"
  const Expired: string := "expired"

  /** A membership period, in the shape the services use. */
  datatype Membership = Membership(userId: nat, status: string, plan: string, startsAt: Instant, endsAt: Instant)

  /** The owner column: `user_id`. */
  function Holder(m: Membership): nat { m.userId }

  /** `ORDER BY ends_at desc`: a may be listed before b when it ends no earlier. */
  predicate LaterEnd(a: Membership, b: Membership) { a.endsAt >= b.endsAt }

  lemma LaterEndIsTotalPreorder()
    ensures TotalPreorder(LaterEnd)
  {
  }

  /** What the bulk update does to one row. */
  function ExpireRow(m: Membership, userId: nat, at: Instant): Membership
  {
    if m.userId == userId && m.status == Active then m.(status := Expired, endsAt := at) else m
  }

  /** The table after `UPDATE ... SET status = 'expired', ends_at = at
      WHERE user_id = userId AND status = 'active'`. */
  function ExpireActive(s: seq<Membership>, userId: nat, at: Instant): (r: seq<Membership>)
    ensures |r| == |s|
    ensures forall i :: 0 <= i < |s| ==> r[i] == ExpireRow(s[i], userId, at)
  {
    if s == [] then [] else ExpireActive(s[..|s| - 1], userId, at) + [ExpireRow(s[|s| - 1], userId, at)]
  }

  /** Every active row of the user is expired at the given instant; every
      other row (other users' rows, the user's non-active rows) is unchanged. */
  lemma ExpireActiveEffect(s: seq<Membership>, userId: nat, at: Instant, i: nat)
    requires i < |s|
    ensures s[i].userId == userId && s[i].status == Active ==>
              ExpireActive(s, userId, at)[i] == s[i].(status := Expired, endsAt := at)
    ensures !(s[i].userId == userId && s[i].status == Active) ==> ExpireActive(s, userId, at)[i] == s[i]
    ensures ExpireActive(s, userId, at)[i].userId == s[i].userId
  {
  }

  /** Afterwards the user has no active row, so a second update changes nothing. */
  lemma ExpireActiveIdempotent(s: seq<Membership>, userId: nat, at: Instant, later: Instant)
    ensures forall m :: m in ExpireActive(s, userId, at) && m.userId == userId ==> m.status != Active
    ensures ExpireActive(ExpireActive(s, userId, at), userId, later) == ExpireActive(s, userId, at)
  {
    var r := ExpireActive(s, userId, at);
    forall m | m in r && m.userId == userId
      ensures m.status != Active
    {
      var i :| 0 <= i < |r| && r[i] == m;
      assert r[i] == ExpireRow(s[i], userId, at);
    }
    assert forall i :: 0 <= i < |r| ==> ExpireRow(r[i], userId, later) == r[i];
  }

  /** What FindLatestByUserID answers on a table: a period of the user ending
      no earlier than any other of the user's periods, not-found, or the fault. */
  function LatestLookup(rows: seq<Membership>, userId: nat, fault: Option<string>): (r: Result<Membership>)
    ensures r.Ok? ==> r.value in rows && r.value.userId == userId
    ensures r.Ok? ==> forall m :: m in rows && m.userId == userId ==> r.value.endsAt >= m.endsAt
    ensures fault.None? ==> (r == Err(RecordNotFound) <==> forall m :: m in rows ==> m.userId != userId)
    ensures fault.Some? ==> r == Err(Driver(fault.value))
  {
    LaterEndIsTotalPreorder();
    LatestIsFirst(rows, Holder, userId, LaterEnd);
    if fault.Some? then Err(Driver(fault.value))
    else match Latest(rows, Holder, userId, LaterEnd)
      case None => Err(RecordNotFound)
      case Some(m) => Ok(m)
  }

  class MembershipTable {
    var rows: seq<Membership>

    constructor ()
      ensures rows == []
    {
      rows := [];
    }

    /** membershipRepository.Create: inserts exactly one row, or fails and changes nothing. */
    method Create(m: Membership, fault: Option<string>) returns (err: Option<Error>)
      modifies this
      ensures err == Outcome(fault)
      ensures fault.None? ==> rows == old(rows) + [m]
      ensures fault.Some? ==> rows == old(rows)
    {
      err := Outcome(fault);
      if fault.None? {
        rows := rows + [m];
      }
    }

    /** membershipRepository.ExpireActiveForUser: the bulk update, row by row. */
    method ExpireActiveForUser(userId: nat, expiredAt: Instant, fault: Option<string>) returns (err: Option<Error>)
      modifies this
      ensures err == Outcome(fault)
      ensures fault.None? ==> rows == ExpireActive(old(rows), userId, expiredAt)
      ensures fault.Some? ==> rows == old(rows)
    {
      err := Outcome(fault);
      if fault.Some? {
        return;
      }
      for i := 0 to |rows|
        invariant |rows| == |old(rows)|
        invariant forall j :: 0 <= j < i ==> rows[j] == ExpireRow(old(rows)[j], userId, expiredAt)
        invariant forall j :: i <= j < |rows| ==> rows[j] == old(rows)[j]
      {
        if rows[i].userId == userId && rows[i].status == Active {
          rows := rows[i := rows[i].(status := Expired, endsAt := expiredAt)];
        }
      }
      assert rows == ExpireActive(old(rows), userId, expiredAt);
    }

    /** membershipRepository.FindLatestByUserID: the user's latest period, or not-found. */
    method FindLatestByUserID(userId: nat, fault: Option<string>) returns (r: Result<Membership>)
      ensures r == LatestLookup(rows, userId, fault)
      ensures r.Ok? ==> r.value in rows && r.value.userId == userId
      ensures r.Ok? ==> forall m :: m in rows && m.userId == userId ==> r.value.endsAt >= m.endsAt
      ensures fault.None? ==> (r == Err(RecordNotFound) <==> forall m :: m in rows ==> m.userId != userId)
    {
      if fault.Some? {
        return Err(Driver(fault.value));
      }
      var found := FindFirst(rows, Holder, userId, LaterEnd);
      r := if found.None? then Err(RecordNotFound) else Ok(found.value);
    }

    /** membershipRepository.ListByUserID: exactly the user's rows, latest end
        first; its head is the row FindLatestByUserID returns. */
    method ListByUserID(userId: nat, fault: Option<string>) returns (r: Result<seq<Membership>>)
      ensures fault.Some? ==> r == Err(Driver(fault.value))
      ensures fault.None? ==> r.Ok?
      ensures r.Ok? ==> r.value == SortBy(Owned(rows, Holder, userId), LaterEnd)
      ensures r.Ok? ==> multiset(r.value) == multiset(Owned(rows, Holder, userId))
      ensures r.Ok? ==> forall m :: m in r.value <==> m in rows && m.userId == userId
      ensures r.Ok? ==> Sorted(r.value, LaterEnd)
      ensures r.Ok? ==> Head(r.value) == Latest(rows, Holder, userId, LaterEnd)
    {
      if fault.Some? {
        return Err(Driver(fault.value));
      }
      var list := Select(rows, Holder, userId, LaterEnd);
      LaterEndIsTotalPreorder();
      HeadIsLatest(rows, Holder, userId, LaterEnd);
      r := Ok(list);
    }
  }
}
