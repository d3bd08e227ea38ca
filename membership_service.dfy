/** Membership status as members see it: the normalised status of a period,
    the current/history view, renewal, and the "is active" test the gate uses. */
module MembershipService {
  import opened Base
  import opened Ordering
  import opened MembershipRepository

  const DefaultPlan: string := "standard"

  /** One calendar month, as the model counts it (see README: calendar months are not modelled). */
  const SecondsPerMonth: int := 30 * 86400

  datatype HistoryItem = HistoryItem(status: string, plan: string, startsAt: Instant, endsAt: Instant)

  /** The current period; the instants are absent in the "no membership" answer. */
  datatype StatusResponse = StatusResponse(status: string, plan: string, startsAt: Option<Instant>, endsAt: Option<Instant>)

  datatype MembershipResponse = MembershipResponse(current: StatusResponse, history: seq<HistoryItem>)

  /** The answer for a user without membership: status "expired" and nothing else. */
  const NoMembership: StatusResponse := StatusResponse(Expired, "", None, None)

  /** normalizeMembershipStatus: a period counts as active when it is stored as
      active and `now` is not after its end; the end instant itself is still active. */
  function NormalizeStatus(m: Option<Membership>, now: Instant): (r: string)
    ensures r == Active || r == Expired
    ensures r == Active <==> m.Some? && m.value.status == Active && now <= m.value.endsAt
  {
    if m.None? then Expired
    else if m.value.status != Active then Expired
    else if now > m.value.endsAt then Expired
    else Active
  }

  function Item(m: Membership, now: Instant): HistoryItem
  {
    HistoryItem(NormalizeStatus(Some(m), now), m.plan, m.startsAt, m.endsAt)
  }

  function Current(item: HistoryItem): StatusResponse
  {
    StatusResponse(item.status, item.plan, Some(item.startsAt), Some(item.endsAt))
  }

  /** The view of a user's periods: one history item per period, latest end
      first, and the first item as the current period (or NoMembership). */
  ghost predicate ViewOf(v: MembershipResponse, rows: seq<Membership>, userId: nat, now: Instant)
  {
    var h := SortBy(Owned(rows, Holder, userId), LaterEnd);
    && |v.history| == |h|
    && (forall i :: 0 <= i < |h| ==> v.history[i] == Item(h[i], now))
    && v.current == if h == [] then NoMembership else Current(Item(h[0], now))
  }

  /** The current status the view shows is the normalised status of the period
      FindLatestByUserID returns, so the view and IsActive never disagree. */
  lemma CurrentIsLatest(rows: seq<Membership>, userId: nat, now: Instant)
    ensures var h := SortBy(Owned(rows, Holder, userId), LaterEnd);
            (if h == [] then NoMembership else Current(Item(h[0], now))).status
            == NormalizeStatus(Latest(rows, Holder, userId, LaterEnd), now)
  {
    HeadIsLatest(rows, Holder, userId, LaterEnd);
  }

  lemma ListingView(v: MembershipResponse, list: seq<Membership>, rows: seq<Membership>, userId: nat, now: Instant)
    requires list == SortBy(Owned(rows, Holder, userId), LaterEnd)
    requires |v.history| == |list| && forall j :: 0 <= j < |list| ==> v.history[j] == Item(list[j], now)
    requires v.current == if list == [] then NoMembership else Current(v.history[0])
    ensures ViewOf(v, rows, userId, now)
    ensures v.current.status == NormalizeStatus(Latest(rows, Holder, userId, LaterEnd), now)
  {
    CurrentIsLatest(rows, userId, now);
  }

  /** Renew's defaults: at least one month. */
  function EffectiveMonths(months: int): (m: int)
    ensures m >= 1
    ensures months > 0 ==> m == months
    ensures months <= 0 ==> m == 1
  {
    if months <= 0 then 1 else months
  }

  /** Renew's defaults: the "standard" plan when none is named. */
  function EffectivePlan(plan: string): (p: string)
    ensures p != ""
    ensures plan != "" ==> p == plan
    ensures plan == "" ==> p == DefaultPlan
  {
    if plan == "" then DefaultPlan else plan
  }

  /** time.AddDate(0, months, 0), with months of SecondsPerMonth. */
  function AddMonths(t: Instant, months: int): (r: Instant)
    ensures months > 0 ==> r > t
    ensures months > 0 ==> r - t >= months
  {
    t + months * SecondsPerMonth
  }

  /** The period Renew inserts. */
  function NewPeriod(userId: nat, months: int, plan: string, now: Instant): Membership
  {
    Membership(userId, Active, EffectivePlan(plan), now, AddMonths(now, EffectiveMonths(months)))
  }

  /** The table after Renew: the user's active periods expired at `now` (unless
      that update failed, which Renew ignores), then the new period (unless
      the insert failed). */
  function Renewed(rows: seq<Membership>, userId: nat, months: int, plan: string, now: Instant,
                   expireFault: Option<string>, createFault: Option<string>): seq<Membership>
  {
    var expired := if expireFault.None? then ExpireActive(rows, userId, now) else rows;
    if createFault.None? then expired + [NewPeriod(userId, months, plan, now)] else expired
  }

  /** After a successful Renew the new period is the user's latest, and so
      the user is active, provided no period of the user that the expire step
      leaves in place ends after the new one. The proviso is needed: a stored
      non-active period ending later than the new one stays first in the
      ordering, and the user is shown as expired right after renewing. */
  lemma {:induction false} RenewedPeriodIsCurrent(rows: seq<Membership>, userId: nat, months: int, plan: string,
                                                  now: Instant, expireFault: Option<string>)
    requires forall m :: m in rows && m.userId == userId && !(expireFault.None? && m.status == Active)
                         ==> m.endsAt <= NewPeriod(userId, months, plan, now).endsAt
    ensures Latest(Renewed(rows, userId, months, plan, now, expireFault, None), Holder, userId, LaterEnd)
            == Some(NewPeriod(userId, months, plan, now))
    ensures NormalizeStatus(Latest(Renewed(rows, userId, months, plan, now, expireFault, None), Holder, userId, LaterEnd), now)
            == Active
  {
    var x := NewPeriod(userId, months, plan, now);
    var expired := if expireFault.None? then ExpireActive(rows, userId, now) else rows;
    ExpiredEndBefore(rows, userId, months, plan, now, expireFault);
    LaterEndIsTotalPreorder();
    LatestAfterAppend(expired, x, Holder, userId, LaterEnd);
  }

  /** After the expire step no period of the user ends later than the new one. */
  lemma ExpiredEndBefore(rows: seq<Membership>, userId: nat, months: int, plan: string, now: Instant,
                         expireFault: Option<string>)
    requires forall m :: m in rows && m.userId == userId && !(expireFault.None? && m.status == Active)
                         ==> m.endsAt <= NewPeriod(userId, months, plan, now).endsAt
    ensures var expired := if expireFault.None? then ExpireActive(rows, userId, now) else rows;
            forall y :: y in expired && y.userId == userId ==> LaterEnd(NewPeriod(userId, months, plan, now), y)
  {
    var expired := if expireFault.None? then ExpireActive(rows, userId, now) else rows;
    forall y | y in expired && y.userId == userId
      ensures LaterEnd(NewPeriod(userId, months, plan, now), y)
    {
      var i :| 0 <= i < |expired| && expired[i] == y;
      assert rows[i] in rows;
      if expireFault.None? {
        assert y == ExpireRow(rows[i], userId, now);
      }
    }
  }

  /** The other direction: a later-ending non-active period hides the renewal. */
  lemma RenewHiddenByLaterPeriod()
    ensures var rows := [Membership(1, "cancelled", "gold", 0, 100 * SecondsPerMonth)];
            NormalizeStatus(Latest(Renewed(rows, 1, 1, "", 0, None, None), Holder, 1, LaterEnd), 0) == Expired
  {
    var rows := [Membership(1, "cancelled", "gold", 0, 100 * SecondsPerMonth)];
    var s := Renewed(rows, 1, 1, "", 0, None, None);
    assert s == [rows[0], NewPeriod(1, 1, "", 0)];
    assert s[..1] == rows;
    assert rows[..0] == [];
    assert Latest(rows, Holder, 1, LaterEnd) == Some(rows[0]);
    assert Latest(s, Holder, 1, LaterEnd) == Some(rows[0]);
  }

  /** The loop of GetMyMembership: one item per listed period, in order; the
      first item also becomes the current period. */
  method BuildView(list: seq<Membership>, now: Instant) returns (v: MembershipResponse)
    ensures |v.history| == |list|
    ensures forall j :: 0 <= j < |list| ==> v.history[j] == Item(list[j], now)
    ensures v.current == if list == [] then NoMembership else Current(v.history[0])
  {
    var history: seq<HistoryItem> := [];
    var current: Option<StatusResponse> := None;
    for i := 0 to |list|
      invariant |history| == i
      invariant forall j :: 0 <= j < i ==> history[j] == Item(list[j], now)
      invariant current.None? <==> i == 0
      invariant i > 0 ==> current == Some(Current(history[0]))
    {
      var m := list[i];
      var item := HistoryItem(NormalizeStatus(Some(m), now), m.plan, m.startsAt, m.endsAt);
      history := history + [item];
      if i == 0 {
        current := Some(StatusResponse(item.status, item.plan, Some(item.startsAt), Some(item.endsAt)));
      }
    }
    var cur := if current.None? then NoMembership else current.value;
    v := MembershipResponse(cur, history);
  }

  class MembershipService {
    const repo: MembershipTable

    constructor (repo: MembershipTable)
      ensures this.repo == repo
    {
      this.repo := repo;
    }

    /** membershipService.GetMyMembership: the view of the user's periods. */
    method GetMyMembership(userId: nat, now: Instant, fault: Option<string>) returns (r: Result<MembershipResponse>)
      ensures fault.Some? ==> r == Err(Driver(fault.value))
      ensures fault.None? ==> r.Ok?
      ensures r.Ok? ==> ViewOf(r.value, repo.rows, userId, now)
      ensures r.Ok? ==> r.value.current.status == NormalizeStatus(Latest(repo.rows, Holder, userId, LaterEnd), now)
    {
      var list := repo.ListByUserID(userId, fault);
      if list.Err? {
        return Err(list.error);
      }
      var view := BuildView(list.value, now);
      r := Ok(view);
      ListingView(r.value, list.value, repo.rows, userId, now);
    }

    /** membershipService.Renew: defaults, best-effort expiry, insert, then the view. */
    method Renew(userId: nat, months: int, plan: string, now: Instant,
                 expireFault: Option<string>, createFault: Option<string>, listFault: Option<string>)
      returns (r: Result<MembershipResponse>)
      modifies repo
      ensures repo.rows == Renewed(old(repo.rows), userId, months, plan, now, expireFault, createFault)
      ensures createFault.Some? ==> r == Err(Driver(createFault.value))
      ensures createFault.None? && listFault.Some? ==> r == Err(Driver(listFault.value))
      ensures createFault.None? && listFault.None? ==> r.Ok? && ViewOf(r.value, repo.rows, userId, now)
    {
      var m := if months <= 0 then 1 else months;
      var p := if plan == "" then DefaultPlan else plan;
      var ends := AddMonths(now, m);
      var _ := repo.ExpireActiveForUser(userId, now, expireFault);
      var period := Membership(userId, Active, p, now, ends);
      var err := repo.Create(period, createFault);
      if err.Some? {
        return Err(err.value);
      }
      r := GetMyMembership(userId, now, listFault);
    }

    /** membershipService.IsActive: whether the latest period is active, and that period. */
    method IsActive(userId: nat, now: Instant, fault: Option<string>) returns (r: Result<(bool, Option<Membership>)>)
      ensures fault.Some? ==> r == Err(Driver(fault.value))
      ensures fault.None? ==> r.Ok?
      ensures r.Ok? ==> r.value.1 == Latest(repo.rows, Holder, userId, LaterEnd)
      ensures r.Ok? ==> r.value.1 == if LatestLookup(repo.rows, userId, fault).Ok? then Some(LatestLookup(repo.rows, userId, fault).value) else None
      ensures r.Ok? ==> (r.value.0 <==> NormalizeStatus(r.value.1, now) == Active)
      ensures r.Ok? && r.value.1.None? ==> !r.value.0 && forall m :: m in repo.rows ==> m.userId != userId
    {
      var current := repo.FindLatestByUserID(userId, fault);
      if current.Err? {
        if current.error == RecordNotFound {
          return Ok((false, None));
        }
        return Err(current.error);
      }
      var status := NormalizeStatus(Some(current.value), now);
      r := Ok((status == Active, Some(current.value)));
    }
  }
}
