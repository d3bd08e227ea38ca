/** Training targets and the progress recorded against them. Targets are
    only read here; progress rows are appended. */
module TargetRepository {
  import opened Base
  import opened Ordering

  datatype Target = Target(targetId: nat, userId: nat, period: string, title: string, goalValue: int,
                           startDate: Instant, endDate: Instant)

  datatype TargetProgress = TargetProgress(progressId: nat, targetId: nat, value: int, recordedAt: Instant)

  function TargetKey(t: Target): nat { t.targetId }
  function TargetOwner(t: Target): nat { t.userId }
  function ProgressTarget(p: TargetProgress): nat { p.targetId }

  /** `ORDER BY start_date desc`. */
  predicate LaterStart(a: Target, b: Target) { a.startDate >= b.startDate }

  /** `ORDER BY recorded_at desc`. */
  predicate LaterRecording(a: TargetProgress, b: TargetProgress) { a.recordedAt >= b.recordedAt }

  lemma OrdersAreTotalPreorders()
    ensures TotalPreorder(LaterStart) && TotalPreorder(LaterRecording)
  {
  }

  /** `AND period = ?`, added only for a non-empty period. */
  function InPeriod(targets: seq<Target>, period: string): (r: seq<Target>)
    ensures forall t :: t in r <==> t in targets && (period == "" || t.period == period)
  {
    if period == "" then targets
    else if targets == [] then []
    else InPeriod(targets[..|targets| - 1], period)
         + (if targets[|targets| - 1].period == period then [targets[|targets| - 1]] else [])
  }

  /** What FindByID answers on a targets table: the target with that key, not-found, or the fault. */
  function TargetLookup(targets: seq<Target>, targetId: nat, fault: Option<string>): (r: Result<Target>)
    ensures fault.Some? ==> r == Err(Driver(fault.value))
    ensures fault.None? ==> (r == Err(RecordNotFound) <==> forall t :: t in targets ==> t.targetId != targetId)
    ensures fault.None? ==> r.Ok? || r == Err(RecordNotFound)
    ensures r.Ok? ==> r.value in targets && r.value.targetId == targetId
  {
    if fault.Some? then Err(Driver(fault.value))
    else
      var found := Owned(targets, TargetKey, targetId);
      if found == [] then Err(RecordNotFound)
      else
        assert found[0] in found;
        Ok(found[0])
  }

  class TargetStore {
    var targets: seq<Target>
    var progress: seq<TargetProgress>
    /** The next value of target_progress's primary-key serial. */
    var nextProgressId: nat

    constructor (targets: seq<Target>)
      ensures this.targets == targets && progress == [] && nextProgressId == 1
    {
      this.targets := targets;
      progress := [];
      nextProgressId := 1;
    }

    /** targetRepository.ListByUserIDAndPeriod: the user's targets (of that
        period when one is given), latest start first. */
    method ListByUserIDAndPeriod(userId: nat, period: string, fault: Option<string>) returns (r: Result<seq<Target>>)
      ensures fault.Some? ==> r == Err(Driver(fault.value))
      ensures fault.None? ==> r == Ok(SortBy(InPeriod(Owned(targets, TargetOwner, userId), period), LaterStart))
      ensures r.Ok? ==> forall t :: t in r.value <==> t in targets && t.userId == userId && (period == "" || t.period == period)
      ensures r.Ok? ==> Sorted(r.value, LaterStart)
    {
      if fault.Some? {
        return Err(Driver(fault.value));
      }
      var filtered := InPeriod(Owned(targets, TargetOwner, userId), period);
      var sorted := SortBy(filtered, LaterStart);
      SameElements(sorted, filtered);
      OrdersAreTotalPreorders();
      SortBySorted(filtered, LaterStart);
      r := Ok(sorted);
    }

    /** targetRepository.FindByID: the target with that key, or not-found. */
    method FindByID(targetId: nat, fault: Option<string>) returns (r: Result<Target>)
      ensures r == TargetLookup(targets, targetId, fault)
      ensures r.Ok? ==> r.value in targets && r.value.targetId == targetId
    {
      if fault.Some? {
        return Err(Driver(fault.value));
      }
      var found := Owned(targets, TargetKey, targetId);
      if found == [] {
        return Err(RecordNotFound);
      }
      r := Ok(found[0]);
    }

    /** targetRepository.CreateProgress: appends the row under the next serial key. */
    method CreateProgress(targetId: nat, value: int, recordedAt: Instant, fault: Option<string>)
      returns (r: Result<TargetProgress>)
      modifies this
      ensures targets == old(targets) && nextProgressId == old(nextProgressId) + 1
      ensures fault.Some? ==> r == Err(Driver(fault.value)) && progress == old(progress)
      ensures fault.None? ==> r == Ok(TargetProgress(old(nextProgressId), targetId, value, recordedAt))
                              && progress == old(progress) + [r.value]
    {
      var p := TargetProgress(nextProgressId, targetId, value, recordedAt);
      nextProgressId := nextProgressId + 1;
      if fault.Some? {
        return Err(Driver(fault.value));
      }
      progress := progress + [p];
      r := Ok(p);
    }

    /** targetRepository.ListProgress: the target's progress, latest first,
        at most `limit` rows when limit > 0 and all of them otherwise. */
    method ListProgress(targetId: nat, limit: int, fault: Option<string>) returns (r: Result<seq<TargetProgress>>)
      ensures fault.Some? ==> r == Err(Driver(fault.value))
      ensures fault.None? ==> r == Ok(Take(SortBy(Owned(progress, ProgressTarget, targetId), LaterRecording), limit))
      ensures r.Ok? ==> forall p :: p in r.value ==> p in progress && p.targetId == targetId
      ensures r.Ok? && limit > 0 ==> |r.value| <= limit
      ensures r.Ok? ==> Sorted(r.value, LaterRecording)
    {
      if fault.Some? {
        return Err(Driver(fault.value));
      }
      var all := Select(progress, ProgressTarget, targetId, LaterRecording);
      OrdersAreTotalPreorders();
      TakeKeepsOrder(all, limit, LaterRecording);
      r := Ok(if 0 < limit < |all| then all[..limit] else all);
    }
  }
}
