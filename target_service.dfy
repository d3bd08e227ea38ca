/** The targets endpoints: list my targets, record progress against one of
    my targets, and read a target's progress history. A target of another
    user is answered as if it did not exist. Times are shown in RFC 3339;
    the model keeps them as instants and leaves formatting and parsing
    abstract (a TimeParser). */
module TargetService {
  import opened Base
  import opened Ordering
  import opened TargetRepository

  const TargetNotFound: Error := Message("target not found")

  /** time.Parse(time.RFC3339, s): the instant the text denotes, if it is well formed. */
  type TimeParser = string -> Option<Instant>

  datatype TargetResponse = TargetResponse(targetId: nat, period: string, title: string, goalValue: int,
                                           startDate: Instant, endDate: Instant)

  datatype AddTargetProgressRequest = AddTargetProgressRequest(value: int, recordedAt: string)

  datatype TargetProgressResponse = TargetProgressResponse(progressId: nat, value: int, recordedAt: Instant)

  function ToTargetResponse(t: Target): TargetResponse
  {
    TargetResponse(t.targetId, t.period, t.title, t.goalValue, t.startDate, t.endDate)
  }

  function ToProgressResponse(p: TargetProgress): TargetProgressResponse
  {
    TargetProgressResponse(p.progressId, p.value, p.recordedAt)
  }

  /** When a progress entry is recorded: the given time if it parses, the current time otherwise. */
  function RecordedTime(recordedAt: string, now: Instant, parse: TimeParser): (when: Instant)
    ensures recordedAt == "" || parse(recordedAt).None? ==> when == now
    ensures recordedAt != "" && parse(recordedAt).Some? ==> when == parse(recordedAt).value
  {
    if recordedAt != "" && parse(recordedAt).Some? then parse(recordedAt).value else now
  }

  /** What the ownership check answers for a FindByID result: the target
      when it is the user's, "target not found" when it is another's, and a
      lookup error unchanged. */
  function OwnedTarget(found: Result<Target>, userId: nat): (r: Result<Target>)
    ensures found.Err? ==> r == found
    ensures found.Ok? && found.value.userId != userId ==> r == Err(TargetNotFound)
    ensures r.Ok? <==> found.Ok? && found.value.userId == userId
    ensures r.Ok? ==> r == found
  {
    if found.Err? then found
    else if found.value.userId != userId then Err(TargetNotFound)
    else found
  }

  /** Progress recorded against a target shows up in its full history, and
      it heads the history when no earlier entry is recorded later. */
  lemma RecordedProgressIsListed(progress: seq<TargetProgress>, p: TargetProgress)
    ensures p in SortBy(Owned(progress + [p], ProgressTarget, p.targetId), LaterRecording)
    ensures (forall q :: q in progress && q.targetId == p.targetId ==> q.recordedAt <= p.recordedAt) ==>
              Head(SortBy(Owned(progress + [p], ProgressTarget, p.targetId), LaterRecording)) == Some(p)
  {
    var s := progress + [p];
    var listed := SortBy(Owned(s, ProgressTarget, p.targetId), LaterRecording);
    assert p in s;
    SameElements(listed, Owned(s, ProgressTarget, p.targetId));
    HeadIsLatest(s, ProgressTarget, p.targetId, LaterRecording);
    OrdersAreTotalPreorders();
    LatestIsFirst(progress, ProgressTarget, p.targetId, LaterRecording);
    assert s[..|s| - 1] == progress;
  }

  /** The response loop of MyTargets: one response per target, in order. */
  method TargetResponses(items: seq<Target>) returns (resp: seq<TargetResponse>)
    ensures |resp| == |items| && forall k :: 0 <= k < |items| ==> resp[k] == ToTargetResponse(items[k])
  {
    resp := [];
    for k := 0 to |items|
      invariant |resp| == k
      invariant forall j :: 0 <= j < k ==> resp[j] == ToTargetResponse(items[j])
    {
      resp := resp + [ToTargetResponse(items[k])];
    }
  }

  /** The response loop of ProgressHistory: one response per entry, in order. */
  method ProgressResponses(items: seq<TargetProgress>) returns (resp: seq<TargetProgressResponse>)
    ensures |resp| == |items| && forall k :: 0 <= k < |items| ==> resp[k] == ToProgressResponse(items[k])
  {
    resp := [];
    for k := 0 to |items|
      invariant |resp| == k
      invariant forall j :: 0 <= j < k ==> resp[j] == ToProgressResponse(items[j])
    {
      resp := resp + [ToProgressResponse(items[k])];
    }
  }

  /** The response describes one of the user's targets of that period (any period when it is empty). */
  ghost predicate DescribesOwn(targets: seq<Target>, userId: nat, period: string, resp: TargetResponse)
  {
    exists t :: t in targets && t.userId == userId && (period == "" || t.period == period) && resp == ToTargetResponse(t)
  }

  /** Each response of a listing describes one of the user's targets of that period. */
  lemma ResponsesOfListed(targets: seq<Target>, userId: nat, period: string, items: seq<Target>,
                          resp: seq<TargetResponse>)
    requires forall t :: t in items ==> t in targets && t.userId == userId && (period == "" || t.period == period)
    requires |resp| == |items| && forall k :: 0 <= k < |items| ==> resp[k] == ToTargetResponse(items[k])
    ensures forall k :: 0 <= k < |resp| ==> DescribesOwn(targets, userId, period, resp[k])
  {
    forall k | 0 <= k < |resp|
      ensures DescribesOwn(targets, userId, period, resp[k])
    {
      assert items[k] in items;
    }
  }

  class TargetService {
    const repo: TargetStore

    constructor (repo: TargetStore)
      ensures this.repo == repo
    {
      this.repo := repo;
    }

    /** targetService.MyTargets: one response per listed target, in order. */
    method MyTargets(userId: nat, period: string, fault: Option<string>) returns (r: Result<seq<TargetResponse>>)
      ensures fault.Some? ==> r == Err(Driver(fault.value))
      ensures fault.None? ==> r.Ok?
      ensures r.Ok? ==>
                var items := SortBy(InPeriod(Owned(repo.targets, TargetOwner, userId), period), LaterStart);
                |r.value| == |items| && forall k :: 0 <= k < |items| ==> r.value[k] == ToTargetResponse(items[k])
      ensures r.Ok? ==> forall k :: 0 <= k < |r.value| ==> DescribesOwn(repo.targets, userId, period, r.value[k])
    {
      var items := repo.ListByUserIDAndPeriod(userId, period, fault);
      if items.Err? {
        return Err(items.error);
      }
      var resp := TargetResponses(items.value);
      ResponsesOfListed(repo.targets, userId, period, items.value, resp);
      r := Ok(resp);
    }

    /** targetService.AddProgress: only on the user's own target; the entry
        is timed by the request when its time parses, by the clock otherwise. */
    method AddProgress(userId: nat, targetId: nat, req: AddTargetProgressRequest, now: Instant, parse: TimeParser,
                       findFault: Option<string>, createFault: Option<string>)
      returns (r: Result<TargetProgressResponse>)
      modifies repo
      ensures repo.targets == old(repo.targets)
      ensures OwnedTarget(TargetLookup(old(repo.targets), targetId, findFault), userId).Err? ==>
                r == Err(OwnedTarget(TargetLookup(old(repo.targets), targetId, findFault), userId).error)
                && repo.progress == old(repo.progress)
      ensures OwnedTarget(TargetLookup(old(repo.targets), targetId, findFault), userId).Ok? ==>
                var p := TargetProgress(old(repo.nextProgressId), targetId, req.value, RecordedTime(req.recordedAt, now, parse));
                && (createFault.Some? ==> r == Err(Driver(createFault.value)) && repo.progress == old(repo.progress))
                && (createFault.None? ==> r == Ok(ToProgressResponse(p)) && repo.progress == old(repo.progress) + [p])
    {
      var found := repo.FindByID(targetId, findFault);
      var owned := OwnedTarget(found, userId);
      if owned.Err? {
        return Err(owned.error);
      }
      var when := RecordedTime(req.recordedAt, now, parse);
      var p := repo.CreateProgress(targetId, req.value, when, createFault);
      if p.Err? {
        return Err(p.error);
      }
      r := Ok(ToProgressResponse(p.value));
    }

    /** targetService.ProgressHistory: the history of the user's own target,
        one response per entry, in order. */
    method ProgressHistory(userId: nat, targetId: nat, limit: int, findFault: Option<string>, listFault: Option<string>)
      returns (r: Result<seq<TargetProgressResponse>>)
      ensures OwnedTarget(TargetLookup(repo.targets, targetId, findFault), userId).Err? ==>
                r == Err(OwnedTarget(TargetLookup(repo.targets, targetId, findFault), userId).error)
      ensures OwnedTarget(TargetLookup(repo.targets, targetId, findFault), userId).Ok? && listFault.Some? ==>
                r == Err(Driver(listFault.value))
      ensures r.Ok? ==>
                && OwnedTarget(TargetLookup(repo.targets, targetId, findFault), userId).Ok?
                && var items := Take(SortBy(Owned(repo.progress, ProgressTarget, targetId), LaterRecording), limit);
                   |r.value| == |items| && forall k :: 0 <= k < |items| ==> r.value[k] == ToProgressResponse(items[k])
      ensures OwnedTarget(TargetLookup(repo.targets, targetId, findFault), userId).Ok? && listFault.None? ==> r.Ok?
    {
      var found := repo.FindByID(targetId, findFault);
      var owned := OwnedTarget(found, userId);
      if owned.Err? {
        return Err(owned.error);
      }
      var items := repo.ListProgress(targetId, limit, listFault);
      if items.Err? {
        return Err(items.error);
      }
      var resp := ProgressResponses(items.value);
      r := Ok(resp);
    }
  }
}
