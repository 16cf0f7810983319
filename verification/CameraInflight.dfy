/**
  What the counter of requests in flight counts, and when it becomes negative.  The framework's
  thread and the device's thread change it without a common lock.
 */
module CameraInflight {
  import opened Basics
  import opened ShutterTimes
  import opened CameraRequests

  /** The number of steps up to the last successful open of the camera. */
  function OpenedAt(steps: seq<Step>, id: nat): (n: nat)
    ensures n <= |steps|
  {
    if steps == [] then 0
    else if Last(steps) == Step(id, Open(0)) && !CamAt(Front(steps), id).busy then |steps|
    else OpenedAt(Front(steps), id)
  }

  /** The next step of the completion in progress sends the result of request `r`. */
  predicate Answers(c: Cam, r: nat) { c.job.Counting? && c.job.req == r }

  /** Step `k` sends the result of request `r`. */
  predicate DeliversAt(steps: seq<Step>, k: nat, r: nat)
    requires k < |steps|
  {
    steps[k].op.Advance? && Answers(CamAt(steps[..k], steps[k].id), r)
  }

  /** The result of request `r` was sent at step `from` or later. */
  predicate Delivered(steps: seq<Step>, r: nat, from: nat) {
    exists k :: from <= k < |steps| && DeliversAt(steps, k, r)
  }

  /** Requests accepted since the last open whose result has not been sent. */
  function Live(steps: seq<Step>, id: nat): set<nat> {
    set r | OpenedAt(steps, id) <= r < |steps| && IsRequest(steps, id, r) && !Delivered(steps, r, 0)
  }

  /** Requests accepted before the last open whose result was sent after it. */
  function Stale(steps: seq<Step>, id: nat): set<nat> {
    set r | 0 <= r < OpenedAt(steps, id) && IsRequest(steps, id, r) && Delivered(steps, r, OpenedAt(steps, id))
  }

  lemma DeliveredFront(steps: seq<Step>, r: nat, from: nat)
    requires steps != []
    ensures Delivered(steps, r, from) <==>
      || Delivered(Front(steps), r, from)
      || (from < |steps| && Last(steps).op.Advance? && Answers(CamAt(Front(steps), Last(steps).id), r))
  {
    var n := |steps| - 1;
    assert steps[..n] == Front(steps);
    if Delivered(Front(steps), r, from) {
      var k :| from <= k < n && DeliversAt(Front(steps), k, r);
      assert steps[..k] == Front(steps)[..k] && DeliversAt(steps, k, r);
    }
    if Delivered(steps, r, from) {
      var k :| from <= k < |steps| && DeliversAt(steps, k, r);
      if k < n {
        assert steps[..k] == Front(steps)[..k] && DeliversAt(Front(steps), k, r);
      }
    }
    if from < |steps| && Last(steps).op.Advance? && Answers(CamAt(Front(steps), Last(steps).id), r) {
      assert DeliversAt(steps, n, r);
    }
  }

  /** The result of a request is sent at most once: not before its completion, and not again after it. */
  lemma {:induction false} NotDelivered(steps: seq<Step>, r: nat)
    requires IsRun(steps)
    ensures !Entered(steps, r) ==> !Delivered(steps, r, 0)
    ensures forall id :: CamAt(steps, id).job != NoJob && CamAt(steps, id).job.req == r ==> !Delivered(steps, r, 0)
  {
    if steps != [] {
      var front := Front(steps);
      NotDelivered(front, r);
      RunKeeps(front);
      RunKeeps(steps);
      EnteredFront(steps, r);
      DeliveredFront(steps, r, 0);
      assert JobOk(front, Last(steps).id);
      forall id | CamAt(steps, id).job != NoJob && CamAt(steps, id).job.req == r ensures !Delivered(steps, r, 0) {
        assert JobOk(front, id) && JobOk(steps, id);
      }
    }
  }

  /** The request whose result the last step sends, if it is one of camera `id`. */
  function Answered(steps: seq<Step>, id: nat): Option<nat>
    requires steps != []
  {
    var c := CamAt(Front(steps), id);
    if Last(steps).id == id && Last(steps).op.Advance? && c.job.Counting? then Some(c.job.req) else None
  }

  /** Of the requests of a camera, a step answers at most the one its own completion works on. */
  lemma AnswerStep(steps: seq<Step>, id: nat, r: nat, from: nat)
    requires IsRun(steps) && steps != [] && from < |steps| && IsRequest(steps, id, r)
    ensures Delivered(steps, r, from) <==> Delivered(Front(steps), r, from) || Answered(steps, id) == Some(r)
  {
    RunKeeps(Front(steps));
    assert JobOk(Front(steps), Last(steps).id);
    DeliveredFront(steps, r, from);
    if r < |steps| - 1 {
      FrontRequest(steps, id, r);
    }
  }

  /** A step answers a request that was accepted before, or accepts one, or neither. */
  lemma AnswerIsOld(steps: seq<Step>, id: nat)
    requires IsRun(steps) && steps != [] && Answered(steps, id).Some?
    ensures IsRequest(Front(steps), id, Answered(steps, id).value) && !IsRequest(steps, id, |steps| - 1)
  {
    RunKeeps(Front(steps));
    assert JobOk(Front(steps), id);
  }

  /** How one step that is not an open changes the two sets. */
  lemma LiveStep(steps: seq<Step>, id: nat)
    requires IsRun(steps) && steps != [] && OpenedAt(steps, id) < |steps|
    ensures Live(steps, id) ==
      if Answered(steps, id).Some? then Live(Front(steps), id) - {Answered(steps, id).value}
      else if IsRequest(steps, id, |steps| - 1) then Live(Front(steps), id) + {|steps| - 1}
      else Live(Front(steps), id)
  {
    var n := |steps| - 1;
    assert IsRun(Front(steps));
    if Answered(steps, id).Some? { AnswerIsOld(steps, id); }
    hide IsRequest, Delivered, Answered, IsRun, CamAt;
    forall r: nat | r <= n
      ensures r in Live(steps, id) <==>
        && Answered(steps, id) != Some(r)
        && (r in Live(Front(steps), id) || (r == n && IsRequest(steps, id, n)))
    {
      if r < n { FrontRequest(steps, id, r); }
      if IsRequest(steps, id, r) { AnswerStep(steps, id, r, 0); }
      if r == n { NothingDelivered(Front(steps), n); }
    }
  }

  lemma StaleStep(steps: seq<Step>, id: nat)
    requires IsRun(steps) && steps != [] && OpenedAt(steps, id) < |steps|
    ensures Stale(steps, id) ==
      if Answered(steps, id).Some? && Answered(steps, id).value < OpenedAt(steps, id)
      then Stale(Front(steps), id) + {Answered(steps, id).value}
      else Stale(Front(steps), id)
  {
    var o := OpenedAt(steps, id);
    if Answered(steps, id).Some? { AnswerIsOld(steps, id); }
    hide Delivered, IsRun, CamAt, IsRequest, Answered;
    forall r: nat | r < o
      ensures r in Stale(steps, id) <==> r in Stale(Front(steps), id) || Answered(steps, id) == Some(r)
    {
      FrontRequest(steps, id, r);
      if IsRequest(steps, id, r) { AnswerStep(steps, id, r, o); }
    }
  }

  lemma NothingDelivered(steps: seq<Step>, r: nat)
    requires IsRun(steps) && r >= |steps|
    ensures !Delivered(steps, r, 0)
  {
    forall k | 0 <= k < |steps| ensures !DeliversAt(steps, k, r) {
      PrefixRun(steps, k);
      RunKeeps(steps[..k]);
      assert JobOk(steps[..k], steps[k].id);
    }
  }

  lemma {:induction false} PrefixRun(steps: seq<Step>, k: nat)
    requires IsRun(steps) && k <= |steps|
    ensures IsRun(steps[..k])
  {
    if k < |steps| {
      PrefixRun(Front(steps), k);
      assert Front(steps)[..k] == steps[..k];
    } else {
      assert steps[..k] == steps;
    }
  }

  // ---------------------------------------------------------------- updates that do not overlap

  /** The step does not write the counter while the other thread is between reading and writing it. */
  predicate Smooth(c: Cam, op: Op) {
    && (op.Store? || (op == Open(0) && !c.busy) ==> !c.job.Counting?)
    && (op.Advance? && c.job.Counting? ==> c.adding.None?)
  }

  /** Since the last open, which includes it, no update of the camera's counter overlaps another. */
  predicate Calm(steps: seq<Step>, id: nat) {
    steps != [] ==>
      && (Last(steps).id == id ==> Smooth(CamAt(Front(steps), id), Last(steps).op))
      && (OpenedAt(steps, id) == |steps| || Calm(Front(steps), id))
  }

  /** What a thread has read of the counter is what is there. */
  predicate Current(c: Cam) {
    (c.job.Counting? ==> c.job.seen == c.inflight) && (c.adding.Some? ==> c.adding.value == c.inflight)
  }

  lemma CurrentStep(c: Cam, op: Op)
    requires Smooth(c, op) && (op.Open? ==> c.adding.None?)
    requires Current(c) || (op == Open(0) && !c.busy)
    ensures Current(CamAfter(c, op))
  {
  }

  lemma {:induction false} CalmIsCurrent(steps: seq<Step>, id: nat)
    requires IsRun(steps) && Calm(steps, id)
    ensures Current(CamAt(steps, id))
  {
    if steps != [] {
      var front, st := Front(steps), Last(steps);
      if OpenedAt(steps, id) < |steps| {
        CalmIsCurrent(front, id);
      } else {
        OpenedNow(steps, id);
      }
      if st.id == id {
        CurrentStep(CamAt(front, id), st.op);
      }
    }
  }

  /**
    If no two updates overlapped since the last open, the counter is the number of requests
    accepted since then and not yet answered, less the number of answers since then to requests
    from before it.
   */
  lemma {:induction false} InflightIs(steps: seq<Step>, id: nat)
    requires IsRun(steps) && Calm(steps, id)
    ensures CamAt(steps, id).inflight == |Live(steps, id)| - |Stale(steps, id)|
  {
    if steps == [] {
      assert Live(steps, id) == {} && Stale(steps, id) == {};
    } else if OpenedAt(steps, id) == |steps| {
      OpenedNow(steps, id);
      assert Live(steps, id) == {} && Stale(steps, id) == {};
    } else {
      InflightIs(Front(steps), id);
      CalmIsCurrent(Front(steps), id);
      InflightStep(steps, id);
    }
  }

  lemma OpenedNow(steps: seq<Step>, id: nat)
    requires steps != [] && OpenedAt(steps, id) == |steps|
    ensures Last(steps) == Step(id, Open(0)) && !CamAt(Front(steps), id).busy && CamAt(steps, id).inflight == 0
  {
    assert OpenedAt(Front(steps), id) < |steps|;
  }

  /** The completion that sends its result next belongs to an unanswered request. */
  lemma CountingIs(steps: seq<Step>, id: nat)
    requires IsRun(steps) && CamAt(steps, id).job.Counting?
    ensures var r := CamAt(steps, id).job.req;
      r !in Stale(steps, id) && (r in Live(steps, id) <==> r >= OpenedAt(steps, id))
  {
    var r := CamAt(steps, id).job.req;
    RunKeeps(steps);
    assert JobOk(steps, id);
    NotDelivered(steps, r);
    assert !Delivered(steps, r, OpenedAt(steps, id));
  }

  /** What the step does to the counter. */
  lemma CounterStep(steps: seq<Step>, id: nat)
    requires steps != [] && OpenedAt(steps, id) < |steps| && Allowed(Front(steps), Last(steps))
    requires Current(CamAt(Front(steps), id))
    ensures CamAt(steps, id).inflight == CamAt(Front(steps), id).inflight +
      if Answered(steps, id).Some? then -1 else if IsRequest(steps, id, |steps| - 1) then 1 else 0
  {
  }

  lemma AddOne(s: set<nat>, x: nat)
    ensures x !in s ==> |s + {x}| == |s| + 1
    ensures x in s ==> |s - {x}| == |s| - 1
    ensures x !in s ==> s - {x} == s
  {
  }

  lemma InflightStep(steps: seq<Step>, id: nat)
    requires IsRun(steps) && steps != [] && OpenedAt(steps, id) < |steps|
    requires Current(CamAt(Front(steps), id))
    requires CamAt(Front(steps), id).inflight == |Live(Front(steps), id)| - |Stale(Front(steps), id)|
    ensures CamAt(steps, id).inflight == |Live(steps, id)| - |Stale(steps, id)|
  {
    var front := Front(steps);
    LiveStep(steps, id);
    StaleStep(steps, id);
    CounterStep(steps, id);
    assert |steps| - 1 !in Live(front, id) && OpenedAt(front, id) == OpenedAt(steps, id) && IsRun(front);
    hide Live, Stale, IsRun, CamAt, OpenedAt, IsRequest;
    if Answered(steps, id).Some? {
      CountingIs(front, id);
      AddOne(Live(front, id), Answered(steps, id).value);
      AddOne(Stale(front, id), Answered(steps, id).value);
    } else {
      AddOne(Live(front, id), |steps| - 1);
    }
  }

  // ---------------------------------------------------------------- when the counter goes negative

  /** The result of request `r` can still be sent. */
  ghost predicate Pending(steps: seq<Step>, id: nat, r: nat) {
    IsRequest(steps, id, r) && (!Entered(steps, r) || (CamAt(steps, id).job != NoJob && CamAt(steps, id).job.req == r))
  }

  lemma ConcatFront(steps: seq<Step>, more: seq<Step>)
    requires more != []
    ensures steps + more != [] && Front(steps + more) == steps + Front(more) && Last(steps + more) == Last(more)
  {
  }

  /** A request that is not pending never becomes so again. */
  lemma {:induction false} SettledStays(steps: seq<Step>, more: seq<Step>, id: nat, r: nat)
    requires IsRun(steps + more) && IsRequest(steps, id, r) && !Pending(steps, id, r)
    ensures IsRequest(steps + more, id, r) && !Pending(steps + more, id, r)
  {
    if more == [] {
      assert steps + more == steps;
    } else {
      ConcatFront(steps, more);
      SettledStays(steps, Front(more), id, r);
      EnteredFront(steps + more, r);
      FrontRequest(steps + more, id, r);
    }
  }

  lemma SettledNotDelivered(steps: seq<Step>, id: nat, r: nat, from: nat)
    requires IsRun(steps) && from <= |steps| && IsRequest(steps[..from], id, r) && !Pending(steps[..from], id, r)
    ensures !Delivered(steps, r, from)
  {
    hide IsRun, CamAt, Pending, IsRequest;
    forall k | from <= k < |steps| ensures !DeliversAt(steps, k, r) {
      PrefixRun(steps, k);
      assert steps[..k] == steps[..from] + steps[from..k];
      SettledStays(steps[..from], steps[from..k], id, r);
      SettledIdle(steps[..k], id, r, steps[k].id);
    }
  }

  lemma SettledIdle(steps: seq<Step>, id: nat, r: nat, other: nat)
    requires IsRun(steps) && IsRequest(steps, id, r) && !Pending(steps, id, r)
    ensures !Answers(CamAt(steps, other), r)
  {
    RunKeeps(steps);
    assert JobOk(steps, other);
  }

  /** If nothing was pending at the last open, no later answer is stale. */
  lemma NoStale(steps: seq<Step>, id: nat)
    requires IsRun(steps) && forall r :: !Pending(steps[..OpenedAt(steps, id)], id, r)
    ensures Stale(steps, id) == {}
  {
    var o := OpenedAt(steps, id);
    forall r: nat | r < o && IsRequest(steps, id, r) ensures !Delivered(steps, r, o) {
      RequestPrefix(steps, id, r, o);
      SettledNotDelivered(steps, id, r, o);
    }
  }

  lemma RequestPrefix(steps: seq<Step>, id: nat, r: nat, n: nat)
    requires r < n <= |steps|
    ensures IsRequest(steps, id, r) <==> IsRequest(steps[..n], id, r)
  {
  }

  /** If nothing was pending at the last open and no updates overlapped since, the counter is not negative. */
  lemma NeverNegative(steps: seq<Step>, id: nat)
    requires IsRun(steps) && Calm(steps, id) && forall r :: !Pending(steps[..OpenedAt(steps, id)], id, r)
    ensures CamAt(steps, id).inflight >= 0
  {
    InflightIs(steps, id);
    NoStale(steps, id);
  }

  /** One more step of the camera, which does not open it. */
  lemma AddedStep(steps: seq<Step>, st: Step)
    requires IsRun(steps) && Allowed(steps, st) && !st.op.Open?
    ensures IsRun(steps + [st]) && CamAt(steps + [st], st.id) == CamAfter(CamAt(steps, st.id), st.op)
    ensures OpenedAt(steps + [st], st.id) == OpenedAt(steps, st.id)
    ensures Calm(steps, st.id) && Smooth(CamAt(steps, st.id), st.op) ==> Calm(steps + [st], st.id)
    ensures forall r: nat :: r < |steps| ==> (IsRequest(steps + [st], st.id, r) <==> IsRequest(steps, st.id, r))
    ensures forall r :: Entered(steps + [st], r) <==> Entered(steps, r) || (st.op.Enter? && st.op.req == r)
  {
    AddStep(steps, st);
    var more := steps + [st];
    assert Front(more) == steps && Last(more) == st;
    forall r ensures Entered(more, r) <==> Entered(steps, r) || (st.op.Enter? && st.op.req == r) {
      EnteredFront(more, r);
    }
  }

  /** The completion in progress can run until it writes the counter. */
  lemma {:induction false} ToCounting(steps: seq<Step>, id: nat) returns (more: seq<Step>)
    requires IsRun(steps) && CamAt(steps, id).job != NoJob && !CamAt(steps, id).job.Counting?
    ensures IsRun(steps + more) && OpenedAt(steps + more, id) == OpenedAt(steps, id)
    ensures var c := CamAt(steps, id); CamAt(steps + more, id) == c.(job := Counting(c.job.req, c.inflight))
    ensures Calm(steps, id) ==> Calm(steps + more, id)
    decreases JobSteps(CamAt(steps, id).job)
  {
    hide IsRun, CamAt, OpenedAt, Calm, Entered;
    var st, c := Step(id, Advance), CamAt(steps, id);
    AddedStep(steps, st);
    NextJob(c);
    if c.job.Finishing? {
      more := [st];
    } else {
      var rest := ToCounting(steps + [st], id);
      more := [st] + rest;
      assert steps + more == steps + [st] + rest;
    }
  }

  lemma NextJob(c: Cam)
    requires c.job != NoJob && !c.job.Counting?
    ensures Advanced(c) == c.(job := Advanced(c).job) && Advanced(c).job != NoJob && Advanced(c).job.req == c.job.req
    ensures JobSteps(Advanced(c).job) < JobSteps(c.job)
    ensures Advanced(c).job.Counting? <==> c.job.Finishing?
    ensures c.job.Finishing? ==> Advanced(c).job == Counting(c.job.req, c.inflight)
  {
  }

  /** The completion in progress can run to its end. */
  lemma Drain(steps: seq<Step>, id: nat) returns (more: seq<Step>)
    requires IsRun(steps) && CamAt(steps, id).job != NoJob && Current(CamAt(steps, id))
    requires CamAt(steps, id).adding.None?
    ensures IsRun(steps + more) && OpenedAt(steps + more, id) == OpenedAt(steps, id)
    ensures CamAt(steps + more, id).inflight == CamAt(steps, id).inflight - 1
    ensures Calm(steps, id) ==> Calm(steps + more, id)
  {
    hide IsRun, CamAt, OpenedAt, Calm, Entered;
    var st := Step(id, Advance);
    var first := [];
    if CamAt(steps, id).job.Counting? {
      assert steps + first == steps;
    } else {
      first := ToCounting(steps, id);
    }
    AddedStep(steps + first, st);
    more := first + [st];
    assert steps + more == steps + first + [st];
  }

  /** A request pending at an open can be answered after it, which takes the counter to -1. */
  lemma PendingGoesNegative(steps: seq<Step>, id: nat, r: nat) returns (more: seq<Step>)
    requires IsRun(steps) && CamAt(steps, id).inflight == 0 && Pending(steps, id, r)
    requires Current(CamAt(steps, id)) && CamAt(steps, id).adding.None?
    ensures IsRun(steps + more) && OpenedAt(steps + more, id) == OpenedAt(steps, id)
    ensures CamAt(steps + more, id).inflight == -1
    ensures Calm(steps, id) ==> Calm(steps + more, id)
  {
    hide IsRun, CamAt, OpenedAt, Calm, Entered;
    if CamAt(steps, id).job != NoJob {
      more := Drain(steps, id);
    } else {
      var st1, st2 := Step(id, Configure(0, 0)), Step(id, Enter(r, false));
      var s1 := steps + [st1];
      AddedStep(steps, st1);
      AddedStep(s1, st2);
      var rest := Drain(s1 + [st2], id);
      more := [st1] + [st2] + rest;
      assert steps + more == s1 + [st2] + rest;
    }
  }

  lemma OpenedCurrent(steps: seq<Step>, id: nat)
    requires IsRun(steps) && steps != [] && OpenedAt(steps, id) == |steps|
    ensures CamAt(steps, id).inflight == 0 && CamAt(steps, id).adding.None?
    ensures Calm(steps, id) ==> Current(CamAt(steps, id))
  {
    OpenedNow(steps, id);
  }

  /**
    After a successful open, as long as no two updates overlap, the counter can never become
    negative before the next open exactly when no request is pending at the open: none that the
    device has not called back for, and none whose completion is in progress.
   */
  lemma OpenSafeIff(steps: seq<Step>, id: nat)
    requires IsRun(steps) && steps != [] && OpenedAt(steps, id) == |steps| && Calm(steps, id)
    ensures (forall more :: IsRun(steps + more) && OpenedAt(steps + more, id) == |steps| && Calm(steps + more, id) ==>
               CamAt(steps + more, id).inflight >= 0)
            <==> (forall r :: !Pending(steps, id, r))
  {
    if forall r :: !Pending(steps, id, r) {
      forall more | IsRun(steps + more) && OpenedAt(steps + more, id) == |steps| && Calm(steps + more, id)
        ensures CamAt(steps + more, id).inflight >= 0
      {
        assert (steps + more)[..|steps|] == steps;
        NeverNegative(steps + more, id);
      }
    } else {
      var r :| Pending(steps, id, r);
      OpenedCurrent(steps, id);
      var more := PendingGoesNegative(steps, id, r);
    }
  }

  // ---------------------------------------------------------------- updates that overlap

  lemma {:induction false} EnteredOld(steps: seq<Step>, r: nat)
    requires IsRun(steps) && r >= |steps|
    ensures !Entered(steps, r)
  {
    if steps != [] {
      EnteredOld(Front(steps), r);
      EnteredFront(steps, r);
    }
  }

  /** The framework submits a request. */
  lemma Submit(steps: seq<Step>, id: nat) returns (more: seq<Step>, r: nat)
    requires IsRun(steps) && CamAt(steps, id).adding.None?
    ensures IsRun(more) && OpenedAt(more, id) == OpenedAt(steps, id) && steps <= more
    ensures CamAt(more, id) == CamAt(steps, id).(settingsSet := true, inflight := CamAt(steps, id).inflight + 1)
    ensures IsRequest(more, id, r) && !Entered(more, r)
    ensures forall x :: Entered(more, x) <==> Entered(steps, x)
  {
    hide IsRun, CamAt, OpenedAt, Calm, Entered;
    var st := Step(id, Request(false, false, 1, true));
    AddedStep(steps, st);
    AddedStep(steps + [st], Step(id, Store));
    more := steps + [st] + [Step(id, Store)];
    r := |steps| + 1;
    EnteredOld(steps + [st], r);
  }

  /** The device calls back for a request, and the completion runs until it writes the counter. */
  lemma CallBack(steps: seq<Step>, id: nat, r: nat) returns (more: seq<Step>)
    requires IsRun(steps) && CamAt(steps, id).job == NoJob && CamAt(steps, id).connected
    requires IsRequest(steps, id, r) && !Entered(steps, r)
    ensures IsRun(more) && OpenedAt(more, id) == OpenedAt(steps, id) && steps <= more
    ensures CamAt(more, id) == CamAt(steps, id).(job := Counting(r, CamAt(steps, id).inflight))
  {
    hide IsRun, CamAt, OpenedAt, Calm, Entered;
    var st := Step(id, Enter(r, false));
    AddedStep(steps, st);
    var rest := ToCounting(steps + [st], id);
    more := steps + [st] + rest;
  }

  /**
    If updates may overlap, the counter can always become negative: a request submitted while
    a completion is between reading and writing the counter is not counted, and its own
    completion takes the counter to -1.
   */
  lemma OverlapGoesNegative(steps: seq<Step>, id: nat) returns (run: seq<Step>)
    requires IsRun(steps) && CamAt(steps, id).inflight == 0
    requires CamAt(steps, id).job == NoJob && CamAt(steps, id).adding.None?
    ensures IsRun(run) && steps <= run && OpenedAt(run, id) == OpenedAt(steps, id)
    ensures CamAt(run, id).inflight == -1
  {
    hide IsRun, CamAt, OpenedAt, Calm, Entered;
    var configure, st := Step(id, Configure(0, 0)), Step(id, Advance);
    AddedStep(steps, configure);
    var s1, a := Submit(steps + [configure], id);
    var s2 := CallBack(s1, id, a);
    var s3, b := Submit(s2, id);
    AddedStep(s3, st);
    var s4 := CallBack(s3 + [st], id, b);
    AddedStep(s4, st);
    run := s4 + [st];
  }
}
