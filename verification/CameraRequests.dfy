/**
  The request lifecycle of camera/3_4/camera.cpp.  Results of the device layer (connect,
  validation, stream setup, fences, metadata) are inputs.  A completion runs in the device's
  thread beside the framework's calls, so it is a sequence of steps that other steps can
  come between; `ShutterTimes` says what these steps do with the last shutter time.  Both
  threads change the counter of requests in flight, each by a read and a write of its own.
 */
module CameraRequests {
  import opened Basics
  import opened ShutterTimes
  import opened ShutterOrder

  const EBUSY: int := 16
  const EINVAL: int := 22
  const ENODEV: int := 19

  /** Where the completion in progress is.  The device calls back one completion of a camera at a time. */
  datatype Job =
    | NoJob
    | Failing(req: nat)              // reports an error
    | Comparing(req: nat)            // compares its sensor time with the last shutter time
    | Reading(req: nat)              // reads the last shutter time
    | Writing(req: nat)              // writes the new one
    | Reloading(req: nat)            // reads it again
    | Notifying(req: nat)            // sends it
    | Finishing(req: nat)            // reads the counter of requests in flight
    | Counting(req: nat, seen: int)  // writes the counter and sends the result

  /**
    The fields of a camera object, its completion in progress, and what a request in progress
    has read of the counter.
   */
  datatype Cam = Cam(busy: bool, settingsSet: bool, inflight: int, connected: bool, job: Job, adding: Option<int>)

  const NEW_CAM: Cam := Cam(false, false, 0, false, NoJob, None)

  datatype Op =
    | Open(connect: int)
    | Close
    | Configure(validate: int, setup: int)
    | Request(missing: bool, empty: bool, buffers: nat, fencesOk: bool)  // up to reading the counter
    | Store                       // an accepted request writes the counter and goes to the device
    | Enter(req: nat, err: bool)  // the device calls `completeRequest`
    | Advance                     // the completion makes its next step

  // ---------------------------------------------------------------- one camera

  /** The return code of an operation (0 for the steps of a completion, which returns nothing). */
  function Code(c: Cam, op: Op): int {
    match op
    case Open(connect) => if c.busy then -EBUSY else connect
    case Close => if !c.busy then -EINVAL else 0
    case Configure(validate, setup) => if validate != 0 then validate else setup
    case Request(missing, empty, buffers, fencesOk) =>
      if missing then -EINVAL
      else if empty && !c.settingsSet then -EINVAL
      else if buffers == 0 then -EINVAL
      else if !fencesOk then -ENODEV
      else 0
    case Store => 0
    case Enter(_, _) => 0
    case Advance => 0
  }

  /** The camera after the next step of its completion. */
  function Advanced(c: Cam): Cam {
    match c.job
    case NoJob => c
    case Failing(r) => c.(job := Finishing(r))
    case Comparing(r) => c.(job := Reading(r))
    case Reading(r) => c.(job := Writing(r))
    case Writing(r) => c.(job := Reloading(r))
    case Reloading(r) => c.(job := Notifying(r))
    case Notifying(r) => c.(job := Finishing(r))
    case Finishing(r) => c.(job := Counting(r, c.inflight))
    case Counting(_, seen) => c.(job := NoJob, inflight := seen - 1)
  }

  function CamAfter(c: Cam, op: Op): Cam {
    match op
    case Open(_) => if Code(c, op) == 0 then c.(busy := true, inflight := 0) else c
    case Close => if Code(c, op) == 0 then c.(busy := false, connected := false) else c
    case Configure(validate, setup) =>
      var d := if validate == 0 then c.(connected := true) else c;
      if Code(c, op) == 0 then d.(settingsSet := false) else d
    case Request(_, _, _, _) =>
      if Code(c, op) == 0 then c.(settingsSet := true, adding := Some(c.inflight)) else c
    case Store => if c.adding.Some? then c.(inflight := c.adding.value + 1, adding := None) else c
    case Enter(r, err) => if !c.connected then c else if err then c.(job := Failing(r)) else c.(job := Comparing(r))
    case Advance => Advanced(c)
  }

  /** What a step does with the shared shutter time. */
  function EventOf(c: Cam, op: Op): seq<Event> {
    if !op.Advance? then []
    else match c.job
      case Comparing(r) => [CompareClock(r)]
      case Reading(r) => [ReadClock(r)]
      case Writing(r) => [WriteClock(r)]
      case Reloading(r) => [ReloadClock(r)]
      case Notifying(r) => [SendShutter(r)]
      case _ => []
  }

  // ---------------------------------------------------------------- runs of all cameras

  /** One step of camera `id`.  A request is named by the position of its `Store` in the run. */
  datatype Step = Step(id: nat, op: Op)

  /** Camera `id` after the steps. */
  function CamAt(steps: seq<Step>, id: nat): Cam {
    if steps == [] then NEW_CAM
    else if Last(steps).id == id then CamAfter(CamAt(Front(steps), id), Last(steps).op)
    else CamAt(Front(steps), id)
  }

  /** The accesses to the shared shutter time, by all cameras. */
  function Events(steps: seq<Step>): seq<Event> {
    if steps == [] then []
    else Events(Front(steps)) + EventOf(CamAt(Front(steps), Last(steps).id), Last(steps).op)
  }

  /** Step `k` returned 0. */
  predicate Accepted(steps: seq<Step>, k: nat)
    requires k < |steps|
  {
    Code(CamAt(steps[..k], steps[k].id), steps[k].op) == 0
  }

  /** Step `k` hands an accepted request of camera `id` to the device. */
  predicate IsRequest(steps: seq<Step>, id: nat, k: nat) {
    k < |steps| && steps[k] == Step(id, Store)
  }

  /** The device has called back for request `r`. */
  predicate Entered(steps: seq<Step>, r: nat) {
    exists k :: 0 <= k < |steps| && steps[k].op.Enter? && steps[k].op.req == r
  }

  /**
    The device calls back for each accepted request at most once, and for one at a time.  The
    framework makes one call to a camera at a time.
   */
  predicate Allowed(steps: seq<Step>, st: Step) {
    var c := CamAt(steps, st.id);
    match st.op
    case Enter(r, _) => IsRequest(steps, st.id, r) && !Entered(steps, r) && (c.job == NoJob || !c.connected)
    case Advance => c.job != NoJob
    case Store => c.adding.Some?
    case _ => c.adding.None?
  }

  predicate IsRun(steps: seq<Step>) {
    steps == [] || (IsRun(Front(steps)) && Allowed(Front(steps), Last(steps)))
  }

  lemma FrontRequest(steps: seq<Step>, id: nat, k: nat)
    requires steps != [] && k < |steps| - 1
    ensures IsRequest(steps, id, k) <==> IsRequest(Front(steps), id, k)
  {
  }

  // ---------------------------------------------------------------- the completions of a run

  /** The completion in progress works on an accepted request of its own camera. */
  ghost predicate JobNamed(steps: seq<Step>, id: nat) {
    var job := CamAt(steps, id).job;
    job != NoJob ==> IsRequest(steps, id, job.req) && Entered(steps, job.req)
  }

  /** The completion has its next access to the shutter time before it. */
  predicate InClock(job: Job) {
    job.Comparing? || job.Reading? || job.Writing? || job.Reloading? || job.Notifying?
  }

  /** How many accesses to the shutter time it has made. */
  function JobOrder(job: Job): nat
    requires InClock(job)
  {
    match job
    case Comparing(_) => 0
    case Reading(_) => 1
    case Writing(_) => 2
    case Reloading(_) => 3
    case Notifying(_) => 4
  }

  ghost predicate JobStage(steps: seq<Step>, id: nat) {
    var job := CamAt(steps, id).job;
    InClock(job) ==> Stage(Events(steps), job.req) == JobOrder(job)
  }

  ghost predicate JobOk(steps: seq<Step>, id: nat) { JobNamed(steps, id) && JobStage(steps, id) }

  ghost predicate RunInv(steps: seq<Step>) {
    && Proper(Events(steps))
    && (forall id :: JobOk(steps, id))
    && (forall r :: !Entered(steps, r) ==> Stage(Events(steps), r) == 0)
  }

  lemma EnteredFront(steps: seq<Step>, r: nat)
    requires steps != []
    ensures Entered(steps, r) <==> Entered(Front(steps), r) || (Last(steps).op.Enter? && Last(steps).op.req == r)
  {
    if Entered(Front(steps), r) {
      var k :| 0 <= k < |Front(steps)| && Front(steps)[k].op.Enter? && Front(steps)[k].op.req == r;
      assert steps[k] == Front(steps)[k];
    }
  }

  /** The accesses after one more step. */
  lemma EventsStep(steps: seq<Step>)
    requires steps != []
    ensures var c := CamAt(Front(steps), Last(steps).id);
      if EventOf(c, Last(steps).op) == [] then Events(steps) == Events(Front(steps))
      else && Events(steps) != [] && Front(Events(steps)) == Events(Front(steps))
           && Last(steps).op.Advance? && c.job != NoJob && Last(Events(steps)).req == c.job.req
           && EventOf(c, Advance) == [Last(Events(steps))]
  {
    hide CamAt;
    var c, es := CamAt(Front(steps), Last(steps).id), Events(Front(steps));
    EventShape(c, Last(steps).op);
    if EventOf(c, Last(steps).op) != [] {
      var e := EventOf(c, Last(steps).op)[0];
      assert Events(steps) == es + [e];
    }
  }

  lemma EventShape(c: Cam, op: Op)
    ensures EventOf(c, op) != [] ==>
      |EventOf(c, op)| == 1 && op.Advance? && c.job != NoJob && EventOf(c, op)[0].req == c.job.req
  {
  }

  lemma StageStep(steps: seq<Step>, r: nat)
    requires steps != []
    ensures var c := CamAt(Front(steps), Last(steps).id);
      Stage(Events(steps), r) == Stage(Events(Front(steps)), r) +
        if EventOf(c, Last(steps).op) != [] && c.job.req == r then 1 else 0
  {
    EventsStep(steps);
  }

  lemma JobNamedStep(steps: seq<Step>, id: nat)
    requires steps != [] && Allowed(Front(steps), Last(steps)) && JobNamed(Front(steps), id)
    ensures JobNamed(steps, id)
  {
    hide Events;
    var st, before, after := Last(steps), CamAt(Front(steps), id), CamAt(steps, id);
    if after.job != NoJob {
      var r := after.job.req;
      assert || (st.id == id && st.op.Enter? && st.op.req == r && before.connected)
             || (before.job != NoJob && before.job.req == r);
      EnteredFront(steps, r);
      FrontRequest(steps, id, r);
    }
  }

  /** How a step of its camera changes the completion in progress. */
  lemma JobMoves(c: Cam, op: Op)
    ensures var d := CamAfter(c, op);
      InClock(d.job) ==>
        || (op.Enter? && d.job == Comparing(op.req) && (c.connected || d.job == c.job))
        || (!op.Advance? && d.job == c.job)
        || (op.Advance? && InClock(c.job) && d.job.req == c.job.req && JobOrder(d.job) == JobOrder(c.job) + 1)
    ensures op.Advance? && InClock(c.job) ==> EventOf(c, op) != []
    ensures EventOf(c, op) != [] ==> op.Advance? && InClock(c.job)
  {
  }

  lemma JobStageStep(steps: seq<Step>, id: nat)
    requires steps != [] && Allowed(Front(steps), Last(steps)) && RunInv(Front(steps))
    ensures JobStage(steps, id)
  {
    var front, st := Front(steps), Last(steps);
    var job := CamAt(steps, id).job;
    assert JobOk(front, id) && JobOk(front, st.id);
    assert st.id == id ==> job == CamAfter(CamAt(front, id), st.op).job;
    assert st.id != id ==> job == CamAt(front, id).job;
    JobMoves(CamAt(front, st.id), st.op);
    hide Entered, Events, Proper, Stage, CamAfter, CamAt, EventOf, JobOrder;
    if InClock(job) {
      StageStep(steps, job.req);
    }
  }

  lemma {:induction false} RunKeeps(steps: seq<Step>)
    requires IsRun(steps)
    ensures RunInv(steps)
  {
    if steps != [] {
      var front, st := Front(steps), Last(steps);
      RunKeeps(front);
      forall id ensures JobOk(steps, id) {
        assert JobOk(front, id);
        JobNamedStep(steps, id);
        JobStageStep(steps, id);
      }
      assert JobOk(front, st.id);
      EventsStep(steps);
      forall r | !Entered(steps, r) ensures Stage(Events(steps), r) == 0 {
        EnteredFront(steps, r);
        StageStep(steps, r);
      }
    }
  }

  // ---------------------------------------------------------------- settings

  /** Step `k` is a request to camera `id` that passes all checks. */
  predicate AcceptedRequest(steps: seq<Step>, id: nat, k: nat) {
    k < |steps| && steps[k].id == id && steps[k].op.Request? && Accepted(steps, k)
  }

  /** Request `j` gave settings to camera `id`, and no successful configuration of it follows before `k`. */
  ghost predicate SettingsAt(steps: seq<Step>, id: nat, j: nat, k: nat)
    requires k <= |steps|
  {
    && j < k && AcceptedRequest(steps, id, j) && !steps[j].op.empty
    && forall m :: j < m < k && steps[m].id == id && steps[m].op.Configure? ==> !Accepted(steps, m)
  }

  lemma SettingsPrefix(steps: seq<Step>, id: nat, j: nat, n: nat)
    requires n <= |steps| && SettingsAt(steps[..n], id, j, n)
    ensures SettingsAt(steps, id, j, n)
  {
    var p := steps[..n];
    assert p[..j] == steps[..j] && Accepted(p, j);
    forall m | j < m < n && steps[m].id == id && steps[m].op.Configure? ensures !Accepted(steps, m) {
      assert p[..m] == steps[..m] && p[m] == steps[m];
    }
  }

  /** The settings flag of a camera is set only if a request with settings was accepted since its last configuration. */
  lemma {:induction false} SettingsWitness(steps: seq<Step>, id: nat) returns (j: nat)
    requires CamAt(steps, id).settingsSet
    ensures SettingsAt(steps, id, j, |steps|)
  {
    var n := |steps| - 1;
    var before, st := Front(steps), Last(steps);
    if st.id == id && st.op.Request? && !st.op.empty && Code(CamAt(before, id), st.op) == 0 {
      j := n;
    } else {
      j := SettingsWitness(before, id);
      SettingsPrefix(steps, id, j, n);
      assert steps[..n] == before;
    }
  }

  /** And it stays set until the next successful configuration. */
  lemma {:induction false} SettingsStay(steps: seq<Step>, id: nat, j: nat)
    requires SettingsAt(steps, id, j, |steps|)
    ensures CamAt(steps, id).settingsSet
  {
    var n := |steps| - 1;
    assert steps[..n] == Front(steps);
    if j < n {
      assert Front(steps)[..j] == steps[..j];
      forall m | j < m < n && steps[m].id == id && steps[m].op.Configure? ensures !Accepted(Front(steps), m) {
        assert !Accepted(steps, m) && Front(steps)[..m] == steps[..m];
      }
      SettingsStay(Front(steps), id, j);
      assert Last(steps).id == id && Last(steps).op.Configure? ==> !Accepted(steps, n);
    }
  }

  /**
    A request without settings that has buffers and good fences is accepted if and only if a
    request with settings was accepted before by the same camera, with no successful
    `configureStreams` of it in between.
   */
  lemma EmptyRequestIff(steps: seq<Step>, id: nat, k: nat, buffers: nat)
    requires k < |steps| && steps[k] == Step(id, Request(false, true, buffers, true)) && buffers > 0
    ensures Accepted(steps, k) <==> exists j :: SettingsAt(steps, id, j, k)
  {
    if Accepted(steps, k) {
      var j := SettingsWitness(steps[..k], id);
      SettingsPrefix(steps, id, j, k);
    }
    if exists j: nat :: SettingsAt(steps, id, j, k) {
      var j: nat :| SettingsAt(steps, id, j, k);
      var p := steps[..k];
      assert p[..j] == steps[..j];
      forall m | j < m < k && p[m].id == id && p[m].op.Configure? ensures !Accepted(p, m) {
        assert !Accepted(steps, m) && p[..m] == steps[..m];
      }
      SettingsStay(p, id, j);
    }
  }

  // ---------------------------------------------------------------- open and close

  /** Between two successful opens of a camera there is a successful close. */
  lemma {:induction false} ClosedBetweenOpens(steps: seq<Step>, id: nat, j: nat) returns (m: nat)
    requires j < |steps| && steps[j].id == id && steps[j].op.Open? && Accepted(steps, j)
    requires !CamAt(steps, id).busy
    ensures j < m < |steps| && steps[m].id == id && steps[m].op.Close? && Accepted(steps, m)
  {
    var n := |steps| - 1;
    assert steps[..n] == Front(steps);
    if j < n && !CamAt(Front(steps), id).busy {
      assert Front(steps)[..j] == steps[..j];
      m := ClosedBetweenOpens(Front(steps), id, j);
      assert Front(steps)[..m] == steps[..m];
    } else {
      m := n;
    }
  }

  /** After a close, every completion is dropped until a configuration passes validation. */
  lemma {:induction false} ClosedIsSilent(steps: seq<Step>, id: nat, k: nat, r: nat, err: bool)
    requires k < |steps| && steps[k].id == id && steps[k].op.Close? && Accepted(steps, k)
    requires forall m :: k < m < |steps| && steps[m].id == id && steps[m].op.Configure? ==> steps[m].op.validate != 0
    ensures !CamAt(steps, id).connected && CamAfter(CamAt(steps, id), Enter(r, err)) == CamAt(steps, id)
  {
    var n := |steps| - 1;
    assert steps[..n] == Front(steps);
    if k < n {
      assert Front(steps)[..k] == steps[..k];
      ClosedIsSilent(Front(steps), id, k, r, err);
    }
  }

  /** Step `j` opened camera `id`, and no successful close of it follows. */
  ghost predicate OpenSince(steps: seq<Step>, id: nat, j: nat) {
    && j < |steps| && steps[j].id == id && steps[j].op.Open? && Accepted(steps, j)
    && forall m :: j < m < |steps| && steps[m] == Step(id, Close) ==> !Accepted(steps, m)
  }

  /** A configuration of camera `id` passed validation at step `j`, and no successful close of it follows. */
  ghost predicate ConfiguredSince(steps: seq<Step>, id: nat, j: nat) {
    && j < |steps| && steps[j].id == id && steps[j].op.Configure? && steps[j].op.validate == 0
    && forall m :: j < m < |steps| && steps[m] == Step(id, Close) ==> !Accepted(steps, m)
  }

  lemma OpenExtends(steps: seq<Step>, id: nat, j: nat)
    requires steps != [] && j < |steps| - 1
    ensures OpenSince(steps, id, j) <==>
      OpenSince(Front(steps), id, j) && (Last(steps) == Step(id, Close) ==> !Accepted(steps, |steps| - 1))
    ensures ConfiguredSince(steps, id, j) <==>
      ConfiguredSince(Front(steps), id, j) && (Last(steps) == Step(id, Close) ==> !Accepted(steps, |steps| - 1))
  {
    var front := Front(steps);
    assert front[..j] == steps[..j];
    forall m | j < m < |front| ensures front[m] == steps[m] && Accepted(front, m) == Accepted(steps, m) {
      assert front[..m] == steps[..m];
    }
  }

  /** A camera is busy exactly from a successful open to the next successful close. */
  lemma {:induction false} BusyIff(steps: seq<Step>, id: nat)
    ensures CamAt(steps, id).busy <==> exists j :: OpenSince(steps, id, j)
  {
    if steps != [] {
      var n, front, st := |steps| - 1, Front(steps), Last(steps);
      assert steps[..n] == front;
      BusyIff(front, id);
      if CamAt(steps, id).busy {
        if CamAt(front, id).busy {
          var j: nat :| OpenSince(front, id, j);
          OpenExtends(steps, id, j);
        } else {
          assert OpenSince(steps, id, n);
        }
      }
      if exists j: nat :: OpenSince(steps, id, j) {
        var j: nat :| OpenSince(steps, id, j);
        if j < n { OpenExtends(steps, id, j); }
      }
    }
  }

  /**
    The device's completions are taken exactly from a configuration that passes validation to
    the next successful close: then they start, and otherwise they are dropped.
   */
  lemma {:induction false} ConnectedIff(steps: seq<Step>, id: nat, r: nat)
    ensures CamAt(steps, id).connected <==> exists j :: ConfiguredSince(steps, id, j)
    ensures CamAt(steps, id).connected ==>
      && CamAfter(CamAt(steps, id), Enter(r, false)) == CamAt(steps, id).(job := Comparing(r))
      && CamAfter(CamAt(steps, id), Enter(r, true)) == CamAt(steps, id).(job := Failing(r))
    ensures !CamAt(steps, id).connected ==> forall err :: CamAfter(CamAt(steps, id), Enter(r, err)) == CamAt(steps, id)
  {
    if steps != [] {
      var n, front, st := |steps| - 1, Front(steps), Last(steps);
      assert steps[..n] == front;
      ConnectedIff(front, id, r);
      if CamAt(steps, id).connected {
        if st.id == id && st.op.Configure? && st.op.validate == 0 {
          assert ConfiguredSince(steps, id, n);
        } else {
          var j: nat :| ConfiguredSince(front, id, j);
          OpenExtends(steps, id, j);
        }
      }
      if exists j: nat :: ConfiguredSince(steps, id, j) {
        var j: nat :| ConfiguredSince(steps, id, j);
        if j < n { OpenExtends(steps, id, j); }
      }
    }
  }

  // ---------------------------------------------------------------- a completion on its own

  /** The steps of a completion of camera `id` that nothing comes between. */
  function Completion(c: Cam, id: nat, r: nat, err: bool): seq<Step> {
    [Step(id, Enter(r, err))] + if c.connected then Advances(id, JobSteps(CamAfter(c, Enter(r, err)).job)) else []
  }

  function Advances(id: nat, n: nat): seq<Step> {
    if n == 0 then [] else [Step(id, Advance)] + Advances(id, n - 1)
  }

  /** How many steps the completion in progress still needs. */
  function JobSteps(job: Job): nat {
    match job
    case NoJob => 0
    case Failing(_) => 3
    case Comparing(_) => 7
    case Reading(_) => 6
    case Writing(_) => 5
    case Reloading(_) => 4
    case Notifying(_) => 3
    case Finishing(_) => 2
    case Counting(_, _) => 1
  }

  lemma AddStep(steps: seq<Step>, st: Step)
    requires IsRun(steps) && Allowed(steps, st)
    ensures IsRun(steps + [st])
    ensures CamAt(steps + [st], st.id) == CamAfter(CamAt(steps, st.id), st.op)
    ensures Events(steps + [st]) == Events(steps) + EventOf(CamAt(steps, st.id), st.op)
  {
    assert Front(steps + [st]) == steps && Last(steps + [st]) == st;
  }

  /** A camera after a whole completion: dropped if it is closed. */
  function Completed(c: Cam): Cam {
    if c.connected then c.(inflight := c.inflight - 1) else c
  }

  /** The accesses to the shutter time that a completion still makes. */
  function JobEvents(job: Job): seq<Event> {
    match job
    case Comparing(r) => [CompareClock(r), ReadClock(r), WriteClock(r), ReloadClock(r), SendShutter(r)]
    case Reading(r) => [ReadClock(r), WriteClock(r), ReloadClock(r), SendShutter(r)]
    case Writing(r) => [WriteClock(r), ReloadClock(r), SendShutter(r)]
    case Reloading(r) => [ReloadClock(r), SendShutter(r)]
    case Notifying(r) => [SendShutter(r)]
    case _ => []
  }

  /** No other thread has changed the counter since the completion read it. */
  predicate Undisturbed(c: Cam) { c.job.Counting? ==> c.job.seen == c.inflight }

  lemma AdvanceShape(c: Cam)
    requires c.job != NoJob && Undisturbed(c)
    ensures JobSteps(Advanced(c).job) == JobSteps(c.job) - 1 && Undisturbed(Advanced(c))
    ensures Advanced(c).job != NoJob ==> Advanced(c).(job := c.job) == c && Advanced(c).job.req == c.job.req
    ensures Advanced(c).job == NoJob ==> Advanced(c) == c.(job := NoJob, inflight := c.inflight - 1)
    ensures JobEvents(c.job) == EventOf(c, Advance) + JobEvents(Advanced(c).job)
  {
  }

  /** A completion that nothing comes between runs to its end. */
  lemma {:induction false} AdvanceAll(steps: seq<Step>, id: nat)
    requires IsRun(steps) && CamAt(steps, id).job != NoJob && Undisturbed(CamAt(steps, id))
    ensures var all := steps + Advances(id, JobSteps(CamAt(steps, id).job));
      && IsRun(all) && CamAt(all, id) == CamAt(steps, id).(job := NoJob, inflight := CamAt(steps, id).inflight - 1)
      && Events(all) == Events(steps) + JobEvents(CamAt(steps, id).job)
    decreases JobSteps(CamAt(steps, id).job)
  {
    hide IsRun, CamAt, Events, JobEvents, EventOf;
    var st := Step(id, Advance);
    var c := CamAt(steps, id);
    var n := JobSteps(c.job);
    AddStep(steps, st);
    AdvanceShape(c);
    assert steps + Advances(id, n) == steps + [st] + Advances(id, n - 1);
    assert Events(steps) + JobEvents(c.job) == Events(steps + [st]) + JobEvents(Advanced(c).job);
    if n > 1 {
      AdvanceAll(steps + [st], id);
    } else {
      LastAdvance(steps + [st], id, Advanced(c).job);
    }
  }

  lemma LastAdvance(steps: seq<Step>, id: nat, job: Job)
    requires JobSteps(job) == 0
    ensures steps + Advances(id, 0) == steps && Events(steps) + JobEvents(job) == Events(steps)
  {
  }

  lemma JobEventsWhole(r: nat)
    ensures JobEvents(Comparing(r)) == Whole(r)
  {
  }

  /** The steps of a completion that nothing comes between do what `Camera.CompleteRequest` does. */
  lemma CompletionAlone(steps: seq<Step>, id: nat, r: nat, err: bool, stamps: Stamps)
    requires IsRun(steps) && Allowed(steps, Step(id, Enter(r, err)))
    ensures var c := CamAt(steps, id);
      var all := steps + Completion(c, id, r, err);
      var m, m' := Exec(Events(steps), stamps), Exec(Events(all), stamps);
      && IsRun(all) && CamAt(all, id) == Completed(c)
      && (c.connected && !err ==> m'.last == ShutterTime(m.last, stamps(r)) && m'.sent == m.sent + [Sent(r, m'.last)])
      && (!c.connected || err ==> m' == m)
  {
    hide IsRun, CamAt, Events, Exec, Proper, Stage;
    var c, st := CamAt(steps, id), Step(id, Enter(r, err));
    var s1 := steps + [st];
    RunKeeps(steps);
    AddStep(steps, st);
    assert Events(s1) == Events(steps);
    if c.connected {
      assert steps + Completion(c, id, r, err) == s1 + Advances(id, JobSteps(CamAt(s1, id).job));
      AdvanceAll(s1, id);
      if err {
        assert Events(steps) + JobEvents(Failing(r)) == Events(steps);
      } else {
        JobEventsWhole(r);
        Alone(Events(steps), r, stamps);
      }
    } else {
      assert steps + Completion(c, id, r, err) == s1;
    }
  }

  // ---------------------------------------------------------------- the camera object

  /** What the framework is told: a shutter time, an error, and a result. */
  datatype Note = Shutter(frame: int, time: int) | Error(frame: int) | Result(frame: int)

  /** The static variable of `completeRequest`. */
  class Clock {
    var last: int

    constructor ()
      ensures last == 0
    {
      last := 0;
    }
  }

  class Camera {
    var busy: bool
    var settingsSet: bool
    var inflight: int
    var connected: bool
    const clock: Clock

    ghost function Value(): Cam
      reads this
    {
      Cam(busy, settingsSet, inflight, connected, NoJob, None)
    }

    constructor (clock: Clock)
      ensures Value() == NEW_CAM && this.clock == clock
    {
      busy, settingsSet, inflight, connected := false, false, 0, false;
      this.clock := clock;
    }

    /** `openDevice` */
    method OpenDevice(connect: int) returns (res: int)
      modifies this
      ensures res == Code(old(Value()), Open(connect)) && Value() == CamAfter(old(Value()), Open(connect))
      ensures res == if old(busy) then -16 else connect
      ensures res == 0 ==> busy && inflight == 0 && settingsSet == old(settingsSet) && connected == old(connected)
      ensures res != 0 ==> Value() == old(Value())
    {
      if busy {
        return -EBUSY;
      }
      if connect != 0 {
        return connect;
      }
      busy := true;
      inflight := 0;
      res := 0;
    }

    /** `close` */
    method CloseDevice() returns (res: int)
      modifies this
      ensures res == Code(old(Value()), Close) && Value() == CamAfter(old(Value()), Close)
      ensures res == if old(busy) then 0 else -22
      ensures res == 0 ==> !busy && !connected && settingsSet == old(settingsSet) && inflight == old(inflight)
      ensures res != 0 ==> Value() == old(Value())
    {
      if !busy {
        return -EINVAL;
      }
      connected := false;
      busy := false;
      res := 0;
    }

    /** `configureStreams` */
    method ConfigureStreams(validate: int, setup: int) returns (res: int)
      modifies this
      ensures res == Code(old(Value()), Configure(validate, setup))
      ensures Value() == CamAfter(old(Value()), Configure(validate, setup))
      ensures res == if validate != 0 then validate else setup
      ensures connected == (old(connected) || validate == 0) && settingsSet == (old(settingsSet) && res != 0)
      ensures busy == old(busy) && inflight == old(inflight)
    {
      res := validate;
      if res == 0 {
        connected := true;
        res := setup;
      }
      if res == 0 {
        settingsSet := false;
      }
    }

    /** `processCaptureRequest`, when nothing comes between; `fences` are the results of the output buffers' fences. */
    method ProcessCaptureRequest(missing: bool, empty: bool, fences: seq<int>) returns (res: int)
      modifies this
      ensures var op := Request(missing, empty, |fences|, forall i :: 0 <= i < |fences| ==> fences[i] == 0);
        res == Code(old(Value()), op) && Value() == CamAfter(CamAfter(old(Value()), op), Store)
      ensures res == if missing || (empty && !old(settingsSet)) || |fences| == 0 then -22
                     else if exists i :: 0 <= i < |fences| && fences[i] != 0 then -19
                     else 0
      ensures res == 0 ==> Value() == old(Value()).(settingsSet := true, inflight := old(inflight) + 1)
      ensures res != 0 ==> Value() == old(Value())
    {
      if missing {
        return -EINVAL;
      }
      if empty && !settingsSet {
        return -EINVAL;
      }
      if |fences| <= 0 {
        return -EINVAL;
      }
      var i := 0;
      while i < |fences|
        invariant 0 <= i <= |fences| && forall k :: 0 <= k < i ==> fences[k] == 0
      {
        if fences[i] != 0 {
          return -ENODEV;
        }
        i := i + 1;
      }
      settingsSet := true;
      inflight := inflight + 1;
      res := 0;
    }

    /**
      `completeRequest`, when nothing comes between its steps.  A shutter time is sent even when
      the metadata has no timestamp or cannot be updated; the metadata of the result then agrees
      with it exactly when the timestamp was later than the last one or could be written back.
     */
    method CompleteRequest(frame: int, err: bool, stamp: Option<int>, updateOk: bool)
      returns (notes: seq<Note>, stamp': Option<int>)
      requires clock.last >= 0
      modifies this, clock
      ensures Value() == Completed(old(Value()))
      ensures inflight == (if old(connected) then old(inflight) - 1 else old(inflight))
      ensures notes == if !old(connected) then []
                       else if err then [Error(frame), Result(frame)]
                       else [Shutter(frame, clock.last), Result(frame)]
      ensures clock.last == if old(connected) && !err then ShutterTime(old(clock.last), stamp) else old(clock.last)
      ensures old(connected) && !err ==>
        clock.last == if stamp.Some? && stamp.value > old(clock.last) then stamp.value else old(clock.last) + 1_000_000
      ensures old(connected) && !err ==>
        (stamp' == Some(clock.last) <==> updateOk || (stamp.Some? && stamp.value > old(clock.last)))
    {
      notes, stamp' := [], stamp;
      if !connected {
        return;
      }
      if err {
        notes := [Error(frame), Result(frame)];
        inflight := inflight - 1;
        return;
      }
      var time := if stamp.Some? then stamp.value else 0;
      if time <= clock.last {
        clock.last := clock.last + STEP_NS;
        if updateOk {
          stamp' := Some(clock.last);
        }
        time := clock.last;
      } else {
        clock.last := time;
      }
      notes := [Shutter(frame, time), Result(frame)];
      inflight := inflight - 1;
    }
  }
}
