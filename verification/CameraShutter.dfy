/** When the shutter times that the cameras of a process send are strictly increasing. */
module CameraShutter {
  import opened ShutterTimes
  import opened ShutterOrder
  import opened CameraRequests

  /** The requests of one camera. */
  function RequestsOf(steps: seq<Step>, id: nat): set<nat> {
    set r | 0 <= r < |steps| && steps[r].id == id
  }

  /**
    The shutter times of one camera are sent in strictly increasing order for every sensor
    exactly when whatever a completion may send is built on whatever its earlier ones may send.
   */
  lemma OwnTimesIncreaseIff(steps: seq<Step>, id: nat)
    requires IsRun(steps)
    ensures (forall stamps: Stamps :: IncreasingOn(Exec(Events(steps), stamps).sent, RequestsOf(steps, id)))
            <==> ChainOn(Events(steps), RequestsOf(steps, id))
  {
    RunKeeps(steps);
    IncreaseIff(Events(steps), RequestsOf(steps, id));
  }

  /** The times of all cameras, once no completion is between its comparison and its notification. */
  lemma AllTimesIncreaseIff(steps: seq<Step>)
    requires IsRun(steps) && Quiet(Events(steps))
    ensures (forall stamps: Stamps :: Increasing(Exec(Events(steps), stamps).sent)) <==> Turns(Events(steps))
  {
    RunKeeps(steps);
    TurnsIff(Events(steps));
  }

  /** No camera accesses the shutter time while another one is between its comparison and its notification. */
  ghost predicate OneAtATime(steps: seq<Step>) {
    steps == [] || (OneAtATime(Front(steps)) && OthersIdle(Front(steps), Last(steps)))
  }

  /** The completion has accessed the shutter time and has not sent it. */
  predicate Amid(job: Job) { InClock(job) && !job.Comparing? }

  ghost predicate OthersIdle(steps: seq<Step>, st: Step) {
    EventOf(CamAt(steps, st.id), st.op) != [] ==> forall id :: id != st.id ==> !Amid(CamAt(steps, id).job)
  }

  /** The last access to the shared time is that of the completion between comparison and notification. */
  ghost predicate LastAccess(steps: seq<Step>, id: nat) {
    var job, es := CamAt(steps, id).job, Events(steps);
    Amid(job) ==> es != [] && Last(es).req == job.req && Order(Last(es)) + 1 == JobOrder(job)
  }

  lemma {:induction false} OneAtATimeIsSerial(steps: seq<Step>)
    requires IsRun(steps) && OneAtATime(steps)
    ensures Serial(Events(steps)) && forall id :: LastAccess(steps, id)
  {
    if steps != [] {
      var front, st := Front(steps), Last(steps);
      OneAtATimeIsSerial(front);
      EventsStep(steps);
      NextAccess(CamAt(front, st.id));
      JobMoves(CamAt(front, st.id), st.op);
      assert LastAccess(front, st.id);
      forall id ensures LastAccess(steps, id) {
        LastAccessStep(steps, id);
      }
    }
  }

  /** The access that a completion makes next. */
  lemma NextAccess(c: Cam)
    ensures InClock(c.job) ==> |EventOf(c, Advance)| == 1
    ensures InClock(c.job) ==> EventOf(c, Advance)[0].req == c.job.req
    ensures InClock(c.job) ==> Order(EventOf(c, Advance)[0]) == JobOrder(c.job)
  {
  }

  lemma LastAccessStep(steps: seq<Step>, id: nat)
    requires steps != [] && Allowed(Front(steps), Last(steps)) && OthersIdle(Front(steps), Last(steps))
    requires LastAccess(Front(steps), id)
    ensures LastAccess(steps, id)
  {
    hide Events;
    EventsStep(steps);
    JobMoves(CamAt(Front(steps), Last(steps).id), Last(steps).op);
    NextAccess(CamAt(Front(steps), Last(steps).id));
  }

  /** Completions that do not overlap send positive, strictly increasing shutter times, whatever the metadata. */
  lemma ShutterTimesIncrease(steps: seq<Step>, stamps: Stamps)
    requires IsRun(steps) && OneAtATime(steps)
    ensures Increasing(Exec(Events(steps), stamps).sent)
    ensures forall s :: s in Exec(Events(steps), stamps).sent ==> 0 < s.time <= Exec(Events(steps), stamps).last
  {
    RunKeeps(steps);
    OneAtATimeIsSerial(steps);
    SerialIncreases(Events(steps), stamps);
  }

  /** If only one camera is used, its completions do not overlap. */
  lemma {:induction false} OneCameraIsSerial(steps: seq<Step>, id: nat)
    requires IsRun(steps) && forall k :: 0 <= k < |steps| ==> steps[k].id == id
    ensures OneAtATime(steps) && forall other :: other != id ==> CamAt(steps, other) == NEW_CAM
  {
    if steps != [] {
      OneCameraIsSerial(Front(steps), id);
    }
  }

  // ---------------------------------------------------------------- two cameras at once

  /** Two cameras with completions in progress make the next step each, one after the other. */
  lemma BothAdvance(steps: seq<Step>, i: nat, j: nat)
    requires IsRun(steps) && i != j && CamAt(steps, i).job != NoJob && CamAt(steps, j).job != NoJob
    ensures var both := steps + [Step(i, Advance)] + [Step(j, Advance)];
      && IsRun(both) && CamAt(both, i) == Advanced(CamAt(steps, i)) && CamAt(both, j) == Advanced(CamAt(steps, j))
      && Events(both) == Events(steps) + EventOf(CamAt(steps, i), Advance) + EventOf(CamAt(steps, j), Advance)
  {
    var a, b := Step(i, Advance), Step(j, Advance);
    AddStep(steps, a);
    OtherKept(steps, a, j);
    AddStep(steps + [a], b);
    OtherKept(steps + [a], b, i);
  }

  lemma OtherKept(steps: seq<Step>, st: Step, id: nat)
    requires id != st.id
    ensures CamAt(steps + [st], id) == CamAt(steps, id)
  {
    assert Front(steps + [st]) == steps && Last(steps + [st]) == st;
  }

  /** The completion of `r` after `k` accesses to the shutter time, and its next access. */
  function JobAt(r: nat, k: nat): Job
    requires k <= 5
  {
    if k == 0 then Comparing(r) else if k == 1 then Reading(r) else if k == 2 then Writing(r)
    else if k == 3 then Reloading(r) else if k == 4 then Notifying(r) else Finishing(r)
  }

  function EventAt(r: nat, k: nat): Event
    requires k < 5
  {
    if k == 0 then CompareClock(r) else if k == 1 then ReadClock(r) else if k == 2 then WriteClock(r)
    else if k == 3 then ReloadClock(r) else SendShutter(r)
  }

  function EventsUpTo(r: nat, k: nat, n: nat): (es: seq<Event>)
    requires k <= n <= 5
    ensures |es| == n - k && forall i :: 0 <= i < n - k ==> es[i] == EventAt(r, k + i)
  {
    seq(n - k, i requires 0 <= i < n - k => EventAt(r, k + i))
  }

  lemma JobAtStep(c: Cam, r: nat, k: nat)
    requires k < 5 && c.job == JobAt(r, k)
    ensures Advanced(c) == c.(job := JobAt(r, k + 1)) && EventOf(c, Advance) == [EventAt(r, k)]
  {
  }

  lemma EventsParts(r: nat)
    ensures EventsUpTo(r, 0, 2) == [CompareClock(r)] + [ReadClock(r)]
    ensures EventsUpTo(r, 2, 3) == [WriteClock(r)]
    ensures EventsUpTo(r, 0, 3) == UpToWrite(r)
    ensures EventsUpTo(r, 3, 5) == FromReload(r)
    ensures EventsUpTo(r, 0, 5) == Whole(r)
  {
  }

  /** A completion makes its accesses number `k` to `n` in a row. */
  lemma {:induction false} AdvanceBy(steps: seq<Step>, id: nat, r: nat, k: nat, n: nat)
    requires IsRun(steps) && k <= n <= 5 && CamAt(steps, id).job == JobAt(r, k)
    ensures var more := steps + Advances(id, n - k);
      && IsRun(more) && CamAt(more, id) == CamAt(steps, id).(job := JobAt(r, n))
      && Events(more) == Events(steps) + EventsUpTo(r, k, n) && OnlyMoved(steps, more, id)
    decreases n - k
  {
    hide IsRun, CamAt, Events, EventOf, Entered, JobAt, EventAt, EventsUpTo;
    if k == n {
      assert steps + Advances(id, 0) == steps;
    } else {
      var st, c := Step(id, Advance), CamAt(steps, id);
      JobAtStep(c, r, k);
      JobAtIs(r, k);
      AddStep(steps, st);
      Advance1(steps, id);
      AdvanceBy(steps + [st], id, r, k + 1, n);
      assert steps + Advances(id, n - k) == steps + [st] + Advances(id, n - (k + 1));
      assert [EventAt(r, k)] + EventsUpTo(r, k + 1, n) == EventsUpTo(r, k, n);
    }
  }

  lemma JobAtIs(r: nat, k: nat)
    requires k <= 5
    ensures JobAt(r, k) != NoJob
  {
  }

  /** Other cameras are as they were, the same requests are there, and the device has called back for the same ones. */
  ghost predicate OnlyMoved(steps: seq<Step>, more: seq<Step>, id: nat) {
    && (forall other :: other != id ==> CamAt(more, other) == CamAt(steps, other))
    && (forall r :: Entered(more, r) <==> Entered(steps, r))
    && steps <= more
  }

  lemma Advance1(steps: seq<Step>, id: nat)
    ensures OnlyMoved(steps, steps + [Step(id, Advance)], id)
  {
    var more := steps + [Step(id, Advance)];
    assert Front(more) == steps && Last(more) == Step(id, Advance);
    forall r ensures Entered(more, r) <==> Entered(steps, r) {
      EnteredFront(more, r);
    }
  }

  lemma MovedTwice(steps: seq<Step>, s1: seq<Step>, s2: seq<Step>, id: nat)
    requires OnlyMoved(steps, s1, id) && OnlyMoved(s1, s2, id)
    ensures OnlyMoved(steps, s2, id)
  {
  }

  /** A completion that has sent its time sends its result. */
  lemma FinishOff(steps: seq<Step>, id: nat, r: nat)
    requires IsRun(steps) && CamAt(steps, id).job == Finishing(r)
    ensures var more := steps + [Step(id, Advance)] + [Step(id, Advance)];
      && IsRun(more) && CamAt(more, id) == CamAt(steps, id).(job := NoJob, inflight := CamAt(steps, id).inflight - 1)
      && Events(more) == Events(steps) && OnlyMoved(steps, more, id)
  {
    hide IsRun, CamAt, Events, OnlyMoved;
    var st := Step(id, Advance);
    AddStep(steps, st);
    Advance1(steps, id);
    AddStep(steps + [st], st);
    Advance1(steps + [st], id);
    MovedTwice(steps, steps + [st], steps + [st] + [st], id);
  }

  // ---------------------------------------------------------------- runs that break the order

  lemma AboutToCompare(steps: seq<Step>, id: nat, r: nat)
    requires IsRun(steps) && CamAt(steps, id).job == Comparing(r)
    ensures Proper(Events(steps)) && Stage(Events(steps), r) == 0 && IsRequest(steps, id, r) && Entered(steps, r)
  {
    RunKeeps(steps);
    assert JobOk(steps, id);
  }

  lemma NotCalledBack(steps: seq<Step>, r: nat)
    requires IsRun(steps) && !Entered(steps, r)
    ensures Proper(Events(steps)) && Stage(Events(steps), r) == 0
  {
    RunKeeps(steps);
  }

  /** Two cameras that are about to compare with the last time, and have no sensor time, can send the same time. */
  lemma TwoCamerasRepeat(steps: seq<Step>, i: nat, j: nat, a: nat, b: nat, stamps: Stamps) returns (run: seq<Step>)
    requires IsRun(steps) && i != j && CamAt(steps, i).job == Comparing(a) && CamAt(steps, j).job == Comparing(b)
    requires stamps(a).None? && stamps(b).None?
    ensures steps <= run && IsRun(run)
    ensures var m, t := Exec(Events(steps), stamps), Exec(Events(steps), stamps).last + STEP_NS;
      Exec(Events(run), stamps).sent == m.sent + [Sent(a, t)] + [Sent(b, t)]
  {
    hide IsRun, CamAt, Events, Exec, Stage, Proper, Entered, RunInv;
    AboutToCompare(steps, i, a);
    AboutToCompare(steps, j, b);
    run := RepeatRun(steps, i, j, a, b);
    OverlapRepeats(Events(steps), stamps, a, b);
  }

  lemma RepeatRun(steps: seq<Step>, i: nat, j: nat, a: nat, b: nat) returns (run: seq<Step>)
    requires IsRun(steps) && i != j && CamAt(steps, i).job == Comparing(a) && CamAt(steps, j).job == Comparing(b)
    ensures steps <= run && IsRun(run)
    ensures Events(run) == Events(steps) + Together(a, b) + FromReload(a) + FromReload(b)
  {
    hide IsRun, CamAt, Events, EventsUpTo, Advances, Together, FromReload, JobAt, Entered;
    var s3 := ReachTogether(steps, i, j, a, b);
    EventsParts(a);
    EventsParts(b);
    AdvanceBy(s3, i, a, 3, 5);
    var s4 := s3 + Advances(i, 2);
    AdvanceBy(s4, j, b, 3, 5);
    run := s4 + Advances(j, 2);
  }

  lemma ReachTogether(steps: seq<Step>, i: nat, j: nat, a: nat, b: nat) returns (more: seq<Step>)
    requires IsRun(steps) && i != j && CamAt(steps, i).job == Comparing(a) && CamAt(steps, j).job == Comparing(b)
    ensures steps <= more && IsRun(more) && Events(more) == Events(steps) + Together(a, b)
    ensures CamAt(more, i).job == JobAt(a, 3) && CamAt(more, j).job == JobAt(b, 3)
  {
    hide IsRun, Events;
    var s1 := steps + [Step(i, Advance)] + [Step(j, Advance)];
    var s2 := s1 + [Step(i, Advance)] + [Step(j, Advance)];
    BothAdvance(steps, i, j);
    BothAdvance(s1, i, j);
    BothAdvance(s2, i, j);
    more := s2 + [Step(i, Advance)] + [Step(j, Advance)];
    TogetherParts(Events(steps), a, b);
  }

  lemma TogetherParts(es: seq<Event>, a: nat, b: nat)
    ensures var e1 := es + [CompareClock(a)] + [CompareClock(b)];
      var e2 := e1 + [ReadClock(a)] + [ReadClock(b)];
      e2 + [WriteClock(a)] + [WriteClock(b)] == es + Together(a, b)
  {
  }

  /** They can do so even if one writes before the other compares. */
  lemma TwoCamerasReload(steps: seq<Step>, i: nat, j: nat, a: nat, b: nat, stamps: Stamps) returns (run: seq<Step>)
    requires IsRun(steps) && i != j && CamAt(steps, i).job == Comparing(a) && CamAt(steps, j).job == Comparing(b)
    requires stamps(a).None? && stamps(b).None?
    ensures steps <= run && IsRun(run)
    ensures var m, t := Exec(Events(steps), stamps), Exec(Events(steps), stamps).last + 2 * STEP_NS;
      Exec(Events(run), stamps).sent == m.sent + [Sent(a, t)] + [Sent(b, t)]
  {
    hide IsRun, CamAt, Events, Exec, Stage, Proper, Entered, RunInv;
    AboutToCompare(steps, i, a);
    AboutToCompare(steps, j, b);
    run := ReloadRun(steps, i, j, a, b);
    ReloadRepeats(Events(steps), stamps, a, b);
  }

  lemma ReloadRun(steps: seq<Step>, i: nat, j: nat, a: nat, b: nat) returns (run: seq<Step>)
    requires IsRun(steps) && i != j && CamAt(steps, i).job == Comparing(a) && CamAt(steps, j).job == Comparing(b)
    ensures steps <= run && IsRun(run)
    ensures Events(run) == Events(steps) + UpToWrite(a) + UpToWrite(b) + FromReload(a) + FromReload(b)
  {
    hide IsRun, CamAt, Events, EventsUpTo, Advances, UpToWrite, FromReload, Entered;
    EventsParts(a);
    EventsParts(b);
    AdvanceBy(steps, i, a, 0, 3);
    var s1 := steps + Advances(i, 3);
    AdvanceBy(s1, j, b, 0, 3);
    var s2 := s1 + Advances(j, 3);
    AdvanceBy(s2, i, a, 3, 5);
    var s3 := s2 + Advances(i, 2);
    AdvanceBy(s3, j, b, 3, 5);
    run := s3 + Advances(j, 2);
  }

  /**
    The first camera completes `a`, the second one is about to complete `d`, and `b` is another
    request of the first camera.  If the second camera reads before `a` and writes after it,
    the first camera sends a smaller time for `b` than for `a`.
   */
  lemma OwnTimesRewind(steps: seq<Step>, i: nat, j: nat, a: nat, d: nat, b: nat, stamps: Stamps)
    returns (run: seq<Step>)
    requires IsRun(steps) && i != j && CamAt(steps, i).job == Comparing(a) && CamAt(steps, j).job == Comparing(d)
    requires CamAt(steps, i).connected && IsRequest(steps, i, b) && !Entered(steps, b)
    requires stamps(b).None? && stamps(d).None?
    requires stamps(a).Some? && stamps(a).value > Exec(Events(steps), stamps).last + 2 * STEP_NS
    ensures steps <= run && IsRun(run) && a in RequestsOf(run, i) && b in RequestsOf(run, i)
    ensures var m := Exec(Events(steps), stamps);
      Exec(Events(run), stamps).sent == m.sent + [Sent(a, stamps(a).value)] + [Sent(b, m.last + 2 * STEP_NS)]
  {
    hide IsRun, CamAt, Events, Exec, Stage, Proper, Entered, RunInv;
    AboutToCompare(steps, i, a);
    AboutToCompare(steps, j, d);
    NotCalledBack(steps, b);
    var more := RunAround(steps, i, j, a, d);
    run := RunWhole(more, i, b);
    LostUpdateRewinds(Events(steps), stamps, a, d, b);
  }

  /** The second camera reads, the first one completes its request, and the second one writes. */
  lemma RunAround(steps: seq<Step>, i: nat, j: nat, a: nat, d: nat) returns (more: seq<Step>)
    requires IsRun(steps) && i != j && CamAt(steps, i).job == Comparing(a) && CamAt(steps, j).job == Comparing(d)
    ensures steps <= more && IsRun(more) && Events(more) == Events(steps) + Around(d, Whole(a))
    ensures CamAt(more, i).job == NoJob && CamAt(more, i).connected == CamAt(steps, i).connected
    ensures forall r :: Entered(more, r) <==> Entered(steps, r)
  {
    hide IsRun, CamAt, Events, EventsUpTo, Advances, Entered;
    EventsParts(d);
    EventsParts(a);
    AdvanceBy(steps, j, d, 0, 2);
    var s1 := steps + Advances(j, 2);
    AdvanceBy(s1, i, a, 0, 5);
    var s2 := s1 + Advances(i, 5);
    FinishOff(s2, i, a);
    var s3 := s2 + [Step(i, Advance)] + [Step(i, Advance)];
    AdvanceBy(s3, j, d, 2, 3);
    more := s3 + Advances(j, 1);
    AroundParts(Events(steps), d, a);
  }

  /** The device calls back for a request, and the camera sends its time. */
  lemma RunWhole(steps: seq<Step>, i: nat, b: nat) returns (more: seq<Step>)
    requires IsRun(steps) && CamAt(steps, i).job == NoJob && CamAt(steps, i).connected
    requires IsRequest(steps, i, b) && !Entered(steps, b)
    ensures steps <= more && IsRun(more) && Events(more) == Events(steps) + Whole(b)
  {
    hide IsRun, CamAt, Events, EventsUpTo, Advances, Entered;
    var st := Step(i, Enter(b, false));
    AddStep(steps, st);
    EventsParts(b);
    assert Events(steps + [st]) == Events(steps);
    AdvanceBy(steps + [st], i, b, 0, 5);
    more := steps + [st] + Advances(i, 5);
  }

  lemma AroundParts(es: seq<Event>, d: nat, a: nat)
    ensures es + ([CompareClock(d)] + [ReadClock(d)]) + Whole(a) + [WriteClock(d)] == es + Around(d, Whole(a))
  {
  }
}
