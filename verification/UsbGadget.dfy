/**
  The USB gadget of usb/UsbGadget.cpp as interleaved steps: requests, one at a time under the
  request lock, and the monitor threads they start.  `mLock` is held by the request while it
  sets up functions and by a monitor while it reports a pull-up.  Results of file writes,
  timeouts and inotify events are chosen by the environment.
 */
module UsbGadget {

  datatype Status = SUCCESS | ERROR | NOT_SUPPORTED

  /** What a request asks for: nothing, functions without ffs, or functions with ffs. */
  datatype Kind = NoFunctions | Plain | Ffs

  datatype Request = Request(id: nat, kind: Kind, callback: bool)

  /** Where the current request is. */
  datatype Pc =
    | Idle
    | TearDown                  // has set the new functions, gadget not yet torn down
    | Joining                   // has signalled the monitor and waits for it to exit
    | Down                      // gadget torn down, no lock held
    | Setup                     // in setupFunctions, holding mLock
    | Waiting                   // waiting for the pull-up, mLock released
    | Returned(status: Status)  // back in setCurrentUsbFunctions

  datatype MonitorPc =
    | Starting                  // looking for the endpoints
    | Wrote                     // has written the UDC, wants mLock
    | Reporting                 // holds mLock
    | Polling                   // in the event loop
    | Exited

  /** A monitor thread: the request that started it, and its local `writeUdc`. */
  datatype Monitor = Monitor(owner: nat, pc: MonitorPc, writeUdc: bool)

  datatype Holder = Nobody | TheRequest | TheMonitor

  datatype Outcome = Outcome(kind: Kind, callback: bool, calls: seq<Status>)

  datatype State = State(
    pc: Pc,
    req: Request,
    lock: Holder,
    created: bool,             // mMonitorCreated
    monitors: seq<Monitor>,    // every thread ever started, the last one is mMonitor
    event: nat,                // counter of the event fd
    pullup: bool,              // gadgetPullup
    applied: bool,             // mCurrentUsbFunctionsApplied
    monitored: set<nat>,       // requests whose own monitor wrote the UDC
    pulled: set<nat>,          // requests that wrote the UDC themselves
    reported: set<nat>,        // requests whose own monitor reported the pull-up
    calls: seq<Status>,        // callbacks made for the current request
    done: map<nat, Outcome>)   // finished requests

  const STOP: nat := 100

  function Start(): State {
    State(Idle, Request(0, NoFunctions, false), Nobody, false, [], 0, false, false, {}, {}, {}, [], map[])
  }

  datatype Step =
    | Begin(kind: Kind, callback: bool)
    | TearDownFails
    | Signal
    | NothingToStop
    | Join
    | NoneRequested
    | ValidationFails(status: Status)
    | EnterSetup
    | SetupFails(status: Status)
    | PullUpNow(ok: bool)
    | Spawn
    | Report
    | Finish
    | MonitorStarts(k: nat, wrote: bool)
    | MonitorLocks(k: nat)
    | MonitorReports(k: nat)
    | MonitorSees(k: nat, present: bool, wrote: bool)
    | MonitorReadsEvent(k: nat)

  predicate At(s: State, k: nat, pc: MonitorPc) { k < |s.monitors| && s.monitors[k].pc == pc }

  predicate Enabled(s: State, st: Step) {
    match st
    case Begin(_, _) => s.pc == Idle
    case TearDownFails => s.pc == TearDown
    case Signal => s.pc == TearDown && s.created
    case NothingToStop => s.pc == TearDown && !s.created
    case Join => s.pc == Joining && |s.monitors| > 0 && s.monitors[|s.monitors| - 1].pc == Exited
    case NoneRequested => s.pc == Down && s.req.kind == NoFunctions
    case ValidationFails(status) => s.pc == Down && s.req.kind != NoFunctions && status != SUCCESS
    case EnterSetup => s.pc == Down && s.req.kind != NoFunctions && s.lock == Nobody
    case SetupFails(status) => s.pc == Setup && status != SUCCESS
    case PullUpNow(_) => s.pc == Setup && s.req.kind == Plain
    case Spawn => s.pc == Setup && s.req.kind == Ffs
    case Report => s.pc == Waiting && s.lock == Nobody
    case Finish => s.pc.Returned?
    case MonitorStarts(k, _) => At(s, k, Starting)
    case MonitorLocks(k) => At(s, k, Wrote) && s.lock == Nobody
    case MonitorReports(k) => At(s, k, Reporting)
    case MonitorSees(k, present, wrote) => At(s, k, Polling) && (wrote ==> present && s.monitors[k].writeUdc)
    case MonitorReadsEvent(k) => At(s, k, Polling) && s.event > 0
  }

  function Call(s: State, status: Status): State {
    if s.req.callback then s.(calls := s.calls + [status]) else s
  }

  function Move(s: State, k: nat, m: Monitor): State
    requires k < |s.monitors|
  {
    s.(monitors := s.monitors[k := m])
  }

  predicate IsMonitorStep(st: Step) {
    st.MonitorStarts? || st.MonitorLocks? || st.MonitorReports? || st.MonitorSees? || st.MonitorReadsEvent?
  }

  /** The steps of the request thread. */
  function RequestStep(s: State, st: Step): State
    requires Enabled(s, st) && !IsMonitorStep(st)
  {
    match st
    case Begin(kind, callback) =>
      s.(pc := TearDown, req := Request(s.req.id + 1, kind, callback), applied := false, calls := [])
    case TearDownFails => s.(pc := Returned(ERROR))
    case Signal => s.(pc := Joining, event := s.event + STOP)
    case NothingToStop => s.(pc := Down, event := 0)
    case Join => s.(pc := Down, created := false, event := 0)
    case NoneRequested => Call(s, SUCCESS).(pc := Returned(SUCCESS))
    case ValidationFails(status) => s.(pc := Returned(status))
    case EnterSetup => s.(pc := Setup, lock := TheRequest)
    case SetupFails(status) => s.(pc := Returned(status), lock := Nobody)
    case PullUpNow(ok) =>
      if !ok then s.(pc := Returned(ERROR), lock := Nobody)
      else Call(s, SUCCESS).(pc := Returned(SUCCESS), lock := Nobody, applied := true, pulled := s.pulled + {s.req.id})
    case Spawn =>
      s.(pc := if s.req.callback then Waiting else Returned(SUCCESS), lock := Nobody, event := 0, pullup := false,
         created := true, monitors := s.monitors + [Monitor(s.req.id, Starting, true)])
    case Report => Call(s, if s.pullup then SUCCESS else ERROR).(pc := Returned(SUCCESS))
    case Finish =>
      var t := if s.pc.status == SUCCESS then s else Call(s, s.pc.status);
      t.(pc := Idle, done := s.done[s.req.id := Outcome(s.req.kind, s.req.callback, t.calls)])
  }

  /** The steps of monitor thread `k`. */
  function MonitorStep(s: State, st: Step): State
    requires Enabled(s, st) && IsMonitorStep(st)
  {
    match st
    case MonitorStarts(k, wrote) =>
      var m := s.monitors[k];
      if wrote then Move(s, k, m.(pc := Wrote)).(monitored := s.monitored + {m.owner})
      else Move(s, k, m.(pc := Polling))
    case MonitorLocks(k) => Move(s, k, s.monitors[k].(pc := Reporting)).(lock := TheMonitor)
    case MonitorReports(k) =>
      Move(s, k, s.monitors[k].(pc := Polling, writeUdc := false))
        .(lock := Nobody, applied := true, pullup := true, reported := s.reported + {s.monitors[k].owner})
    case MonitorSees(k, present, wrote) =>
      var m := s.monitors[k];
      if wrote then Move(s, k, m.(pc := Wrote)).(monitored := s.monitored + {m.owner})
      else if !present && !m.writeUdc then Move(s, k, m.(writeUdc := true))
      else s
    case MonitorReadsEvent(k) =>
      if s.event == STOP then Move(s, k, s.monitors[k].(pc := Exited)).(event := 0) else s.(event := 0)
  }

  function Apply(s: State, st: Step): State
    requires Enabled(s, st)
  {
    if IsMonitorStep(st) then MonitorStep(s, st) else RequestStep(s, st)
  }

  // ---------------------------------------------------------------- the invariant

  /** Only the last thread may be alive, and it is alive or unjoined exactly when `created` is set. */
  ghost predicate OneMonitor(s: State) {
    && (forall k :: 0 <= k < |s.monitors| - 1 ==> s.monitors[k].pc == Exited)
    && (s.created ==> |s.monitors| > 0)
    && (!s.created && |s.monitors| > 0 ==> s.monitors[|s.monitors| - 1].pc == Exited)
    && (s.pc == Down || s.pc == Setup ==> !s.created)
    && (s.pc == Waiting ==> s.created)
  }

  /** The state of the monitor that `mMonitor` points to. */
  function Live(s: State): MonitorPc {
    if s.created && |s.monitors| > 0 then s.monitors[|s.monitors| - 1].pc else Exited
  }

  function Owner(s: State): nat {
    if |s.monitors| > 0 then s.monitors[|s.monitors| - 1].owner else 0
  }

  /** The stop event is pending until the monitor has read it; a monitor that exited is being joined. */
  ghost predicate StopProtocol(s: State) {
    if s.pc == Joining then
      s.created && (s.event == STOP || s.event == 0) && (s.event == 0 <==> Live(s) == Exited)
    else
      s.event == 0 && (s.created ==> Live(s) != Exited)
  }

  ghost predicate Locking(s: State) {
    && (s.lock == TheRequest <==> s.pc == Setup)
    && (s.lock == TheMonitor <==> Live(s) == Reporting)
  }

  /** A pull-up seen by a waiting request was written by the monitor it started. */
  ghost predicate OwnPullUp(s: State) {
    && (Live(s) == Wrote || Live(s) == Reporting ==> Owner(s) in s.monitored)
    && (s.pc == Waiting ==> Owner(s) == s.req.id && (s.pullup ==> s.req.id in s.monitored))
    && (s.pc == Waiting ==> s.req.kind == Ffs && s.req.callback)
  }

  /** The request has not started its monitor yet. */
  predicate BeforeSpawn(pc: Pc) { pc == TearDown || pc == Joining || pc == Down || pc == Setup }

  /** Monitors belong to requests so far, and to earlier ones until the current one starts its own. */
  ghost predicate Owners(s: State) {
    forall k :: 0 <= k < |s.monitors| ==>
      s.monitors[k].owner <= s.req.id && (BeforeSpawn(s.pc) ==> s.monitors[k].owner < s.req.id)
  }

  /** While a request waits, the pull-up is set exactly if its own monitor has reported it. */
  ghost predicate OwnReport(s: State) {
    && (forall id :: id in s.reported ==> id <= s.req.id && (BeforeSpawn(s.pc) ==> id < s.req.id))
    && (s.pc == Waiting ==> (s.pullup <==> s.req.id in s.reported))
  }

  /** One callback exactly if one was asked for. */
  ghost predicate OneCall(callback: bool, calls: seq<Status>) { |calls| == if callback then 1 else 0 }

  /** A reported success means that the UDC was written: for ffs by the request's own monitor, else by the request. */
  ghost predicate Truthful(kind: Kind, id: nat, calls: seq<Status>, monitored: set<nat>, pulled: set<nat>) {
    SUCCESS in calls ==> (kind == Ffs ==> id in monitored) && (kind == Plain ==> id in pulled)
  }

  ghost predicate FinishedWell(done: map<nat, Outcome>, monitored: set<nat>, pulled: set<nat>) {
    forall id :: id in done ==>
      OneCall(done[id].callback, done[id].calls) && Truthful(done[id].kind, id, done[id].calls, monitored, pulled)
  }

  /** The callbacks of the request in progress. */
  ghost predicate CurrentCalls(s: State) {
    if s.pc == Returned(SUCCESS) then
      && OneCall(s.req.callback, s.calls)
      && Truthful(s.req.kind, s.req.id, s.calls, s.monitored, s.pulled)
    else s.pc != Idle ==> s.calls == []
  }

  /** Ids are used once. */
  ghost predicate Ids(s: State) {
    && (forall id :: id in s.done ==> id <= s.req.id)
    && (s.pc != Idle ==> s.req.id !in s.done)
  }

  ghost predicate Inv(s: State) {
    && OneMonitor(s) && StopProtocol(s) && Locking(s) && OwnPullUp(s)
    && Owners(s) && OwnReport(s) && FinishedWell(s.done, s.monitored, s.pulled) && CurrentCalls(s) && Ids(s)
  }

  lemma StartInv()
    ensures Inv(Start())
  {
  }

  lemma RequestOneMonitor(s: State, st: Step)
    requires Enabled(s, st) && !IsMonitorStep(st) && OneMonitor(s)
    ensures OneMonitor(RequestStep(s, st))
  {
  }

  lemma MonitorOneMonitor(s: State, st: Step)
    requires Enabled(s, st) && IsMonitorStep(st) && OneMonitor(s)
    ensures OneMonitor(MonitorStep(s, st))
  {
    match st
    case MonitorStarts(k, wrote) =>
    case MonitorLocks(k) =>
    case MonitorReports(k) =>
    case MonitorSees(k, present, wrote) =>
    case MonitorReadsEvent(k) =>
  }

  lemma RequestStop(s: State, st: Step)
    requires Enabled(s, st) && !IsMonitorStep(st) && OneMonitor(s) && StopProtocol(s)
    ensures StopProtocol(RequestStep(s, st))
  {
  }

  lemma MonitorStop(s: State, st: Step)
    requires Enabled(s, st) && IsMonitorStep(st) && OneMonitor(s) && StopProtocol(s)
    ensures StopProtocol(MonitorStep(s, st))
  {
    match st
    case MonitorStarts(k, wrote) =>
    case MonitorLocks(k) =>
    case MonitorReports(k) =>
    case MonitorSees(k, present, wrote) =>
    case MonitorReadsEvent(k) =>
  }

  lemma RequestLocking(s: State, st: Step)
    requires Enabled(s, st) && !IsMonitorStep(st) && OneMonitor(s) && StopProtocol(s) && Locking(s)
    ensures Locking(RequestStep(s, st))
  {
  }

  lemma MonitorLocking(s: State, st: Step)
    requires Enabled(s, st) && IsMonitorStep(st) && OneMonitor(s) && StopProtocol(s) && Locking(s)
    ensures Locking(MonitorStep(s, st))
  {
    match st
    case MonitorStarts(k, wrote) =>
    case MonitorLocks(k) =>
    case MonitorReports(k) =>
    case MonitorSees(k, present, wrote) =>
    case MonitorReadsEvent(k) =>
  }

  lemma RequestOwnPullUp(s: State, st: Step)
    requires Enabled(s, st) && !IsMonitorStep(st) && OneMonitor(s) && StopProtocol(s) && Locking(s) && OwnPullUp(s)
    ensures OwnPullUp(RequestStep(s, st))
  {
  }

  lemma MonitorOwnPullUp(s: State, st: Step)
    requires Enabled(s, st) && IsMonitorStep(st) && OneMonitor(s) && StopProtocol(s) && Locking(s) && OwnPullUp(s)
    ensures OwnPullUp(MonitorStep(s, st))
  {
    match st
    case MonitorStarts(k, wrote) =>
    case MonitorLocks(k) =>
    case MonitorReports(k) =>
    case MonitorSees(k, present, wrote) =>
    case MonitorReadsEvent(k) =>
  }

  lemma RequestOwners(s: State, st: Step)
    requires Enabled(s, st) && !IsMonitorStep(st) && Owners(s)
    ensures Owners(RequestStep(s, st))
  {
  }

  lemma RequestReport(s: State, st: Step)
    requires Enabled(s, st) && !IsMonitorStep(st) && OwnReport(s)
    ensures OwnReport(RequestStep(s, st))
  {
  }

  /** What a step of a monitor leaves alone. */
  lemma MonitorLeaves(s: State, st: Step)
    requires Enabled(s, st) && IsMonitorStep(st)
    ensures var t := MonitorStep(s, st);
      t.req == s.req && t.pc == s.pc && t.done == s.done && t.calls == s.calls && t.created == s.created
  {
    match st
    case MonitorStarts(k, wrote) =>
    case MonitorLocks(k) =>
    case MonitorReports(k) =>
    case MonitorSees(k, present, wrote) =>
    case MonitorReadsEvent(k) =>
  }

  lemma MonitorOwners(s: State, st: Step)
    requires Enabled(s, st) && IsMonitorStep(st)
    ensures |MonitorStep(s, st).monitors| == |s.monitors|
    ensures forall k :: 0 <= k < |s.monitors| ==> MonitorStep(s, st).monitors[k].owner == s.monitors[k].owner
  {
    match st
    case MonitorStarts(k, wrote) =>
    case MonitorLocks(k) =>
    case MonitorReports(k) =>
    case MonitorSees(k, present, wrote) =>
    case MonitorReadsEvent(k) =>
  }

  lemma MonitorReported(s: State, st: Step)
    requires Enabled(s, st) && IsMonitorStep(st)
    ensures !st.MonitorReports? ==> MonitorStep(s, st).pullup == s.pullup && MonitorStep(s, st).reported == s.reported
    ensures st.MonitorReports? ==> st.k < |s.monitors| && s.monitors[st.k].pc == Reporting
    ensures st.MonitorReports? ==> MonitorStep(s, st).pullup
    ensures st.MonitorReports? ==> MonitorStep(s, st).reported == s.reported + {s.monitors[st.k].owner}
  {
    match st
    case MonitorStarts(k, wrote) =>
    case MonitorLocks(k) =>
    case MonitorReports(k) =>
    case MonitorSees(k, present, wrote) =>
    case MonitorReadsEvent(k) =>
  }

  lemma MonitorReport(s: State, st: Step)
    requires Enabled(s, st) && IsMonitorStep(st) && OneMonitor(s) && OwnPullUp(s) && Owners(s) && OwnReport(s)
    ensures Owners(MonitorStep(s, st)) && OwnReport(MonitorStep(s, st))
  {
    hide MonitorStep, Enabled;
    MonitorLeaves(s, st);
    MonitorOwners(s, st);
    MonitorReported(s, st);
  }

  lemma RequestCurrent(s: State, st: Step)
    requires Enabled(s, st) && !IsMonitorStep(st) && OwnPullUp(s) && CurrentCalls(s)
    ensures CurrentCalls(RequestStep(s, st))
    ensures s.monitored <= RequestStep(s, st).monitored && s.pulled <= RequestStep(s, st).pulled
  {
  }

  lemma MonitorCurrent(s: State, st: Step)
    requires Enabled(s, st) && IsMonitorStep(st) && OwnPullUp(s) && CurrentCalls(s)
    ensures CurrentCalls(MonitorStep(s, st))
    ensures s.monitored <= MonitorStep(s, st).monitored && s.pulled <= MonitorStep(s, st).pulled
  {
    match st
    case MonitorStarts(k, wrote) =>
    case MonitorLocks(k) =>
    case MonitorReports(k) =>
    case MonitorSees(k, present, wrote) =>
    case MonitorReadsEvent(k) =>
  }

  lemma RequestIds(s: State, st: Step)
    requires Enabled(s, st) && !IsMonitorStep(st) && Ids(s)
    ensures Ids(RequestStep(s, st))
  {
  }

  lemma MonitorIds(s: State, st: Step)
    requires Enabled(s, st) && IsMonitorStep(st) && Ids(s)
    ensures Ids(MonitorStep(s, st))
  {
    match st
    case MonitorStarts(k, wrote) =>
    case MonitorLocks(k) =>
    case MonitorReports(k) =>
    case MonitorSees(k, present, wrote) =>
    case MonitorReadsEvent(k) =>
  }

  lemma RequestFinished(s: State, st: Step)
    requires Enabled(s, st) && !IsMonitorStep(st) && CurrentCalls(s) && FinishedWell(s.done, s.monitored, s.pulled)
    ensures FinishedWell(RequestStep(s, st).done, RequestStep(s, st).monitored, RequestStep(s, st).pulled)
  {
  }

  lemma MonitorFinished(s: State, st: Step)
    requires Enabled(s, st) && IsMonitorStep(st) && CurrentCalls(s) && FinishedWell(s.done, s.monitored, s.pulled)
    ensures FinishedWell(MonitorStep(s, st).done, MonitorStep(s, st).monitored, MonitorStep(s, st).pulled)
  {
    match st
    case MonitorStarts(k, wrote) =>
    case MonitorLocks(k) =>
    case MonitorReports(k) =>
    case MonitorSees(k, present, wrote) =>
    case MonitorReadsEvent(k) =>
  }

  /** Every step keeps the invariant. */
  lemma StepInv(s: State, st: Step)
    requires Inv(s) && Enabled(s, st)
    ensures Inv(Apply(s, st))
  {
    hide RequestStep, MonitorStep, Enabled, OneMonitor, StopProtocol, Locking, OwnPullUp, FinishedWell, CurrentCalls;
    hide Ids, Owners, OwnReport;
    if IsMonitorStep(st) {
      MonitorOneMonitor(s, st);
      MonitorStop(s, st);
      MonitorLocking(s, st);
      MonitorOwnPullUp(s, st);
      MonitorReport(s, st);
      MonitorCurrent(s, st);
      MonitorIds(s, st);
      MonitorFinished(s, st);
    } else {
      RequestOneMonitor(s, st);
      RequestStop(s, st);
      RequestLocking(s, st);
      RequestOwnPullUp(s, st);
      RequestOwners(s, st);
      RequestReport(s, st);
      RequestCurrent(s, st);
      RequestIds(s, st);
      RequestFinished(s, st);
    }
  }

  // ---------------------------------------------------------------- every run

  /** `ss` are the states of a run that takes the steps `sts` from the start. */
  ghost predicate IsRun(ss: seq<State>, sts: seq<Step>) {
    && |ss| == |sts| + 1 && ss[0] == Start()
    && forall k :: 0 <= k < |sts| ==> Enabled(ss[k], sts[k]) && ss[k + 1] == Apply(ss[k], sts[k])
  }

  lemma {:induction false} RunInv(ss: seq<State>, sts: seq<Step>, k: nat)
    requires IsRun(ss, sts) && k < |ss|
    ensures Inv(ss[k])
  {
    if k == 0 {
      StartInv();
    } else {
      RunInv(ss, sts, k - 1);
      StepInv(ss[k - 1], sts[k - 1]);
    }
  }

  /** Threads that are running. */
  ghost predicate Running(s: State, k: nat) { k < |s.monitors| && s.monitors[k].pc != Exited }

  /** Under every interleaving at most one monitor runs, and none runs while functions are set up. */
  lemma AtMostOneMonitor(ss: seq<State>, sts: seq<Step>, n: nat, i: nat, j: nat)
    requires IsRun(ss, sts) && n < |ss| && Running(ss[n], i) && Running(ss[n], j)
    ensures i == j == |ss[n].monitors| - 1 && ss[n].created && ss[n].pc != Down && ss[n].pc != Setup
  {
    RunInv(ss, sts, n);
  }

  /** Every finished request got exactly one callback if it passed one, and none otherwise. */
  lemma ExactlyOneCallback(ss: seq<State>, sts: seq<Step>, n: nat, id: nat)
    requires IsRun(ss, sts) && n < |ss| && id in ss[n].done
    ensures |ss[n].done[id].calls| == if ss[n].done[id].callback then 1 else 0
  {
    RunInv(ss, sts, n);
  }

  /** Step `m` of a run is a UDC write by a monitor that request `id` started. */
  ghost predicate MonitorWrite(s: State, st: Step, id: nat) {
    && (st.MonitorStarts? || st.MonitorSees?)
    && st.wrote && st.k < |s.monitors| && s.monitors[st.k].owner == id
  }

  lemma MonitoredStep(s: State, st: Step, id: nat)
    requires Enabled(s, st) && id !in s.monitored && id in Apply(s, st).monitored
    ensures MonitorWrite(s, st, id)
  {
  }

  lemma {:induction false} MonitorWroteIn(ss: seq<State>, sts: seq<Step>, n: nat, id: nat) returns (m: nat)
    requires IsRun(ss, sts) && n < |ss| && id in ss[n].monitored
    ensures m < n && MonitorWrite(ss[m], sts[m], id)
  {
    hide RequestStep, MonitorStep, Enabled;
    if n > 0 && id in ss[n - 1].monitored {
      m := MonitorWroteIn(ss, sts, n - 1, id);
    } else {
      assert ss[n - 1 + 1] == Apply(ss[n - 1], sts[n - 1]);
      MonitoredStep(ss[n - 1], sts[n - 1], id);
      m := n - 1;
    }
  }

  /**
    A request for ffs functions reports SUCCESS only if a monitor that this very request
    started wrote the UDC earlier in the run.
   */
  lemma SuccessIsOwn(ss: seq<State>, sts: seq<Step>, n: nat, id: nat)
    requires IsRun(ss, sts) && n < |ss| && id in ss[n].done
    requires ss[n].done[id].kind == Ffs && SUCCESS in ss[n].done[id].calls
    ensures exists m :: 0 <= m < n && MonitorWrite(ss[m], sts[m], id)
  {
    RunInv(ss, sts, n);
    var m := MonitorWroteIn(ss, sts, n, id);
  }

  // ---------------------------------------------------------------- pulling up again

  lemma RequestWritable(s: State, st: Step, k: nat)
    requires Enabled(s, st) && !IsMonitorStep(st) && k < |s.monitors|
    ensures k < |RequestStep(s, st).monitors| && RequestStep(s, st).monitors[k] == s.monitors[k]
  {
  }

  /** How a step of a monitor changes whether a monitor may write. */
  lemma MonitorWritable(s: State, st: Step, k: nat)
    requires Enabled(s, st) && IsMonitorStep(st) && k < |s.monitors|
    ensures k < |MonitorStep(s, st).monitors|
    ensures MonitorStep(s, st).monitors[k].writeUdc ==
      if st == MonitorReports(k) then false
      else s.monitors[k].writeUdc || (st.MonitorSees? && st.k == k && !st.present)
    ensures st.MonitorSees? && !st.wrote ==> MonitorStep(s, st).monitors[k].pc == s.monitors[k].pc
  {
    match st
    case MonitorStarts(m, wrote) =>
    case MonitorLocks(m) =>
    case MonitorReports(m) =>
    case MonitorSees(m, present, wrote) =>
    case MonitorReadsEvent(m) =>
  }

  lemma WritableStep(s: State, st: Step, k: nat)
    requires Enabled(s, st) && k < |s.monitors|
    ensures k < |Apply(s, st).monitors|
    ensures Apply(s, st).monitors[k].writeUdc ==
      if st == MonitorReports(k) then false
      else s.monitors[k].writeUdc || (st.MonitorSees? && st.k == k && !st.present)
  {
    hide RequestStep, MonitorStep, Enabled;
    if IsMonitorStep(st) {
      MonitorWritable(s, st, k);
    } else {
      RequestWritable(s, st, k);
    }
  }

  lemma {:induction false} WritableAgain(ss: seq<State>, sts: seq<Step>, a: nat, b: nat, k: nat) returns (i: nat)
    requires IsRun(ss, sts) && a <= b < |ss| && k < |ss[a].monitors| && !ss[a].monitors[k].writeUdc
    requires k < |ss[b].monitors| && ss[b].monitors[k].writeUdc
    ensures a <= i < b && sts[i].MonitorSees? && sts[i].k == k && !sts[i].present
    decreases b - a
  {
    hide RequestStep, MonitorStep, Enabled;
    assert a < b && ss[a + 1] == Apply(ss[a], sts[a]);
    WritableStep(ss[a], sts[a], k);
    if ss[a + 1].monitors[k].writeUdc {
      i := a;
    } else {
      i := WritableAgain(ss, sts, a + 1, b, k);
    }
  }

  /**
    Once a monitor has reported a pull-up, it writes the UDC again only after it has seen the
    endpoints missing.
   */
  lemma RewriteNeedsAbsence(ss: seq<State>, sts: seq<Step>, j: nat, n: nat, k: nat, present: bool)
    requires IsRun(ss, sts) && j < n < |sts| && sts[j] == MonitorReports(k) && sts[n] == MonitorSees(k, present, true)
    ensures exists i :: j < i < n && sts[i].MonitorSees? && sts[i].k == k && !sts[i].present
  {
    assert Enabled(ss[j], sts[j]) && Enabled(ss[n], sts[n]) && ss[j + 1] == Apply(ss[j], sts[j]);
    hide RequestStep, MonitorStep;
    WritableStep(ss[j], sts[j], k);
    var i := WritableAgain(ss, sts, j + 1, n, k);
  }

  /** A new monitor that does not find the endpoints can write as soon as they come. */
  lemma NewMonitorMayWrite(s: State)
    requires Enabled(s, Spawn)
    ensures var k, t := |s.monitors|, Apply(s, Spawn);
      && Enabled(t, MonitorStarts(k, false)) && Enabled(t, MonitorStarts(k, true))
      && Enabled(Apply(t, MonitorStarts(k, false)), MonitorSees(k, true, true))
  {
  }

  /** And having seen them missing it can write as soon as they are back. */
  lemma AbsenceAllowsRewrite(s: State, k: nat)
    requires Enabled(s, MonitorSees(k, false, false))
    ensures Enabled(Apply(s, MonitorSees(k, false, false)), MonitorSees(k, true, true))
  {
    MonitorWritable(s, MonitorSees(k, false, false), k);
  }

  /** The step is a pull-up, by a request or reported by a monitor. */
  predicate PullsUp(st: Step) { st == PullUpNow(true) || st.MonitorReports? }

  lemma AppliedStep(s: State, st: Step)
    requires Enabled(s, st)
    ensures Apply(s, st).applied == (PullsUp(st) || (s.applied && !st.Begin?))
  {
    if IsMonitorStep(st) {
      match st
      case MonitorStarts(k, wrote) =>
      case MonitorLocks(k) =>
      case MonitorReports(k) =>
      case MonitorSees(k, present, wrote) =>
      case MonitorReadsEvent(k) =>
    }
  }

  /** `mCurrentUsbFunctionsApplied` is set exactly if there was a pull-up since the last request began. */
  lemma {:induction false} AppliedIff(ss: seq<State>, sts: seq<Step>, n: nat)
    requires IsRun(ss, sts) && n < |ss|
    ensures ss[n].applied <==>
      exists k :: 0 <= k < n && PullsUp(sts[k]) && forall m :: k < m < n ==> !sts[m].Begin?
  {
    hide RequestStep, MonitorStep, Enabled;
    if n > 0 {
      AppliedIff(ss, sts, n - 1);
      assert ss[n - 1 + 1] == Apply(ss[n - 1], sts[n - 1]);
      AppliedStep(ss[n - 1], sts[n - 1]);
    }
  }

  // ---------------------------------------------------------------- what a request is told

  /** Step `st` is the report of a pull-up by a monitor that request `id` started. */
  ghost predicate ReportBy(s: State, st: Step, id: nat) {
    st.MonitorReports? && st.k < |s.monitors| && s.monitors[st.k].owner == id
  }

  lemma RequestReported(s: State, st: Step)
    requires Enabled(s, st) && !IsMonitorStep(st)
    ensures RequestStep(s, st).reported == s.reported
  {
  }

  lemma ReportedStep(s: State, st: Step, id: nat)
    requires Enabled(s, st)
    ensures id in Apply(s, st).reported <==> id in s.reported || ReportBy(s, st, id)
  {
    hide RequestStep, MonitorStep, Enabled;
    if IsMonitorStep(st) {
      MonitorReported(s, st);
    } else {
      RequestReported(s, st);
    }
  }

  /** A request is recorded as reported exactly if such a step came before. */
  lemma {:induction false} ReportedIff(ss: seq<State>, sts: seq<Step>, n: nat, id: nat)
    requires IsRun(ss, sts) && n < |ss|
    ensures id in ss[n].reported <==> exists k :: 0 <= k < n && ReportBy(ss[k], sts[k], id)
  {
    hide RequestStep, MonitorStep, Enabled, ReportBy;
    if n > 0 {
      ReportedIff(ss, sts, n - 1, id);
      assert ss[n - 1 + 1] == Apply(ss[n - 1], sts[n - 1]);
      ReportedStep(ss[n - 1], sts[n - 1], id);
    }
  }

  /** The step that ends a request's work: what it does to the request. */
  lemma ReturnStep(s: State, st: Step)
    requires Enabled(s, st)
    ensures s.pc.Returned? && Apply(s, st).pc.Returned? ==>
      Apply(s, st).pc == s.pc && Apply(s, st).calls == s.calls && Apply(s, st).req == s.req
    ensures !s.pc.Returned? && Apply(s, st).pc.Returned? ==>
      !IsMonitorStep(st) && Apply(s, st).req == s.req && s.pc != Idle
  {
  }

  /** The step with which a request that has returned came back. */
  lemma {:induction false} ReturnedAt(ss: seq<State>, sts: seq<Step>, f: nat) returns (m: nat)
    requires IsRun(ss, sts) && f < |ss| && ss[f].pc.Returned?
    ensures m < f && !ss[m].pc.Returned? && ss[m].pc != Idle && !IsMonitorStep(sts[m])
    ensures ss[m].req == ss[f].req == ss[m + 1].req && ss[m + 1].pc == ss[f].pc && ss[m + 1].calls == ss[f].calls
  {
    hide RequestStep, MonitorStep, Enabled;
    assert f > 0 && ss[f - 1 + 1] == Apply(ss[f - 1], sts[f - 1]);
    ReturnStep(ss[f - 1], sts[f - 1]);
    if ss[f - 1].pc.Returned? {
      m := ReturnedAt(ss, sts, f - 1);
    } else {
      m := f - 1;
    }
  }

  lemma DoneStep(s: State, st: Step, id: nat)
    requires Enabled(s, st) && id in Apply(s, st).done
    ensures if st == Finish && s.req.id == id then
              s.pc.Returned? && Apply(s, st).done[id] == Outcome(s.req.kind, s.req.callback,
                (if s.pc.status == SUCCESS then s else Call(s, s.pc.status)).calls)
            else id in s.done && Apply(s, st).done[id] == s.done[id]
  {
  }

  /** The step with which a finished request ended. */
  lemma {:induction false} FinishedAt(ss: seq<State>, sts: seq<Step>, n: nat, id: nat) returns (f: nat)
    requires IsRun(ss, sts) && n < |ss| && id in ss[n].done
    ensures f < n && ss[f].req.id == id && ss[f].pc.Returned?
    ensures ss[n].done[id] == Outcome(ss[f].req.kind, ss[f].req.callback,
              (if ss[f].pc.status == SUCCESS then ss[f] else Call(ss[f], ss[f].pc.status)).calls)
  {
    hide RequestStep, MonitorStep, Enabled, Call;
    assert n > 0 && ss[n - 1 + 1] == Apply(ss[n - 1], sts[n - 1]);
    DoneStep(ss[n - 1], sts[n - 1], id);
    if sts[n - 1] == Finish && ss[n - 1].req.id == id {
      f := n - 1;
    } else {
      f := FinishedAt(ss, sts, n - 1, id);
    }
  }

  /** What step `m` of a run tells its request. */
  ghost predicate Tells(ss: seq<State>, sts: seq<Step>, m: nat, id: nat, told: Status)
    requires m < |sts| && m < |ss|
  {
    match sts[m]
    case TearDownFails => told == ERROR
    case NoneRequested => told == SUCCESS
    case ValidationFails(status) => told == status
    case SetupFails(status) => told == status
    case PullUpNow(ok) => told == if ok then SUCCESS else ERROR
    case Report =>
      told == if exists k :: 0 <= k < m && ReportBy(ss[k], sts[k], id) then SUCCESS else ERROR
    case _ => false
  }

  /** One step of the request thread that returns, in a state where nothing has been told yet. */
  lemma ReturnCalls(s: State, st: Step)
    requires Enabled(s, st) && !IsMonitorStep(st) && s.calls == [] && s.req.callback && RequestStep(s, st).pc.Returned?
    requires s.pc == Waiting ==> (s.pullup <==> s.req.id in s.reported)
    ensures var t := RequestStep(s, st);
      var told := (if t.pc.status == SUCCESS then t else Call(t, t.pc.status)).calls;
      match st
      case TearDownFails => told == [ERROR]
      case NoneRequested => told == [SUCCESS]
      case ValidationFails(status) => told == [status]
      case SetupFails(status) => told == [status]
      case PullUpNow(ok) => told == [if ok then SUCCESS else ERROR]
      case Report => told == [if s.req.id in s.reported then SUCCESS else ERROR]
      case _ => false
  {
  }

  /**
    Over every run, a finished request with a callback was told one status, and which one was
    decided by the step it came back with: the failure it met, SUCCESS for no functions and for
    a pull-up of its own that worked, and after waiting for ffs SUCCESS if and only if a monitor
    it had started had reported the pull-up by then.
   */
  lemma ToldIs(ss: seq<State>, sts: seq<Step>, n: nat, id: nat)
    requires IsRun(ss, sts) && n < |ss| && id in ss[n].done && ss[n].done[id].callback
    ensures exists m, told :: 0 <= m < n && ss[m].req.id == id && ss[n].done[id].calls == [told] &&
                              Tells(ss, sts, m, id, told)
  {
    hide RequestStep, MonitorStep, Enabled, Call, ReportBy;
    var f := FinishedAt(ss, sts, n, id);
    var m := ReturnedAt(ss, sts, f);
    RunInv(ss, sts, m);
    ReportedIff(ss, sts, m, id);
    assert ss[m + 1] == Apply(ss[m], sts[m]);
    hide OneMonitor, StopProtocol, Locking, OwnPullUp, FinishedWell, Ids;
    ReturnCalls(ss[m], sts[m]);
    SameCall(ss[m + 1], ss[f]);
    assert Tells(ss, sts, m, id, ss[n].done[id].calls[0]);
  }

  lemma SameCall(s: State, t: State)
    requires s.pc == t.pc && s.pc.Returned? && s.calls == t.calls && s.req.callback == t.req.callback
    ensures (if s.pc.status == SUCCESS then s else Call(s, s.pc.status)).calls ==
            (if t.pc.status == SUCCESS then t else Call(t, t.pc.status)).calls
  {
  }

  // ---------------------------------------------------------------- no deadlock

  /** How many steps the monitor needs at most before it can be joined, if no endpoint event comes. */
  function StepsToExit(s: State): nat {
    match Live(s)
    case Starting => 4
    case Wrote => 3
    case Reporting => 2
    case Polling => 1
    case Exited => 0
  }

  /** The monitor's own step towards its exit. */
  function ExitStep(s: State): Step
    requires |s.monitors| > 0
  {
    var k := |s.monitors| - 1;
    match Live(s)
    case Starting => MonitorStarts(k, false)
    case Wrote => MonitorLocks(k)
    case Reporting => MonitorReports(k)
    case Polling => MonitorReadsEvent(k)
    case Exited => Join
  }

  /**
    While teardown waits for the monitor, the request does not hold `mLock`, and the monitor is
    never stuck: its next step is enabled and brings it closer to the exit, then the join is enabled.
   */
  lemma JoinNeverBlocks(s: State)
    requires Inv(s) && s.pc == Joining
    ensures s.lock != TheRequest && |s.monitors| > 0 && Enabled(s, ExitStep(s))
    ensures Live(s) != Exited ==>
      StepsToExit(Apply(s, ExitStep(s))) < StepsToExit(s) && Apply(s, ExitStep(s)).pc == Joining
  {
  }

  /** The steps `sts` lead from `s` to `t`. */
  ghost predicate Leads(s: State, sts: seq<Step>, t: State)
    decreases |sts|
  {
    if sts == [] then s == t else Enabled(s, sts[0]) && Leads(Apply(s, sts[0]), sts[1..], t)
  }

  /** How many of the steps serve an endpoint event. */
  function Sees(sts: seq<Step>): nat {
    if sts == [] then 0 else (if sts[0].MonitorSees? then 1 else 0) + Sees(sts[1..])
  }

  /** While teardown waits, all other steps are the monitor's, and all but endpoint events bring its exit closer. */
  lemma JoiningStep(s: State, st: Step)
    requires Inv(s) && s.pc == Joining && Enabled(s, st) && st != Join
    ensures IsMonitorStep(st) && Apply(s, st).pc == Joining
    ensures !st.MonitorSees? ==> StepsToExit(Apply(s, st)) < StepsToExit(s)
    ensures st.MonitorSees? ==> StepsToExit(Apply(s, st)) <= StepsToExit(s) + 2
    ensures st.MonitorReadsEvent? ==> Live(Apply(s, st)) == Exited
  {
  }

  /** The join is enabled exactly when the monitor has exited, and then no other step is. */
  lemma JoinEnabledIff(s: State, st: Step)
    requires Inv(s) && s.pc == Joining
    ensures Enabled(s, Join) <==> Live(s) == Exited
    ensures Enabled(s, Join) && Enabled(s, st) ==> st == Join
  {
  }

  /**
    Every schedule reaches the join: at most `StepsToExit` steps and three more for each endpoint
    event can come before it, and one step that serves the event fd is enough.
   */
  lemma {:induction false} JoinReached(s: State, sts: seq<Step>, t: State)
    requires Inv(s) && s.pc == Joining && Leads(s, sts, t) && Join !in sts
    ensures Inv(t) && t.pc == Joining
    ensures |sts| + StepsToExit(t) <= StepsToExit(s) + 3 * Sees(sts)
    ensures (exists st :: st in sts && st.MonitorReadsEvent?) ==> Enabled(t, Join)
    ensures |sts| == StepsToExit(s) + 3 * Sees(sts) ==> Enabled(t, Join)
    decreases |sts|
  {
    hide Enabled, MonitorStep, RequestStep, OneMonitor, StopProtocol, Locking, OwnPullUp, FinishedWell, CurrentCalls;
    hide Ids, Owners, OwnReport;
    if sts != [] {
      var st, u := sts[0], Apply(s, sts[0]);
      assert sts == [st] + sts[1..];
      JoiningStep(s, st);
      StepInv(s, st);
      JoinReached(u, sts[1..], t);
      if st.MonitorReadsEvent? && sts[1..] != [] {
        JoinEnabledIff(u, sts[1]);
      }
    }
    JoinEnabledIff(t, Join);
  }

  /** A request in progress can always make a step, or the monitor that it waits for can. */
  lemma NoDeadlock(s: State) returns (st: Step)
    requires Inv(s) && s.pc != Idle
    ensures Enabled(s, st) && !st.Begin?
  {
    match s.pc
    case TearDown => st := if s.created then Signal else NothingToStop;
    case Joining =>
      JoinNeverBlocks(s);
      st := ExitStep(s);
    case Down => st := if s.req.kind == NoFunctions then NoneRequested else EnterSetup;
    case Setup => st := if s.req.kind == Plain then PullUpNow(true) else SetupFails(ERROR);
    case Waiting => st := if s.lock == Nobody then Report else MonitorReports(|s.monitors| - 1);
    case Returned(_) => st := Finish;
  }
}
