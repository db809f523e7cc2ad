/**
 * Remote build dispatch: workers that carry at most one build's job, refusals before and after the
 * job is sent, and the per-build job-status listeners that share a worker's socket.
 */
module RemoteDispatch {
  import opened Wrappers
  import ShellCommand

  // ---------------------------------------------------------------- statuses

  /** What a job-status event carries. */
  datatype Data =
    | NotAnObject
    | Payload(build: Option<string>, status: Option<string>, details: Option<string>, completed: bool)

  predicate IsWorkerRefusal(data: Data) {
    data.Payload? && data.status == Some("Failed") && data.details.Some? && !data.completed
  }

  predicate JobStatusIsFor(data: Data, build: string) {
    data.Payload? && if data.build.Some? then data.build.value == build else !IsWorkerRefusal(data)
  }

  /** The queue's own rule: whether a status means the worker is idle again. */
  predicate ReleasesWorker(data: Data) {
    data.NotAnObject? || (data.details != Some("worker_busy") && !data.completed)
  }

  // ---------------------------------------------------------------- one worker

  /** One dispatch's listeners on a socket. */
  datatype Listener = Listener(dispatch: nat, build: string)

  datatype Job = Job(build: string, argv: seq<string>, cmd: string)

  datatype WorkerState = WorkerState(connected: bool, running: bool, dispatched: Option<string>,
                                     listeners: seq<Listener>, jobs: seq<Job>)
  {
    /** The worker carries this build's job. */
    predicate Carries(build: string) { running && dispatched == Some(build) }

    predicate CarriesOther(build: string) { running && dispatched.Some? && dispatched.value != build }
  }

  function Idle(w: WorkerState): WorkerState { w.(running := false, dispatched := None) }

  function ReleasedFor(w: WorkerState, build: string): WorkerState {
    if w.CarriesOther(build) then w else Idle(w)
  }

  function JobFor(build: string, args: seq<string>): Job {
    Job(build, args, ShellCommand.LegacyShellCommand(["./builder"] + args))
  }

  function Emitted(w: WorkerState, d: nat, build: string, args: seq<string>): WorkerState {
    WorkerState(w.connected, true, Some(build), w.listeners + [Listener(d, build)], w.jobs + [JobFor(build, args)])
  }

  predicate FlagsOnly(args: seq<string>) {
    forall i :: 0 <= i < |args| ==> |args[i]| >= 2 && args[i][0] == '-' && args[i][1] == '-'
  }

  /** Whether the job may be sent at all: a connected socket, a contained path, flags only, a secret. */
  predicate Sendable(w: WorkerState, pathOk: bool, args: seq<string>, secret: bool) {
    w.connected && pathOk && FlagsOnly(args) && secret
  }

  /** runRemoteShell on the worker: the new state, and whether the job was sent. */
  function Shell(w: WorkerState, d: nat, build: string, pathOk: bool, args: seq<string>,
                 secret: bool): (WorkerState, bool) {
    if !Sendable(w, pathOk, args, secret) then (ReleasedFor(w, build), false)
    else if w.CarriesOther(build) then (w, false)
    else (Emitted(w, d, build, args), true)
  }

  /** A job is sent exactly when it may be and the worker holds no other build's; then the worker
      carries it and nothing else is sent. A job not sent leaves the worker to the other build, or
      free, and leaves its jobs and listeners alone. */
  lemma DispatchOutcome(w: WorkerState, d: nat, build: string, pathOk: bool, args: seq<string>, secret: bool)
    ensures var (w', sent) := Shell(w, d, build, pathOk, args, secret);
      && (sent <==> Sendable(w, pathOk, args, secret) && !w.CarriesOther(build))
      && (sent ==> w'.Carries(build) && |w'.jobs| == |w.jobs| + 1 && w.jobs <= w'.jobs
                   && w'.jobs[|w.jobs|].build == build && w'.jobs[|w.jobs|].argv == args
                   && Listener(d, build) in w'.listeners)
      && (!sent ==> w'.jobs == w.jobs && w'.listeners == w.listeners)
      && (!sent && w.CarriesOther(build) ==> w' == w)
      && (!sent && !w.CarriesOther(build) ==> !w'.running && w'.dispatched == None)
  {
  }

  /** The listeners left after a status: those it is not for, and after a completed result its own. */
  function Remaining(listeners: seq<Listener>, data: Data): seq<Listener> {
    if listeners == [] then [] else
      var n := |listeners| - 1;
      var l := listeners[n];
      Remaining(listeners[..n], data) +
        if JobStatusIsFor(data, l.build) && !(data.completed && !IsWorkerRefusal(data)) then [] else [l]
  }

  /** The dispatches a status refuses, in listener order. */
  function RefusedBy(listeners: seq<Listener>, data: Data): seq<nat> {
    if listeners == [] then [] else
      var n := |listeners| - 1;
      RefusedBy(listeners[..n], data) +
        if JobStatusIsFor(data, listeners[n].build) && IsWorkerRefusal(data) then [listeners[n].dispatch] else []
  }

  /** A status reaches the queue's handler and the builder's listeners of the same socket. */
  function Notified(w: WorkerState, data: Data): WorkerState {
    var w' := if ReleasesWorker(data) then Idle(w) else w;
    w'.(listeners := Remaining(w.listeners, data))
  }

  class Worker {
    var connected: bool
    var running: bool
    var dispatched: Option<string>
    var listeners: seq<Listener>
    var jobs: seq<Job>

    constructor ()
      ensures State() == WorkerState(true, false, None, [], [])
    {
      connected, running, dispatched, listeners, jobs := true, false, None, [], [];
    }

    function State(): WorkerState
      reads this
    {
      WorkerState(connected, running, dispatched, listeners, jobs)
    }

    /** releaseWorker: a worker that carries another build's job is not this build's to release. */
    method Release(build: string)
      modifies this
      ensures State() == ReleasedFor(old(State()), build)
    {
      if running && dispatched.Some? && dispatched.value != build {
        return;
      }
      running := false;
      dispatched := None;
    }

    /** The listeners' part of a status; answers the dispatches whose onRefused runs. */
    method OnStatus(data: Data) returns (refused: seq<nat>)
      modifies this
      ensures State() == old(State()).(listeners := Remaining(old(listeners), data))
      ensures refused == RefusedBy(old(listeners), data)
    {
      refused := [];
      var kept: seq<Listener> := [];
      var before := listeners;
      for i := 0 to |before|
        invariant State() == old(State()) && before == old(listeners)
        invariant kept == Remaining(before[..i], data) && refused == RefusedBy(before[..i], data)
      {
        assert before[..i + 1][..i] == before[..i];
        var l := before[i];
        if !JobStatusIsFor(data, l.build) {
          kept := kept + [l];
        } else if IsWorkerRefusal(data) {
          refused := refused + [l.dispatch];
        } else if data.completed {
          kept := kept + [l];
        }
      }
      assert before[..|before|] == before;
      listeners := kept;
    }
  }

  // ---------------------------------------------------------------- the builder

  /** The refusal contract of each dispatch: the refused flag, and the runs of failRemoteBuild. */
  datatype Ledger = Ledger(refused: set<nat>, fails: seq<nat>)

  function Refuse(l: Ledger, d: nat): Ledger {
    if d in l.refused then l else Ledger(l.refused + {d}, l.fails + [d])
  }

  function RefuseAll(l: Ledger, ds: seq<nat>): Ledger {
    if ds == [] then l else Refuse(RefuseAll(l, ds[..|ds| - 1]), ds[|ds| - 1])
  }

  class Builder {
    var refused: set<nat>
    var fails: seq<nat>

    constructor ()
      ensures State() == Ledger({}, [])
    {
      refused, fails := {}, [];
    }

    function State(): Ledger
      reads this
    {
      Ledger(refused, fails)
    }

    /** The refuse closure of dispatchRemoteBuild. */
    method RefuseDispatch(d: nat)
      modifies this
      ensures State() == Refuse(old(State()), d)
    {
      if d in refused {
        return;
      }
      refused := refused + {d};
      fails := fails + [d];
    }

    method RunRemoteShell(worker: Worker?, d: nat, build: string, pathOk: bool, args: seq<string>, secret: bool)
      returns (sent: bool)
      modifies if worker == null then {} else {worker}
      ensures worker == null ==> !sent
      ensures worker != null ==> (worker.State(), sent) == Shell(old(worker.State()), d, build, pathOk, args, secret)
    {
      if worker == null {
        return false;
      }
      if !worker.connected {
        worker.Release(build);
        return false;
      }
      if !pathOk {
        worker.Release(build);
        return false;
      }
      if !FlagsOnly(args) {
        worker.Release(build);
        return false;
      }
      if !secret {
        worker.Release(build);
        return false;
      }
      if worker.running && worker.dispatched.Some? && worker.dispatched.value != build {
        return false;
      }
      worker.running := true;
      worker.dispatched := Some(build);
      worker.jobs := worker.jobs + [JobFor(build, args)];
      worker.listeners := worker.listeners + [Listener(d, build)];
      return true;
    }

    method DispatchRemoteBuild(worker: Worker?, d: nat, build: string, pathOk: bool, args: seq<string>, secret: bool)
      returns (sent: bool)
      modifies this, if worker == null then {} else {worker}
      ensures worker == null ==> !sent
      ensures worker != null ==> (worker.State(), sent) == Shell(old(worker.State()), d, build, pathOk, args, secret)
      ensures State() == if sent then old(State()) else Refuse(old(State()), d)
    {
      sent := RunRemoteShell(worker, d, build, pathOk, args, secret);
      if !sent {
        RefuseDispatch(d);
      }
    }

    /** A worker's status on its socket, with the queue's handler before the builder's. */
    method HandleStatus(worker: Worker, data: Data)
      modifies this, worker
      ensures worker.State() == Notified(old(worker.State()), data)
      ensures State() == RefuseAll(old(State()), RefusedBy(old(worker.listeners), data))
    {
      if ReleasesWorker(data) {
        worker.running := false;
        worker.dispatched := None;
      }
      var ds := worker.OnStatus(data);
      RefuseEach(ds);
    }

    /** The refused listeners' onRefused, one after the other. */
    method RefuseEach(ds: seq<nat>)
      modifies this
      ensures State() == RefuseAll(old(State()), ds)
    {
      for i := 0 to |ds|
        invariant State() == RefuseAll(old(State()), ds[..i])
      {
        assert ds[..i + 1][..i] == ds[..i];
        RefuseDispatch(ds[i]);
      }
      assert ds[..|ds|] == ds;
    }
  }

  // ---------------------------------------------------------------- runs

  /** All workers, and the refusal contracts; begun are the dispatches made so far. */
  datatype Fleet = Fleet(workers: map<nat, WorkerState>, ledger: Ledger, begun: set<nat>)

  datatype Event =
    | Register(w: nat, running: bool)          // the worker says hello (again)
    | Disconnect(w: nat)
    | Reserve(w: nat)                          // the queue or the route picks an idle worker
    | QueueRelease(w: nat)                     // a reclaimed reservation
    | GiveBack(w: nat)                         // a build refused before dispatch gives its reservation back
    | Dispatch(d: nat, on: Option<nat>, build: string, pathOk: bool, args: seq<string>, secret: bool)
    | Status(w: nat, data: Data)

  function Next(f: Fleet, e: Event): Fleet {
    match e
    case Register(w, running) =>
      var known := if w in f.workers then f.workers[w] else WorkerState(true, false, None, [], []);
      f.(workers := f.workers[w := known.(connected := true, running := running, dispatched := None)])
    case Disconnect(w) =>
      if w !in f.workers then f else f.(workers := f.workers[w := f.workers[w].(connected := false)])
    case Reserve(w) =>
      if w !in f.workers || f.workers[w].running then f
      else f.(workers := f.workers[w := f.workers[w].(running := true, dispatched := None)])
    case QueueRelease(w) =>
      if w !in f.workers then f else f.(workers := f.workers[w := Idle(f.workers[w])])
    case GiveBack(w) =>
      if w !in f.workers || (f.workers[w].running && f.workers[w].dispatched.Some?) then f
      else f.(workers := f.workers[w := Idle(f.workers[w])])
    case Dispatch(d, on, build, pathOk, args, secret) =>
      if d in f.begun || (on.Some? && on.value !in f.workers) then f
      else if on == None then f.(ledger := Refuse(f.ledger, d), begun := f.begun + {d})
      else
        var (w', sent) := Shell(f.workers[on.value], d, build, pathOk, args, secret);
        Fleet(f.workers[on.value := w'], if sent then f.ledger else Refuse(f.ledger, d), f.begun + {d})
    case Status(w, data) =>
      if w !in f.workers || !f.workers[w].connected then f
      else Fleet(f.workers[w := Notified(f.workers[w], data)],
                 RefuseAll(f.ledger, RefusedBy(f.workers[w].listeners, data)), f.begun)
  }

  function After(f: Fleet, events: seq<Event>): Fleet
    decreases |events|
  {
    if events == [] then f else After(Next(f, events[0]), events[1..])
  }

  // ---------------------------------------------------------------- a worker keeps its build

  /** Every argument starts with two dashes. */
  predicate AllFlags(args: seq<string>) { forall i :: 0 <= i < |args| ==> "--" <= args[i] }

  lemma FlagsAre(args: seq<string>)
    ensures FlagsOnly(args) <==> AllFlags(args)
  {
    assert forall i :: 0 <= i < |args| && "--" <= args[i] ==> args[i][0] == "--"[0] && args[i][1] == "--"[1];
    assert forall i :: 0 <= i < |args| && |args[i]| >= 2 && args[i][0] == '-' && args[i][1] == '-' ==> "--" <= args[i];
  }

  /** The step ends build b's hold on worker w: the queue takes the worker back, the worker reports a
      status that releases it, whichever build that names, or b's own dispatch is refused. */
  predicate Frees(f: Fleet, e: Event, w: nat, b: string) {
    match e
    case Register(v, _) => v == w
    case QueueRelease(v) => v == w
    case Status(v, data) =>
      && v == w && w in f.workers && f.workers[w].connected
      && (data.NotAnObject? || (!data.completed && data.details != Some("worker_busy")))
    case Dispatch(d, on, build, pathOk, args, secret) =>
      && on == Some(w) && build == b && d !in f.begun && w in f.workers
      && !(f.workers[w].connected && pathOk && AllFlags(args) && secret)
    case _ => false
  }

  predicate Holding(f: Fleet, w: nat, b: string) { w in f.workers && f.workers[w].Carries(b) }

  /** Jobs a worker has been sent since, all of build b. */
  predicate OnlyJobsOf(before: seq<Job>, now: seq<Job>, b: string) {
    before <= now && forall i :: |before| <= i < |now| ==> now[i].build == b
  }

  /** A step ends the hold exactly when it frees the worker, and sends it no other build's job. */
  lemma HoldStep(f: Fleet, e: Event, w: nat, b: string)
    requires Holding(f, w, b)
    ensures Holding(Next(f, e), w, b) <==> !Frees(f, e, w, b)
    ensures w in Next(f, e).workers && OnlyJobsOf(f.workers[w].jobs, Next(f, e).workers[w].jobs, b)
  {
    if e.Dispatch? {
      FlagsAre(e.args);
    }
  }

  ghost predicate NeverFreed(f: Fleet, events: seq<Event>, w: nat, b: string)
    decreases |events|
  {
    events != [] ==> !Frees(f, events[0], w, b) && NeverFreed(Next(f, events[0]), events[1..], w, b)
  }

  /** Main result: until the queue takes it back, a releasing status of any build arrives on its
      socket, or the build's own dispatch is refused, a worker that carries a build keeps carrying
      it and is sent no other build's job. */
  lemma {:induction false} WorkerKeepsItsBuild(f: Fleet, events: seq<Event>, w: nat, b: string)
    requires Holding(f, w, b) && NeverFreed(f, events, w, b)
    ensures Holding(After(f, events), w, b)
    ensures OnlyJobsOf(f.workers[w].jobs, After(f, events).workers[w].jobs, b)
    decreases |events|
  {
    if events != [] {
      HoldStep(f, events[0], w, b);
      WorkerKeepsItsBuild(Next(f, events[0]), events[1..], w, b);
    }
  }

  lemma {:induction false} RemainingAreListeners(listeners: seq<Listener>, data: Data, l: Listener)
    ensures l in Remaining(listeners, data) <==>
      l in listeners && !(JobStatusIsFor(data, l.build) && !(data.completed && !IsWorkerRefusal(data)))
  {
    if listeners != [] {
      var n := |listeners| - 1;
      RemainingAreListeners(listeners[..n], data, l);
      assert listeners == listeners[..n] + [listeners[n]];
    }
  }

  /** The queue does not ask which build a status names: a refusal of another build on the same
      socket frees the worker, and the next dispatch sends it that build's job beside the one it
      still runs, whose listeners stay. */
  lemma AnotherStatusFrees(f: Fleet, w: nat, b: string, other: string, data: Data, d: nat, args: seq<string>)
    returns (events: seq<Event>)
    requires Holding(f, w, b) && f.workers[w].connected && other != b
    requires data.Payload? && data.build == Some(other) && !data.completed && data.details != Some("worker_busy")
    requires d !in f.begun && AllFlags(args)
    ensures var f' := After(f, events);
      && Holding(f', w, other) && f'.workers[w].jobs == f.workers[w].jobs + [JobFor(other, args)]
      && (forall l :: l in f.workers[w].listeners && l.build == b ==> l in f'.workers[w].listeners)
      && (forall e :: e in events && e.Status? ==> e.data == data)
  {
    FlagsAre(args);
    var dispatch := Dispatch(d, Some(w), other, true, args, true);
    events := [Status(w, data), Reserve(w), dispatch];
    forall l | l in f.workers[w].listeners && l.build == b ensures l in Remaining(f.workers[w].listeners, data) {
      RemainingAreListeners(f.workers[w].listeners, data, l);
    }
    var f1 := Next(f, events[0]);
    var f2 := Next(f1, Reserve(w));
    assert events[1..] == [Reserve(w), dispatch] && events[1..][1..] == [dispatch];
    assert [dispatch][1..] == [];
    assert After(f, events) == After(f1, events[1..]) == After(f2, [dispatch]) == After(Next(f2, dispatch), []);
  }

  // ---------------------------------------------------------------- failRemoteBuild runs once

  function Count(s: seq<nat>, d: nat): nat {
    if s == [] then 0 else Count(s[..|s| - 1], d) + if s[|s| - 1] == d then 1 else 0
  }

  ghost predicate FailsMatchFlags(l: Ledger) {
    forall d :: Count(l.fails, d) == if d in l.refused then 1 else 0
  }

  lemma RefuseOnce(l: Ledger, d: nat)
    requires FailsMatchFlags(l)
    ensures FailsMatchFlags(Refuse(l, d)) && Refuse(l, d).refused == l.refused + {d}
  {
    assert (l.fails + [d])[..|l.fails|] == l.fails;
  }

  lemma {:induction false} RefuseAllOnce(l: Ledger, ds: seq<nat>)
    requires FailsMatchFlags(l)
    ensures FailsMatchFlags(RefuseAll(l, ds))
    ensures forall d :: d in RefuseAll(l, ds).refused <==> d in l.refused || d in ds
    decreases |ds|
  {
    if ds != [] {
      var n := |ds| - 1;
      RefuseAllOnce(l, ds[..n]);
      RefuseOnce(RefuseAll(l, ds[..n]), ds[n]);
      assert ds == ds[..n] + [ds[n]];
    }
  }

  lemma {:induction false} RefusedByMembers(listeners: seq<Listener>, data: Data, d: nat)
    ensures d in RefusedBy(listeners, data) <==>
      IsWorkerRefusal(data) && exists l :: l in listeners && l.dispatch == d && JobStatusIsFor(data, l.build)
  {
    if listeners != [] {
      var n := |listeners| - 1;
      RefusedByMembers(listeners[..n], data, d);
      assert listeners == listeners[..n] + [listeners[n]];
    }
  }

  /** A refusal that names the build of d's listener: failed, with details, and no result. */
  predicate NamedIn(listeners: seq<Listener>, data: Data, d: nat) {
    && data.Payload? && data.status == Some("Failed") && data.details.Some? && !data.completed
    && exists l :: l in listeners && l.dispatch == d && data.build == Some(l.build)
  }

  /** The job may not be sent: no connected socket, no contained path, an argument that is no flag, no
      secret, or a worker that runs another build's job. */
  predicate NotSent(w: WorkerState, build: string, pathOk: bool, args: seq<string>, secret: bool) {
    || !w.connected || !pathOk || !AllFlags(args) || !secret
    || (w.running && w.dispatched.Some? && w.dispatched != Some(build))
  }

  lemma NotSentIff(w: WorkerState, d: nat, build: string, pathOk: bool, args: seq<string>, secret: bool)
    ensures NotSent(w, build, pathOk, args, secret) <==> !Shell(w, d, build, pathOk, args, secret).1
  {
    FlagsAre(args);
  }

  /** This step refuses dispatch d: before the job is sent, or by the worker, in a status that
      reaches d's listener. */
  predicate Refuses(f: Fleet, e: Event, d: nat) {
    match e
    case Dispatch(d', on, build, pathOk, args, secret) =>
      && d' == d && d !in f.begun && (on.Some? ==> on.value in f.workers)
      && (on == None || NotSent(f.workers[on.value], build, pathOk, args, secret))
    case Status(w, data) =>
      w in f.workers && f.workers[w].connected && NamedIn(f.workers[w].listeners, data, d)
    case _ => false
  }

  predicate EverRefused(f: Fleet, events: seq<Event>, d: nat)
    decreases |events|
  {
    events != [] && (Refuses(f, events[0], d) || EverRefused(Next(f, events[0]), events[1..], d))
  }

  /** The refusals of a step: of the dispatch it makes, or of those its status names. */
  function RefusedIn(f: Fleet, e: Event): seq<nat> {
    match e
    case Dispatch(d, on, build, pathOk, args, secret) =>
      if d in f.begun || (on.Some? && on.value !in f.workers) then []
      else if on.Some? && Shell(f.workers[on.value], d, build, pathOk, args, secret).1 then []
      else [d]
    case Status(w, data) =>
      if w !in f.workers || !f.workers[w].connected then [] else RefusedBy(f.workers[w].listeners, data)
    case _ => []
  }

  lemma LedgerStep(f: Fleet, e: Event)
    ensures Next(f, e).ledger == RefuseAll(f.ledger, RefusedIn(f, e))
  {
    if e.Dispatch? {
      assert RefuseAll(f.ledger, [e.d][..0]) == f.ledger;
      assert RefuseAll(f.ledger, [e.d]) == Refuse(f.ledger, e.d);
    }
  }

  lemma RefusedInIff(f: Fleet, e: Event, d: nat)
    ensures d in RefusedIn(f, e) <==> Refuses(f, e, d)
  {
    if e.Dispatch? && e.on.Some? && e.on.value in f.workers {
      NotSentIff(f.workers[e.on.value], e.d, e.build, e.pathOk, e.args, e.secret);
    }
    if e.Status? && e.w in f.workers {
      RefusedByMembers(f.workers[e.w].listeners, e.data, d);
    }
  }

  lemma RefusalStep(f: Fleet, e: Event, d: nat)
    requires FailsMatchFlags(f.ledger)
    ensures FailsMatchFlags(Next(f, e).ledger)
    ensures d in Next(f, e).ledger.refused <==> d in f.ledger.refused || Refuses(f, e, d)
  {
    LedgerStep(f, e);
    RefuseAllOnce(f.ledger, RefusedIn(f, e));
    RefusedInIff(f, e, d);
  }

  lemma {:induction false} RefusalRun(f: Fleet, events: seq<Event>, d: nat)
    requires FailsMatchFlags(f.ledger)
    ensures FailsMatchFlags(After(f, events).ledger)
    ensures d in After(f, events).ledger.refused <==> d in f.ledger.refused || EverRefused(f, events, d)
    decreases |events|
  {
    if events != [] {
      RefusalStep(f, events[0], d);
      RefusalRun(Next(f, events[0]), events[1..], d);
    }
  }

  /** Main result: over every run, failRemoteBuild runs once for a dispatch that is ever refused,
      before or after its job is sent, however often that happens, and never for another. */
  lemma FailRunsOncePerRefusal(workers: map<nat, WorkerState>, events: seq<Event>, d: nat)
    ensures Count(After(Fleet(workers, Ledger({}, []), {}), events).ledger.fails, d)
         == if EverRefused(Fleet(workers, Ledger({}, []), {}), events, d) then 1 else 0
  {
    RefusalRun(Fleet(workers, Ledger({}, []), {}), events, d);
  }

  // ---------------------------------------------------------------- builds that share a socket

  /** A status that names a build leaves the listeners of every other build attached, and
      refuses none of them; a refusal that names none detaches and refuses nobody. */
  lemma StatusLeavesOtherBuilds(listeners: seq<Listener>, data: Data, l: Listener)
    requires data.Payload? && l in listeners
    requires || (data.build.Some? && data.build.value != l.build)
             || (data.build == None && data.status == Some("Failed") && data.details.Some? && !data.completed)
    ensures l in Remaining(listeners, data)
    ensures (forall k :: k in listeners && k.dispatch == l.dispatch ==> k == l) ==>
      l.dispatch !in RefusedBy(listeners, data)
  {
    RemainingAreListeners(listeners, data, l);
    RefusedByMembers(listeners, data, l.dispatch);
  }

  /** What an old worker's shell makes of a sent job's cmd is the builder with the job's argv. */
  lemma JobCommandIsItsArgv(build: string, args: seq<string>)
    requires AllFlags(args)
    ensures ShellCommand.ShellWords(JobFor(build, args).cmd) == Some(["./builder"] + args)
  {
    ShellCommand.ShellReadsTheArguments(["./builder"] + args);
    assert forall i :: 0 <= i < |args| ==> args[i] != "";
    assert "" !in ["./builder"] + args;
  }

  // ---------------------------------------------------------------- what a dispatch comes to

  /** A sent job's dispatch: nothing has decided it, its build ended or failed, or it was refused. */
  datatype Fate = Open | Closed | Failed

  /** What a status says of build b's job: a result says nothing yet; a failure with details is a
      refusal of the build it names and of no other; anything else closes the build it names, or
      every build when it names none. */
  function SaysOf(data: Data, b: string): Fate {
    match data
    case NotAnObject => Open
    case Payload(build, status, details, completed) =>
      if completed then Open
      else if status == Some("Failed") && details.Some? then (if build == Some(b) then Failed else Open)
      else if build == None || build == Some(b) then Closed
      else Open
  }

  /** The fate of build b's job on worker w: what the first status on w's socket says that says
      anything of b. */
  function FateOf(f: Fleet, events: seq<Event>, w: nat, b: string): Fate
    decreases |events|
  {
    if events == [] then Open else
      var e := events[0];
      if e.Status? && e.w == w && w in f.workers && f.workers[w].connected && SaysOf(e.data, b) != Open
      then SaysOf(e.data, b)
      else FateOf(Next(f, e), events[1..], w, b)
  }

  /** Dispatch d listens nowhere but for build b on worker w. */
  ghost predicate ListensOnly(f: Fleet, d: nat, w: nat, b: string) {
    forall v, l :: v in f.workers && l in f.workers[v].listeners && l.dispatch == d ==> v == w && l.build == b
  }

  ghost predicate Listens(f: Fleet, d: nat, w: nat, b: string) {
    w in f.workers && Listener(d, b) in f.workers[w].listeners
  }

  /** Who may listen on worker v after a step: who did before, or the dispatch just made. */
  lemma ListenersAfter(f: Fleet, e: Event, v: nat, l: Listener)
    requires v in Next(f, e).workers && l in Next(f, e).workers[v].listeners
    ensures (v in f.workers && l in f.workers[v].listeners) || (e.Dispatch? && l.dispatch == e.d && e.d !in f.begun)
  {
    if e.Status? && e.w == v && v in f.workers {
      RemainingAreListeners(f.workers[v].listeners, e.data, l);
    }
  }

  /** A listener stays until a status that is for its build and no completed result comes. */
  lemma ListenerStays(f: Fleet, e: Event, d: nat, w: nat, b: string)
    requires Listens(f, d, w, b)
    ensures Listens(Next(f, e), d, w, b)
       <==> !(e.Status? && e.w == w && f.workers[w].connected && SaysOf(e.data, b) != Open)
  {
    if e.Status? && e.w == w {
      RemainingAreListeners(f.workers[w].listeners, e.data, Listener(d, b));
    }
  }

  lemma ListensOnlyStays(f: Fleet, e: Event, d: nat, w: nat, b: string)
    requires ListensOnly(f, d, w, b) && d in f.begun
    ensures ListensOnly(Next(f, e), d, w, b) && d in Next(f, e).begun
  {
    var g := Next(f, e);
    forall v, l | v in g.workers && l in g.workers[v].listeners && l.dispatch == d
      ensures v == w && l.build == b
    {
      ListenersAfter(f, e, v, l);
    }
  }

  lemma {:induction false} DeafIsNeverRefused(f: Fleet, events: seq<Event>, d: nat, w: nat, b: string)
    requires ListensOnly(f, d, w, b) && !Listens(f, d, w, b) && d in f.begun
    ensures !EverRefused(f, events, d)
    decreases |events|
  {
    if events != [] {
      var g := Next(f, events[0]);
      ListensOnlyStays(f, events[0], d, w, b);
      if Listens(g, d, w, b) {
        ListenersAfter(f, events[0], w, Listener(d, b));
      }
      DeafIsNeverRefused(g, events[1..], d, w, b);
    }
  }

  lemma {:induction false} RefusedIffFailed(f: Fleet, events: seq<Event>, d: nat, w: nat, b: string)
    requires ListensOnly(f, d, w, b) && Listens(f, d, w, b) && d in f.begun
    ensures EverRefused(f, events, d) <==> FateOf(f, events, w, b) == Failed
    decreases |events|
  {
    if events != [] {
      var e := events[0];
      ListensOnlyStays(f, e, d, w, b);
      ListenerStays(f, e, d, w, b);
      if Listens(Next(f, e), d, w, b) {
        assert !Refuses(f, e, d);
        RefusedIffFailed(Next(f, e), events[1..], d, w, b);
      } else if SaysOf(e.data, b) == Failed {
        assert Refuses(f, e, d);
      } else {
        DeafIsNeverRefused(Next(f, e), events[1..], d, w, b);
      }
    }
  }

  /** What holds from the start: only dispatches made listen and are refused, and the contract
      has run once for each refused. */
  ghost predicate Orderly(f: Fleet) {
    && FailsMatchFlags(f.ledger) && f.ledger.refused <= f.begun
    && forall v, l :: v in f.workers && l in f.workers[v].listeners ==> l.dispatch in f.begun
  }

  lemma NextKeepsOrder(f: Fleet, e: Event)
    requires Orderly(f)
    ensures Orderly(Next(f, e))
  {
    var g := Next(f, e);
    forall d | d in g.ledger.refused ensures d in g.begun {
      RefusalStep(f, e, d);
      if Refuses(f, e, d) && e.Status? {
        var l :| l in f.workers[e.w].listeners && l.dispatch == d;
      }
    }
    RefusalStep(f, e, 0);
    forall v, l | v in g.workers && l in g.workers[v].listeners ensures l.dispatch in g.begun {
      ListenersAfter(f, e, v, l);
    }
  }

  /**
   * Main result: whatever happens to the other builds, failRemoteBuild runs for a dispatch if and
   * only if its job is not sent, or the first deciding status for its build on its worker's own
   * socket is a refusal, and then it runs once.
   */
  lemma FailsIffItsWorkerRefuses(f: Fleet, e: Event, events: seq<Event>)
    requires Orderly(f) && e.Dispatch? && e.d !in f.begun
    requires e.on.Some? ==> e.on.value in f.workers
    ensures var failed :=
        || e.on == None
        || NotSent(f.workers[e.on.value], e.build, e.pathOk, e.args, e.secret)
        || FateOf(Next(f, e), events, e.on.value, e.build) == Failed;
      Count(After(Next(f, e), events).ledger.fails, e.d) == if failed then 1 else 0
  {
    var g := Next(f, e);
    RefusalRun(f, [e] + events, e.d);
    assert ([e] + events)[1..] == events;
    if e.on.Some? {
      NotSentIff(f.workers[e.on.value], e.d, e.build, e.pathOk, e.args, e.secret);
    }
    if e.on.Some? && Shell(f.workers[e.on.value], e.d, e.build, e.pathOk, e.args, e.secret).1 {
      var w := e.on.value;
      DispatchOutcome(f.workers[w], e.d, e.build, e.pathOk, e.args, e.secret);
      RefusedIffFailed(g, events, e.d, w, e.build);
    }
  }

  // ---------------------------------------------------------------- what one status does

  /** A dispatch listens on one worker for one build, and only until it is refused. */
  ghost predicate ListenAlone(f: Fleet) {
    forall v, l :: v in f.workers && l in f.workers[v].listeners ==>
      l.dispatch in f.begun && l.dispatch !in f.ledger.refused && ListensOnly(f, l.dispatch, v, l.build)
  }

  /** The dispatch just made, when it listens. */
  lemma NewListens(f: Fleet, e: Event, v: nat, l: Listener)
    requires Orderly(f) && v in Next(f, e).workers && l in Next(f, e).workers[v].listeners
    requires !(v in f.workers && l in f.workers[v].listeners)
    ensures var g := Next(f, e);
      l.dispatch in g.begun && l.dispatch !in g.ledger.refused && ListensOnly(g, l.dispatch, v, l.build)
  {
    ListenersAfter(f, e, v, l);
    assert e.on == Some(v) && l == Listener(e.d, e.build);
    forall u, k | u in Next(f, e).workers && k in Next(f, e).workers[u].listeners && k.dispatch == l.dispatch
      ensures u == v && k.build == l.build
    {
      ListenersAfter(f, e, u, k);
    }
  }

  lemma NextKeepsAlone(f: Fleet, e: Event)
    requires Orderly(f) && ListenAlone(f)
    ensures ListenAlone(Next(f, e))
  {
    var g := Next(f, e);
    forall v, l | v in g.workers && l in g.workers[v].listeners
      ensures l.dispatch in g.begun && l.dispatch !in g.ledger.refused && ListensOnly(g, l.dispatch, v, l.build)
    {
      ListenersAfter(f, e, v, l);
      RefusalStep(f, e, l.dispatch);
      if v in f.workers && l in f.workers[v].listeners {
        ListensOnlyStays(f, e, l.dispatch, v, l.build);
        ListenerStays(f, e, l.dispatch, v, l.build);
      } else {
        NewListens(f, e, v, l);
      }
    }
  }

  lemma {:induction false} RunKeepsAlone(f: Fleet, events: seq<Event>)
    requires Orderly(f) && ListenAlone(f)
    ensures Orderly(After(f, events)) && ListenAlone(After(f, events))
    decreases |events|
  {
    if events != [] {
      NextKeepsOrder(f, events[0]);
      NextKeepsAlone(f, events[0]);
      RunKeepsAlone(Next(f, events[0]), events[1..]);
    }
  }

  const START := Fleet(map[], Ledger({}, []), {})

  /**
   * Main result: after any run, while a sent job's listener is attached, a status on its connected
   * socket runs the refusal contract of its dispatch if and only if it names the build, says that it
   * failed, gives details, and is no result. Then the listener goes; it also goes on any other status
   * for the build that is no result, and stays otherwise.
   */
  lemma StatusRefusesIff(events: seq<Event>, w: nat, d: nat, b: string, data: Data)
    requires var f := After(START, events);
      w in f.workers && f.workers[w].connected && Listener(d, b) in f.workers[w].listeners
    ensures var f := After(START, events);
      var g := Next(f, Status(w, data));
      var refusal := data.Payload? && data.build == Some(b) && data.status == Some("Failed")
                     && data.details.Some? && !data.completed;
      && Count(f.ledger.fails, d) == 0
      && Count(g.ledger.fails, d) == (if refusal then 1 else 0)
      && (Listener(d, b) in g.workers[w].listeners <==> SaysOf(data, b) == Open)
  {
    var f := After(START, events);
    RunKeepsAlone(START, events);
    RefusalStep(f, Status(w, data), d);
    ListenerStays(f, Status(w, data), d, w, b);
  }

  // ---------------------------------------------------------------- what a worker has been sent

  /** A worker that carries a build was sent that build's job last; every job's flags are what an
      old worker's shell reads from its cmd; and every listener's build has had its job sent. */
  ghost predicate JobsInOrder(w: WorkerState) {
    && (w.running && w.dispatched.Some? ==> w.jobs != [] && w.jobs[|w.jobs| - 1].build == w.dispatched.value)
    && (forall j :: j in w.jobs ==> ShellCommand.ShellWords(j.cmd) == Some(["./builder"] + j.argv))
    && (forall l :: l in w.listeners ==> exists j :: j in w.jobs && j.build == l.build)
  }

  lemma DispatchKeepsJobs(w: WorkerState, d: nat, build: string, pathOk: bool, args: seq<string>, secret: bool)
    requires JobsInOrder(w)
    ensures JobsInOrder(Shell(w, d, build, pathOk, args, secret).0)
  {
    var (w', sent) := Shell(w, d, build, pathOk, args, secret);
    if sent {
      JobCommandIsItsArgv(build, args);
      var j := JobFor(build, args);
      assert w'.jobs == w.jobs + [j] && j in w'.jobs;
      forall l | l in w'.listeners ensures exists k :: k in w'.jobs && k.build == l.build {
        if l in w.listeners {
          var k :| k in w.jobs && k.build == l.build;
          assert k in w'.jobs;
        }
      }
    }
  }

  lemma StatusKeepsJobs(w: WorkerState, data: Data)
    requires JobsInOrder(w)
    ensures JobsInOrder(Notified(w, data))
  {
    forall l | l in Remaining(w.listeners, data) ensures l in w.listeners {
      RemainingAreListeners(w.listeners, data, l);
    }
  }

  ghost predicate AllInOrder(f: Fleet) { forall v :: v in f.workers ==> JobsInOrder(f.workers[v]) }

  lemma NextKeepsJobs(f: Fleet, e: Event)
    requires AllInOrder(f)
    ensures AllInOrder(Next(f, e))
  {
    match e
    case Dispatch(d, on, build, pathOk, args, secret) =>
      if on.Some? && on.value in f.workers {
        DispatchKeepsJobs(f.workers[on.value], d, build, pathOk, args, secret);
      }
    case Status(w, data) =>
      if w in f.workers {
        StatusKeepsJobs(f.workers[w], data);
      }
    case _ =>
  }

  lemma {:induction false} RunKeepsOrder(f: Fleet, events: seq<Event>)
    requires AllInOrder(f) && Orderly(f)
    ensures AllInOrder(After(f, events)) && Orderly(After(f, events))
    decreases |events|
  {
    if events != [] {
      NextKeepsJobs(f, events[0]);
      NextKeepsOrder(f, events[0]);
      RunKeepsOrder(Next(f, events[0]), events[1..]);
    }
  }

  /** Main result: over every run, a worker that carries a build was sent that build's job last,
      every job sent reads back as its flags, and dispatches stay orderly. */
  lemma CarriedBuildsWereSent(events: seq<Event>)
    ensures AllInOrder(After(START, events)) && Orderly(After(START, events))
  {
    RunKeepsOrder(START, events);
  }
}
