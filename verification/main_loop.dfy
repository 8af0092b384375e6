/** The polling loop of src/main.cpp, as events on a world and as the class that runs them. */
module MainLoop {
  import opened Common
  import opened Clock
  import opened MissionData
  import opened StateMachine
  import opened IridiumSchedule
  import opened MavlinkGates

  /** What can reach the firmware between two polls. */
  datatype Input =
    | Tick(ms: nat)
    | Heartbeat(from: Source)
    | Battery(from: Source, millivolts: nat)
    | Depth(from: Source, metres: Float)
    | Named(from: Source, name: Name, value: Float)
    | LeakCommand(leak: bool)
    | ResetCommand
    | TestCommand

  /** A chance to use the modem: what the configuration, the receiver and the modem will do. */
  datatype Chance = Chance(enabled: bool, interval: u32, fix: bool, ms: nat, ok: bool)

  /** Everything `loop()` does, at the grain of one call into a module. */
  datatype Event =
    | Receive(input: Input)
    | BeginPass
    | PollUpdate
    | PollSurfacePower
    | FollowLua
    | PollBackstop
    | WatchState
    | ManualTest(chance: Chance)
    | AutoReport(chance: Chance)

  /** The clock `t` is true time; the firmware only ever sees `Millis(t)`. */
  datatype World = World(
    t: nat, passT: nat, m: Mission, s: Machine, sched: Schedule,
    lastSeen: SystemState, testRequested: bool)

  /** After `setup()`: boot is not a surfacing, so one located report counts as sent. */
  function Boot(t: nat): World {
    World(t, t, EMPTY, Booted(Millis(t)),
          Noted(Schedule(0, false, true, false), Millis(t), true, true), PreDive, false)
  }

  function Deliver(w: World, i: Input): World {
    var now := Millis(w.t);
    match i
    case Tick(ms) => w.(t := w.t + ms)
    case Heartbeat(from) =>
      if from == AUTOPILOT then w.(m := WithHeartbeat(w.m, now)) else w
    case Battery(from, mv) =>
      if from == AUTOPILOT && mv != 65535 then w.(m := WithVoltage(w.m, Finite(mv as real / 1000.0), now)) else w
    case Depth(from, d) =>
      if from == AUTOPILOT then w.(m := WithDepth(w.m, d, now)) else w
    case Named(from, name, value) =>
      (match Classify(from, name, value)
       case StateReport(n) => w.(m := WithDorisState(w.m, n, now))
       case MinTemperature(t) => w.(m := WithMinimumTemperature(w.m, Finite(t)))
       case PowerAck => w.(s := Acknowledge(w.s, now))
       case Ignored => w)
    case LeakCommand(leak) => w.(m := w.m.(leak := leak))
    case ResetCommand => w.(s := Reset(w.s, now))
    case TestCommand => w.(testRequested := true)
  }

  /** The three tests of `checkStateTransitions` that follow the autopilot. */
  function Follow(s: Machine, doris: int, now: u32): Machine {
    var was := s.current;
    var s := if doris <= 0 && was.Recovery? then Reset(s, now) else s;
    var s := if 1 <= doris <= 3 && was.PreDive? then EnterDiving(s, now) else s;
    if doris >= 4 && !was.Recovery? then Enter(s, Recovery, now) else s
  }

  /** A requested manual test runs only with a fix; either way the request is spent. */
  predicate TestRuns(w: World, c: Chance) {
    w.testRequested && c.enabled && c.fix
  }

  predicate ReportDue(w: World, c: Chance) {
    if c.fix then LocatedDue(w.sched, Millis(w.passT), c.interval)
    else UnlocatedDue(w.sched, Millis(w.passT), c.interval)
  }

  predicate ReportRuns(w: World, c: Chance) {
    c.enabled && CanTransmit(w.s) && ReportDue(w, c)
  }

  /** One blocking modem session, noted when it ends. */
  function Session(w: World, c: Chance): World {
    var t := w.t + c.ms;
    w.(t := t, sched := Noted(w.sched, Millis(t), c.fix, c.ok))
  }

  function Step(w: World, e: Event): World {
    var now := Millis(w.t);
    match e
    case Receive(i) => Deliver(w, i)
    case BeginPass => w.(passT := w.t)
    case PollUpdate => w.(s := Update(w.s, w.m, now))
    case PollSurfacePower => w.(s := UpdateSurfacePower(w.s, w.m, now))
    case FollowLua => w.(s := Follow(w.s, w.m.doris, now))
    case PollBackstop => w.(s := UpdateSurfaceBackstop(w.s, w.m, now))
    case WatchState =>
      w.(lastSeen := w.s.current,
         sched := if w.s.current != w.lastSeen && w.s.current.Recovery? then FRESH else w.sched)
    case ManualTest(c) =>
      if TestRuns(w, c) then Session(w.(testRequested := false), c)
      else if c.enabled then w.(testRequested := false)
      else w
    case AutoReport(c) =>
      if ReportRuns(w, c) then Session(w, c) else w
  }

  /** The world after the first `n` events of a run that starts in `b`. */
  function At(b: World, es: seq<Event>, n: nat): World
    requires n <= |es|
  {
    if n == 0 then b else Step(At(b, es, n - 1), es[n - 1])
  }

  function Run(b: World, es: seq<Event>): World {
    At(b, es, |es|)
  }

  lemma {:induction false} AtAppend(b: World, es: seq<Event>, fs: seq<Event>, n: nat)
    requires n <= |es| + |fs|
    ensures At(b, es + fs, n) == if n <= |es| then At(b, es, n) else At(Run(b, es), fs, n - |es|)
    decreases n
  {
    if n > 0 {
      AtAppend(b, es, fs, n - 1);
    }
  }

  lemma RunAppend(b: World, es: seq<Event>, fs: seq<Event>)
    ensures Run(b, es + fs) == Run(Run(b, es), fs)
  {
    AtAppend(b, es, fs, |es| + |fs|);
  }

  /** `tr` lists every world of the run of `es`. */
  ghost predicate IsRun(tr: seq<World>, es: seq<Event>) {
    && |tr| == |es| + 1
    && forall i | 0 <= i < |es| :: tr[i + 1] == Step(tr[i], es[i])
  }

  /** A run that starts when `setup()` returns at true time `t`. */
  ghost predicate FromBoot(t: nat, tr: seq<World>, es: seq<Event>) {
    IsRun(tr, es) && tr[0] == Boot(t)
  }

  /** Every event sequence has its run, and `Run` is where it ends. */
  lemma {:induction false} RunHasTrace(b: World, es: seq<Event>) returns (tr: seq<World>)
    ensures IsRun(tr, es) && tr[0] == b && tr[|es|] == Run(b, es)
  {
    tr := seq(|es| + 1, i requires 0 <= i <= |es| => At(b, es, i));
    forall i | 0 <= i < |es| ensures tr[i + 1] == Step(tr[i], es[i]) {
      assert At(b, es, i + 1) == Step(At(b, es, i), es[i]);
    }
  }

  /** True time never runs backwards along `tr`. */
  ghost predicate ClockRuns(tr: seq<World>) {
    forall i | 0 < i < |tr| :: tr[i - 1].t <= tr[i].t
  }

  lemma RunClock(tr: seq<World>, es: seq<Event>)
    requires IsRun(tr, es)
    ensures ClockRuns(tr)
  {
  }

  /** The counter never overstates the time between two moments of a run. */
  lemma {:induction false} Elapsed(tr: seq<World>, i: nat, j: nat)
    requires ClockRuns(tr) && i <= j < |tr|
    ensures 0 <= tr[j].t - tr[i].t
    ensures Since(Millis(tr[j].t), Millis(tr[i].t)) == (tr[j].t - tr[i].t) % WRAP <= tr[j].t - tr[i].t
    ensures tr[j].t - tr[i].t < WRAP ==> Since(Millis(tr[j].t), Millis(tr[i].t)) == tr[j].t - tr[i].t
    decreases j
  {
    if i < j { Elapsed(tr, i, j - 1); }
    SinceBound(tr[i].t, tr[j].t);
  }

  /** What happens during one pass of `loop()`; the waits stand for the work between the calls. */
  datatype Pass = Pass(waits: (nat, nat, nat, nat, nat, nat, nat), inbox: seq<Input>, manual: Chance, report: Chance)

  function Inbox(inbox: seq<Input>): seq<Event> {
    seq(|inbox|, i requires 0 <= i < |inbox| => Receive(inbox[i]))
  }

  function HeadEvents(p: Pass): seq<Event> {
    [BeginPass, Receive(Tick(p.waits.0)), PollUpdate, Receive(Tick(p.waits.1)), PollSurfacePower]
  }

  function FollowEvents(p: Pass): seq<Event> {
    [FollowLua, Receive(Tick(p.waits.2)), PollBackstop, Receive(Tick(p.waits.3)), WatchState]
  }

  function TailEvents(p: Pass): seq<Event> {
    [Receive(Tick(p.waits.4)), ManualTest(p.manual), Receive(Tick(p.waits.5)), AutoReport(p.report),
     Receive(Tick(p.waits.6))]
  }

  /** The calls of one pass in their order. */
  function PassEvents(p: Pass): seq<Event> {
    HeadEvents(p) + Inbox(p.inbox) + FollowEvents(p) + TailEvents(p)
  }

  class Firmware {
    var clock: nat
    var passStart: nat
    const mission: MissionStore
    const machine: Controller
    const schedule: ReportSchedule
    var lastSeenState: SystemState
    var iridiumTestRequested: bool

    function View(): World
      reads this, mission, machine, machine.relay, schedule
    {
      World(clock, passStart, mission.data, machine.View(), schedule.View(), lastSeenState, iridiumTestRequested)
    }

    predicate Valid()
      reads machine, machine.relay
    {
      machine.Valid()
    }

    constructor (t: nat)
      ensures Valid() && fresh(mission) && fresh(machine) && fresh(machine.relay) && fresh(schedule)
      ensures View() == Boot(t)
    {
      clock := t;
      passStart := t;
      mission := new MissionStore();
      machine := new Controller(Millis(t));
      schedule := new ReportSchedule();
      lastSeenState := PreDive;
      iridiumTestRequested := false;
      new;
      schedule.NoteSent(Millis(t), true);
    }

    method HandleInput(i: Input)
      requires Valid()
      modifies this, mission, machine, machine.relay
      ensures Valid() && View() == Deliver(old(View()), i)
    {
      var now := Millis(clock);
      match i
      case Tick(ms) => clock := clock + ms;
      case Heartbeat(from) =>
        if from == AUTOPILOT { mission.UpdateHeartbeat(now); }
      case Battery(from, mv) =>
        if from == AUTOPILOT && mv != 65535 { mission.UpdateAutopilotVoltage(Finite(mv as real / 1000.0), now); }
      case Depth(from, d) =>
        if from == AUTOPILOT { mission.UpdateDepth(d, now); }
      case Named(from, name, value) =>
        match Classify(from, name, value) {
          case StateReport(n) => mission.UpdateDorisState(n, now);
          case MinTemperature(t) => mission.UpdateMinimumTemperature(Finite(t));
          case PowerAck =>
            var accepted := machine.AcknowledgeShutdown(now);
          case Ignored =>
        }
      case LeakCommand(leak) => mission.SetLeak(leak);
      case ResetCommand => machine.ResetState(now);
      case TestCommand => iridiumTestRequested := true;
    }

    method ProcessSerialInput(inbox: seq<Input>)
      requires Valid()
      modifies this, mission, machine, machine.relay
      ensures Valid() && View() == Run(old(View()), Inbox(inbox))
    {
      ghost var b := View();
      for i := 0 to |inbox|
        invariant Valid() && View() == At(b, Inbox(inbox), i)
      {
        HandleInput(inbox[i]);
      }
    }

    method FollowAutopilot(now: u32)
      requires Valid()
      modifies machine, machine.relay
      ensures Valid() && machine.View() == Follow(old(machine.View()), mission.data.doris, now)
    {
      var dorisState := mission.data.doris;
      var currentState := machine.current;
      if dorisState <= 0 && currentState != PreDive && currentState != Diving {
        machine.ResetState(now);
      }
      if dorisState >= 1 && dorisState <= 3 && currentState == PreDive {
        machine.EnterDivingState(now);
      }
      if dorisState >= 4 && currentState != Recovery {
        machine.EnterRecoveryState(now);
      }
    }

    method CheckStateTransitions(p: Pass)
      requires Valid()
      modifies this, machine, machine.relay, schedule
      ensures Valid() && View() == Run(old(View()), FollowEvents(p))
    {
      ghost var b := View();
      FollowAutopilot(Millis(clock));
      ghost var followed := Step(b, FollowLua);
      assert View() == followed;
      Wait(p.waits.2);
      ghost var waited := Step(followed, Receive(Tick(p.waits.2)));
      assert View() == waited;
      var entered := machine.PollSurfaceBackstop(mission.data, Millis(clock));
      ghost var polled := Step(waited, PollBackstop);
      assert View() == polled;
      Wait(p.waits.3);
      Watch();
      assert View() == Step(Step(polled, Receive(Tick(p.waits.3))), WatchState);
      FiveSteps(b, FollowEvents(p));
    }

    /** Every entry into RECOVERY, whichever way, restarts the report schedule. */
    method Watch()
      requires Valid()
      modifies this, schedule
      ensures Valid() && View() == Step(old(View()), WatchState)
    {
      var newState := machine.current;
      if newState != lastSeenState {
        lastSeenState := newState;
        if newState == Recovery { schedule.Reset(); }
      }
    }

    /** A blocking modem session and the note of its outcome. */
    method RunSession(c: Chance)
      requires Valid()
      modifies this, schedule
      ensures Valid() && View() == Session(old(View()), c)
    {
      clock := clock + c.ms;
      if c.ok {
        schedule.NoteSent(Millis(clock), c.fix);
      } else {
        schedule.NoteAttempt(Millis(clock), c.fix);
      }
    }

    method ManualSection(c: Chance)
      requires Valid()
      modifies this, schedule
      ensures Valid() && View() == Step(old(View()), ManualTest(c))
    {
      if iridiumTestRequested && c.enabled {
        iridiumTestRequested := false;
        if c.fix { RunSession(c); }
      }
    }

    method ReportSection(c: Chance)
      requires Valid()
      modifies this, schedule
      ensures Valid() && View() == Step(old(View()), AutoReport(c))
    {
      if c.enabled && machine.current == Recovery && !machine.nonessentialsPowered {
        var now := Millis(passStart);
        var located := c.fix && LocatedDue(schedule.View(), now, c.interval);
        var unlocated := !c.fix && UnlocatedDue(schedule.View(), now, c.interval);
        if located || unlocated { RunSession(c); }
      }
    }

    /** Time that the work between two calls takes. */
    method Wait(ms: nat)
      requires Valid()
      modifies `clock
      ensures Valid() && View() == Step(old(View()), Receive(Tick(ms)))
    {
      clock := clock + ms;
    }

    method PollSection(p: Pass)
      requires Valid()
      modifies this, mission, machine, machine.relay
      ensures Valid() && View() == Run(old(View()), HeadEvents(p))
    {
      ghost var b := View();
      passStart := clock;
      Wait(p.waits.0);
      machine.UpdateFailsafes(mission.data, Millis(clock));
      ghost var polled := Step(Step(Step(b, BeginPass), Receive(Tick(p.waits.0))), PollUpdate);
      assert View() == polled;
      Wait(p.waits.1);
      machine.PollSurfacePower(mission.data, Millis(clock));
      assert View() == Step(Step(polled, Receive(Tick(p.waits.1))), PollSurfacePower);
      FiveSteps(b, HeadEvents(p));
    }

    method IridiumSections(p: Pass)
      requires Valid()
      modifies this, schedule
      ensures Valid() && View() == Run(old(View()), TailEvents(p))
    {
      ghost var b := View();
      Wait(p.waits.4);
      ManualSection(p.manual);
      Wait(p.waits.5);
      ReportSection(p.report);
      Wait(p.waits.6);
      FiveSteps(b, TailEvents(p));
    }

    /** One pass of `loop()` is exactly the run of its events. */
    method Loop(p: Pass)
      requires Valid()
      modifies this, mission, machine, machine.relay, schedule
      ensures Valid() && View() == Run(old(View()), PassEvents(p))
    {
      PassIsRun(View(), p);
      PollSection(p);
      ProcessSerialInput(p.inbox);
      CheckStateTransitions(p);
      IridiumSections(p);
    }
  }

  lemma PassIsRun(b: World, p: Pass)
    ensures Run(b, PassEvents(p)) ==
              Run(Run(Run(Run(b, HeadEvents(p)), Inbox(p.inbox)), FollowEvents(p)), TailEvents(p))
  {
    var head, inbox, follow := HeadEvents(p), Inbox(p.inbox), FollowEvents(p);
    RunAppend(b, head + inbox + follow, TailEvents(p));
    RunAppend(b, head + inbox, follow);
    RunAppend(b, head, inbox);
  }

  lemma FiveSteps(b: World, es: seq<Event>)
    requires |es| == 5
    ensures Run(b, es) == Step(Step(Step(Step(Step(b, es[0]), es[1]), es[2]), es[3]), es[4])
  {
    assert At(b, es, 1) == Step(b, es[0]);
    assert At(b, es, 2) == Step(At(b, es, 1), es[1]);
    assert At(b, es, 3) == Step(At(b, es, 2), es[2]);
    assert At(b, es, 4) == Step(At(b, es, 3), es[3]);
    assert At(b, es, 5) == Step(At(b, es, 4), es[4]);
  }
}
