/** Runs of the loop in which a promise one might expect of the firmware fails. */
module Counterexamples {
  import opened Common
  import opened Clock
  import opened MissionData
  import opened StateMachine
  import opened IridiumSchedule
  import opened MavlinkGates
  import opened MainLoop
  import opened LoopOrder
  import opened HandshakeSafety
  import opened DiveExits
  import opened Reporting

  const OFF: Chance := Chance(false, 0, false, 0, false)

  /** A pass that takes no time of its own and leaves the modem alone. */
  function Brief(inbox: seq<Input>): Pass {
    Pass((0, 0, 0, 0, 0, 0, 0), inbox, OFF, OFF)
  }

  function HeadOf(w: World, p: Pass): World {
    var w := Step(Step(w, BeginPass), Receive(Tick(p.waits.0)));
    Step(Step(Step(w, PollUpdate), Receive(Tick(p.waits.1))), PollSurfacePower)
  }

  function FollowOf(w: World, p: Pass): World {
    var w := Step(Step(w, FollowLua), Receive(Tick(p.waits.2)));
    Step(Step(Step(w, PollBackstop), Receive(Tick(p.waits.3))), WatchState)
  }

  function TailOf(w: World, p: Pass): World {
    var w := Step(Step(w, Receive(Tick(p.waits.4))), ManualTest(p.manual));
    Step(Step(Step(w, Receive(Tick(p.waits.5))), AutoReport(p.report)), Receive(Tick(p.waits.6)))
  }

  function InboxOf(w: World, inbox: seq<Input>): World {
    if inbox == [] then w else Deliver(InboxOf(w, inbox[..|inbox| - 1]), inbox[|inbox| - 1])
  }

  lemma {:induction false} InboxIsRun(w: World, inbox: seq<Input>, n: nat)
    requires n <= |inbox|
    ensures At(w, Inbox(inbox), n) == InboxOf(w, inbox[..n])
    decreases n
  {
    if n > 0 {
      InboxIsRun(w, inbox, n - 1);
      assert inbox[..n][..n - 1] == inbox[..n - 1];
    }
  }

  /** The world after boot and these passes. */
  function After(ps: seq<Pass>): World {
    Run(Boot(0), LoopEvents(ps))
  }

  /** One more pass, section by section. */
  lemma OnePass(ps: seq<Pass>, p: Pass)
    ensures After(ps + [p]) == TailOf(FollowOf(InboxOf(HeadOf(After(ps), p), p.inbox), p), p)
  {
    var w := After(ps);
    assert (ps + [p])[..|ps|] == ps;
    RunAppend(Boot(0), LoopEvents(ps), PassEvents(p));
    PassIsRun(w, p);
    FiveSteps(w, HeadEvents(p));
    InboxIsRun(HeadOf(w, p), p.inbox, |p.inbox|);
    assert p.inbox[..|p.inbox|] == p.inbox;
    var x := InboxOf(HeadOf(w, p), p.inbox);
    FiveSteps(x, FollowEvents(p));
    FiveSteps(FollowOf(x, p), TailEvents(p));
  }

  // ---------------------------------------------------------------- a surfaced vehicle

  /** Passes that take a minute at most, with one input each and never a reset. */
  predicate Everyday(ps: seq<Pass>) {
    forall p | p in ps ::
      p == Brief(p.inbox) && |p.inbox| == 1 && p.inbox[0] != ResetCommand
      && (p.inbox[0].Tick? ==> p.inbox[0].ms <= 60000)
  }

  const DIVE: Pass := Brief([Report(1).input])
  const SURFACE: Pass := Brief([Report(4).input])

  function Knows(state: int): Mission {
    EMPTY.(doris := state, dorisValid := true)
  }

  /** With no dwell to time, and no dive or only a young one, the polls record the time in state. */
  lemma PollsAreIdle(w: World, inbox: seq<Input>)
    requires w.s.hs == NO_HANDSHAKE && !w.s.current.Recovery?
    requires w.s.current.Diving? ==> Since(Millis(w.t), w.s.entryTime) < DIVE_HEARTBEAT_GRACE_MS
    ensures HeadOf(w, Brief(inbox)) ==
              w.(passT := w.t, s := w.s.(timeInState := Since(Millis(w.t), w.s.entryTime), criticalActive := false))
  {
  }

  lemma FollowsIntoDive(w: World, inbox: seq<Input>)
    requires w.s.current.PreDive? && w.m.doris == 1
    ensures FollowOf(w, Brief(inbox)) ==
              w.(s := EnterDiving(w.s, Millis(w.t)).(window := NO_WINDOW), lastSeen := Diving)
  {
  }

  lemma FollowsIntoRecovery(w: World, inbox: seq<Input>)
    requires w.s.current.Diving? && w.m.doris == 4 && w.lastSeen.Diving?
    ensures FollowOf(w, Brief(inbox)) ==
              w.(s := Enter(w.s, Recovery, Millis(w.t)).(window := NO_WINDOW), lastSeen := Recovery, sched := FRESH)
  {
  }

  lemma ModemStaysOff(w: World, inbox: seq<Input>)
    ensures TailOf(w, Brief(inbox)) == w
  {
  }

  lemma OneInput(w: World, i: Input)
    ensures InboxOf(w, [i]) == Deliver(w, i)
  {
    assert [i][..0] == [];
  }

  predicate Fresh(w: World) {
    && w.t == 0 && w.m == EMPTY && !w.testRequested
    && w.s.current.PreDive? && !w.s.criticalActive && w.s.hs == NO_HANDSHAKE && w.s.powered
  }

  /** A world in a dive, as the first pass after boot leaves it. */
  predicate InDive(w: World) {
    && w.t == 0 && w.m == Knows(1) && !w.testRequested && w.lastSeen.Diving?
    && w.s.current.Diving? && w.s.entryTime == 0 && !w.s.criticalActive && w.s.hs == NO_HANDSHAKE && w.s.powered
  }

  /** One pass after boot a report of DESCENT has started the dive. */
  lemma Dives(ps: seq<Pass>)
    requires Fresh(After(ps))
    ensures InDive(After(ps + [DIVE]))
  {
    ReportMeans(1);
    OnePass(ps, DIVE);
    var w := After(ps);
    PollsAreIdle(w, DIVE.inbox);
    var x := HeadOf(w, DIVE);
    OneInput(x, Report(1).input);
    var y := Deliver(x, Report(1).input);
    assert y == x.(m := Knows(1));
    FollowsIntoDive(y, DIVE.inbox);
    ModemStaysOff(FollowOf(y, DIVE), DIVE.inbox);
  }

  lemma DiveRun() returns (ps: seq<Pass>)
    ensures InDive(After(ps)) && Everyday(ps)
  {
    var none: seq<Pass> := [];
    assert LoopEvents(none) == [];
    assert Fresh(After(none));
    Dives(none);
    ps := none + [DIVE];
  }

  /** A world in RECOVERY after a dive that the loop has watched. */
  predicate Surfaced(w: World, t: nat) {
    && w.t == t && w.m == Knows(4) && w.lastSeen.Recovery? && !w.testRequested && w.sched == FRESH
    && w.s.current.Recovery? && w.s.previous.Diving?
  }

  lemma Surfaces(ps: seq<Pass>)
    requires InDive(After(ps))
    ensures var w := After(ps + [SURFACE]);
      Surfaced(w, 0) && w.s.hs == NO_HANDSHAKE && w.s.powered
  {
    ReportMeans(4);
    OnePass(ps, SURFACE);
    var w := After(ps);
    PollsAreIdle(w, SURFACE.inbox);
    var x := HeadOf(w, SURFACE);
    OneInput(x, Report(4).input);
    var y := Deliver(x, Report(4).input);
    assert y == x.(m := Knows(4));
    FollowsIntoRecovery(y, SURFACE.inbox);
    ModemStaysOff(FollowOf(y, SURFACE), SURFACE.inbox);
  }

  /** In RECOVERY only the handshake poll and the inputs of a pass matter. */
  lemma RecoveryPass(ps: seq<Pass>, i: Input, t: nat)
    requires Surfaced(After(ps), t)
    requires i.Tick? || i == ACK.input || i.TestCommand?
    ensures After(ps + [Brief([i])]) ==
              var w := Deliver(PolledIn(After(ps)), i); w.(s := w.s.(window := NO_WINDOW))
  {
    var p, w := Brief([i]), After(ps);
    ReportMeans(0);
    OnePass(ps, p);
    RecoveryPolls(w, [i]);
    OneInput(HeadOf(w, p), i);
    var x := Deliver(PolledIn(w), i);
    RecoveryFollows(x, p);
    ModemStaysOff(FollowOf(x, p), [i]);
  }

  /** A world in RECOVERY after the polls of a brief pass. */
  function PolledIn(w: World): World {
    var s := w.s.(timeInState := Since(Millis(w.t), w.s.entryTime), criticalActive := false);
    w.(passT := w.t, s := UpdateSurfacePower(s, w.m, Millis(w.t)))
  }

  lemma RecoveryPolls(w: World, inbox: seq<Input>)
    requires w.s.current.Recovery?
    ensures HeadOf(w, Brief(inbox)) == PolledIn(w)
  {
  }

  lemma RecoveryFollows(w: World, p: Pass)
    requires w.s.current.Recovery? && w.m.doris == 4 && w.lastSeen.Recovery?
    requires p.waits.2 == p.waits.3 == 0
    ensures FollowOf(w, p) == w.(s := w.s.(window := NO_WINDOW))
  {
  }

  // ---------------------------------------------------------------- a request lapses

  predicate Dwelling(w: World, t: nat) {
    && Surfaced(w, t) && w.s.powered
    && w.s.hs.dwellActive && w.s.hs.qualified && w.s.hs.dwellStart == 0 && !w.s.hs.acknowledged
  }

  lemma DwellStarts(ps: seq<Pass>)
    requires Surfaced(After(ps), 0) && After(ps).s.hs == NO_HANDSHAKE && After(ps).s.powered
    ensures Dwelling(After(ps + [MINUTE]), 60000)
  {
    RecoveryPass(ps, Tick(60000), 0);
  }

  const MINUTE: Pass := Brief([Tick(60000)])

  lemma MinutePolled(ps: seq<Pass>, t: nat)
    requires Dwelling(After(ps), t)
    ensures var w := After(ps + [MINUTE]);
      Dwelling(w, t + 60000) && w.s.hs.requested == (t % WRAP >= SURFACE_LOGGING_DWELL_MS)
  {
    RecoveryPass(ps, Tick(60000), t);
  }

  /** The passes that bring a vehicle from boot some minutes into its surface dwell. */
  lemma {:induction false} DwellRun(minutes: nat) returns (ps: seq<Pass>)
    requires minutes > 0
    ensures Everyday(ps) && Dwelling(After(ps), 60000 * minutes)
    decreases minutes
  {
    if minutes == 1 {
      ps := DiveRun();
      Surfaces(ps);
      ps := ps + [SURFACE];
      DwellStarts(ps);
    } else {
      ps := DwellRun(minutes - 1);
      MinutePolled(ps, 60000 * (minutes - 1));
    }
    ps := ps + [MINUTE];
  }

  /** A shutdown request that nobody acknowledges does not stand for ever: in a vehicle that stays in
      RECOVERY, a poll that comes less than 180 s after the counter wrapped withdraws it. */
  lemma RequestLapses() returns (ps: seq<Pass>)
    ensures Everyday(ps + [MINUTE])
    ensures StageOf(After(ps).s) == AwaitingAck
    ensures StageOf(After(ps + [MINUTE]).s) == Idle && After(ps + [MINUTE]).s.current.Recovery?
    ensures After(ps + [MINUTE]).s.hs.dwellActive
    ensures After(ps + [MINUTE]).s.hs.dwellStart == After(ps).s.hs.dwellStart
  {
    var dwell := DwellRun(71582);
    MinutePolled(dwell, 60000 * 71582);
    ps := dwell + [MINUTE];
    MinutePolled(ps, 60000 * 71583);
  }

  // ---------------------------------------------------------------- a cutoff is undone

  lemma FollowsOutOfRecovery(w: World, inbox: seq<Input>)
    requires w.s.current.Recovery? && w.m.doris == 0
    ensures FollowOf(w, Brief(inbox)) ==
              w.(s := Reset(w.s, Millis(w.t)).(window := NO_WINDOW), lastSeen := PreDive)
  {
  }

  const RESTART_MISSION: Pass := Brief([Report(0).input])

  lemma MissionRestarts(ps: seq<Pass>, t: nat)
    requires Surfaced(After(ps), t)
    ensures var w := After(ps + [RESTART_MISSION]);
      w.s.current.PreDive? && StageOf(w.s) == Idle && w.s.relay
  {
    ReportMeans(0);
    OnePass(ps, RESTART_MISSION);
    var w := After(ps);
    RecoveryPolls(w, RESTART_MISSION.inbox);
    var x := PolledIn(w);
    OneInput(x, Report(0).input);
    var y := Deliver(x, Report(0).input);
    assert y.s == x.s && y.m.doris == 0;
    FollowsOutOfRecovery(y, RESTART_MISSION.inbox);
    ModemStaysOff(FollowOf(y, RESTART_MISSION), RESTART_MISSION.inbox);
  }

  const GRACE: Pass := Brief([Tick(30000)])

  /** The passes that bring a vehicle from boot to the end of the final grace. */
  lemma GraceRun() returns (ps: seq<Pass>)
    ensures Everyday(ps)
    ensures Surfaced(After(ps), 210000) && After(ps).s.hs.acknowledged && After(ps).s.hs.ackTime == 180000
  {
    ps := DwellRun(3);
    Acknowledged(ps);
    ps := ps + [Brief([ACK.input])];
    GracePasses(ps);
    ps := ps + [GRACE];
  }

  /** The documented claim that only a power cycle cancels the sequence fails: a mission goes
      through to the cutoff, and a later report of MISSION_START brings the payload back. */
  lemma CutoffIsReachableAndNotPermanent() returns (ps: seq<Pass>)
    ensures Everyday(ps + [RESTART_MISSION])
    ensures StageOf(After(ps).s) == PayloadOff && !After(ps).s.relay && After(ps).s.current.Recovery?
    ensures var w := After(ps + [RESTART_MISSION]);
      w.s.current.PreDive? && StageOf(w.s) == Idle && w.s.relay
  {
    var grace := GraceRun();
    RecoveryPass(grace, Tick(60000), 210000);
    ps := grace + [MINUTE];
    MissionRestarts(ps, 270000);
  }

  // ---------------------------------------------------------------- a report follows a test at once

  lemma Acknowledged(ps: seq<Pass>)
    requires Dwelling(After(ps), 180000)
    ensures var w := After(ps + [Brief([ACK.input])]);
      Surfaced(w, 180000) && w.s.hs.acknowledged && w.s.hs.ackTime == 180000 && w.s.powered
  {
    ReportMeans(0);
    RecoveryPass(ps, ACK.input, 180000);
  }

  lemma GracePasses(ps: seq<Pass>)
    requires var w := After(ps);
      Surfaced(w, 180000) && w.s.hs.acknowledged && w.s.hs.ackTime == 180000 && w.s.powered
    ensures var w := After(ps + [GRACE]);
      Surfaced(w, 210000) && w.s.hs.acknowledged && w.s.hs.ackTime == 180000
  {
    RecoveryPass(ps, Tick(30000), 180000);
  }

  const TEST: Chance := Chance(true, 300000, true, 60000, true)
  const REPORT: Chance := Chance(true, 300000, true, 1000, true)
  const TEST_PASS: Pass := Pass((0, 0, 0, 0, 0, 0, 0), [TestCommand], TEST, REPORT)

  /** The world in which the loop reaches the manual test of that pass. */
  function BeforeTail(w: World): World {
    FollowOf(InboxOf(HeadOf(w, TEST_PASS), TEST_PASS.inbox), TEST_PASS)
  }

  lemma TestReached(w: World)
    requires Surfaced(w, 210000) && w.s.hs.acknowledged && w.s.hs.ackTime == 180000
    ensures var x := BeforeTail(w);
      x.t == x.passT == 210000 && TestRuns(x, TEST) && CanTransmit(x.s) && x.sched == FRESH
  {
    OneInput(HeadOf(w, TEST_PASS), TestCommand);
    RecoveryFollows(Deliver(HeadOf(w, TEST_PASS), TestCommand), TEST_PASS);
  }

  /** Where the modem's part of the last pass lies in a run. */
  lemma TailOfRun(ps: seq<Pass>, p: Pass) returns (tr: seq<World>, es: seq<Event>)
    ensures es == LoopEvents(ps + [p]) && |es| >= 5 && FromBoot(0, tr, es)
    ensures es[|es| - 5..] == TailEvents(p)
    ensures tr[|es| - 5] == FollowOf(InboxOf(HeadOf(After(ps), p), p.inbox), p)
  {
    es := LoopEvents(ps + [p]);
    assert (ps + [p])[..|ps|] == ps;
    var front := HeadEvents(p) + Inbox(p.inbox) + FollowEvents(p);
    var before := LoopEvents(ps) + front;
    assert es == before + TailEvents(p);
    var tr0 := RunHasTrace(Boot(0), before);
    tr := Continue(0, tr0, before, TailEvents(p));
    assert tr[|before|] == tr[..|tr0|][|before|];
    RunAppend(Boot(0), LoopEvents(ps), front);
    FrontIsRun(After(ps), p);
  }

  lemma FrontIsRun(w: World, p: Pass)
    ensures Run(w, HeadEvents(p) + Inbox(p.inbox) + FollowEvents(p)) ==
              FollowOf(InboxOf(HeadOf(w, p), p.inbox), p)
  {
    RunAppend(w, HeadEvents(p) + Inbox(p.inbox), FollowEvents(p));
    RunAppend(w, HeadEvents(p), Inbox(p.inbox));
    FiveSteps(w, HeadEvents(p));
    InboxIsRun(HeadOf(w, p), p.inbox, |p.inbox|);
    assert p.inbox[..|p.inbox|] == p.inbox;
    FiveSteps(InboxOf(HeadOf(w, p), p.inbox), FollowEvents(p));
  }

  lemma TestThenReport(tr: seq<World>, es: seq<Event>)
    requires |es| >= 5 && IsRun(tr, es) && es[|es| - 5..] == TailEvents(TEST_PASS)
    requires var x := tr[|es| - 5];
      x.t == x.passT == 210000 && TestRuns(x, TEST) && CanTransmit(x.s) && x.sched == FRESH
    ensures var a, b := |es| - 4, |es| - 2;
      && Consecutive(tr, es, a, b) && es[a] == ManualTest(TEST) && es[b] == AutoReport(REPORT)
      && tr[b].t == tr[a + 1].t && !Spaced(tr, es, a, b)
  {
    var n := |es| - 5;
    var tail := es[n..];
    assert es[n] == tail[0] && es[n + 1] == tail[1] && es[n + 2] == tail[2] && es[n + 3] == tail[3];
    assert tr[n + 1] == Step(tr[n], Receive(Tick(0))) == tr[n];
    assert tr[n + 2] == Step(tr[n], ManualTest(TEST));
    assert tr[n + 3] == Step(tr[n + 2], Receive(Tick(0))) == tr[n + 2];
    TestDoesNotHoldBackReport(tr[n], TEST, REPORT);
  }

  /** The spacing of reports fails in a run of the loop: a minute-long manual test is followed at
      once by a located report that should wait five minutes. */
  lemma ReportFollowsTestAtOnce() returns (ps: seq<Pass>, tr: seq<World>, es: seq<Event>, a: nat, b: nat)
    ensures es == LoopEvents(ps) && FromBoot(0, tr, es)
    ensures Consecutive(tr, es, a, b) && es[a] == ManualTest(TEST) && es[b] == AutoReport(REPORT)
    ensures tr[b].t == tr[a + 1].t && !Spaced(tr, es, a, b)
  {
    ps := GraceRun();
    TestReached(After(ps));
    tr, es := TailOfRun(ps, TEST_PASS);
    ps := ps + [TEST_PASS];
    a, b := |es| - 4, |es| - 2;
    TestThenReport(tr, es);
  }

  // ---------------------------------------------------------------- low voltage from an earlier dive

  const LOW: Input := Battery(AUTOPILOT, 10000)
  const DRAIN: Pass := Brief([Tick(90000), LOW])
  const RESTART: Pass := Brief([Tick(9000), LOW, ResetCommand, Tick(2000)])
  const LONG_PASS: Pass := Pass((WRAP - 1000, 0, 0, 0, 0, 0, 0), [], OFF, OFF)

  function Drained(now: u32): Mission {
    Knows(1).(voltage := 10.0, voltageFromAutopilot := true, voltageMs := now)
  }

  lemma FollowsOn(w: World, inbox: seq<Input>)
    requires w.s.current.Diving? && w.m.doris == 1
    ensures FollowOf(w, Brief(inbox)) == w.(s := w.s.(window := NO_WINDOW), lastSeen := Diving)
  {
  }

  predicate LowDive(w: World) {
    && w.t == 90000 && w.m == Drained(90000)
    && w.s.current.Diving? && w.s.entryTime == 0 && !w.s.criticalActive && w.s.hs == NO_HANDSHAKE && w.s.powered
  }

  lemma Drains(ps: seq<Pass>)
    requires InDive(After(ps))
    ensures LowDive(After(ps + [DRAIN]))
  {
    var w := After(ps);
    OnePass(ps, DRAIN);
    PollsAreIdle(w, DRAIN.inbox);
    var x := HeadOf(w, DRAIN);
    TwoInputs(x, Tick(90000), LOW);
    var y := Deliver(Deliver(x, Tick(90000)), LOW);
    assert y == x.(t := 90000, m := Drained(90000));
    FollowsOn(y, DRAIN.inbox);
    ModemStaysOff(FollowOf(y, DRAIN), DRAIN.inbox);
  }

  lemma TwoInputs(w: World, i: Input, j: Input)
    ensures InboxOf(w, [i, j]) == Deliver(Deliver(w, i), j)
  {
    OneInput(w, i);
    assert [i, j][..1] == [i];
  }

  lemma FourInputs(w: World, i: Input, j: Input, k: Input, l: Input)
    ensures InboxOf(w, [i, j, k, l]) == Deliver(Deliver(Deliver(Deliver(w, i), j), k), l)
  {
    TwoInputs(w, i, j);
    assert [i, j, k, l][..3] == [i, j, k] && [i, j, k][..2] == [i, j];
  }

  /** Reset out of a dive with the voltage timer running. */
  predicate Restarted(w: World) {
    && w.t == 101000 && w.m == Drained(99000)
    && w.s.current.PreDive? && w.s.criticalActive && w.s.criticalStart == 90000
  }

  lemma LeavesDive(w: World)
    requires LowDive(w)
    ensures Restarted(InboxOf(HeadOf(w, RESTART), RESTART.inbox))
  {
    var x := HeadOf(w, RESTART);
    assert x.m == w.m && x.t == 90000 && x.s.criticalActive && x.s.criticalStart == 90000;
    FourInputs(x, Tick(9000), LOW, ResetCommand, Tick(2000));
  }

  const BLOCK: seq<Event> := FollowEvents(RESTART) + TailEvents(RESTART) + HeadEvents(LONG_PASS)

  lemma DiveStarts(tr: seq<World>, es: seq<Event>, i: nat)
    requires IsRun(tr, es) && |es| >= i + 5 && es[i..i + 5] == FollowEvents(RESTART) && Restarted(tr[i])
    ensures tr[i + 5] == FollowOf(tr[i], RESTART)
    ensures forall k | i < k <= i + 5 :: tr[k].s.current.Diving?
  {
    var part := es[i..i + 5];
    assert es[i] == part[0] && es[i + 1] == part[1] && es[i + 2] == part[2] && es[i + 3] == part[3] && es[i + 4] == part[4];
    var w := tr[i].(s := EnterDiving(tr[i].s, 101000));
    assert tr[i + 1] == Step(tr[i], FollowLua) == w;
    assert tr[i + 2] == Step(tr[i + 1], Receive(Tick(0))) == w;
    var v := w.(s := w.s.(window := NO_WINDOW));
    assert tr[i + 3] == Step(tr[i + 2], PollBackstop) == v;
    assert tr[i + 4] == Step(tr[i + 3], Receive(Tick(0))) == v;
    assert tr[i + 5] == Step(tr[i + 4], WatchState);
  }

  lemma NothingSent(tr: seq<World>, es: seq<Event>, i: nat)
    requires IsRun(tr, es) && |es| >= i + 5 && es[i..i + 5] == TailEvents(RESTART)
    ensures forall k | i <= k <= i + 5 :: tr[k] == tr[i]
  {
    var part := es[i..i + 5];
    assert es[i] == part[0] && es[i + 1] == part[1] && es[i + 2] == part[2] && es[i + 3] == part[3] && es[i + 4] == part[4];
    assert tr[i + 1] == tr[i];
    assert tr[i + 2] == Step(tr[i + 1], ManualTest(OFF)) == tr[i];
    assert tr[i + 3] == tr[i];
    assert tr[i + 4] == Step(tr[i + 3], AutoReport(OFF)) == tr[i];
    assert tr[i + 5] == tr[i];
  }

  lemma FirstPollFires(tr: seq<World>, es: seq<Event>, i: nat)
    requires IsRun(tr, es) && |es| >= i + 5 && es[i..i + 5] == HeadEvents(LONG_PASS)
    requires tr[i].t == 101000 && tr[i].m == Drained(99000) && tr[i].s.current.Diving?
    requires tr[i].s.entryTime == 101000 && tr[i].s.criticalActive && tr[i].s.criticalStart == 90000
    ensures tr[i + 1].s.current.Diving? && tr[i + 2].s.current.Diving?
    ensures tr[i + 3].s.current.Recovery? && tr[i + 3].s.failsafe.LowVoltage?
  {
    var part := es[i..i + 5];
    assert es[i] == part[0] && es[i + 1] == part[1] && es[i + 2] == part[2];
    assert tr[i + 1] == Step(tr[i], BeginPass);
    assert tr[i + 2] == Step(tr[i + 1], Receive(Tick(WRAP - 1000)));
    assert tr[i + 2].t == WRAP + 100000;
    assert tr[i + 3] == Step(tr[i + 2], PollUpdate);
  }

  lemma DiveEndsAtFirstPoll(tr: seq<World>, es: seq<Event>, i: nat)
    requires IsRun(tr, es) && |es| == i + 15 && es[i..] == BLOCK && Restarted(tr[i])
    ensures FirstPoll(tr, es, i, i + 12)
    ensures tr[i + 13].s.current.Recovery? && tr[i + 13].s.failsafe.LowVoltage?
  {
    assert es[i..i + 5] == BLOCK[..5] && es[i + 5..i + 10] == BLOCK[5..10] && es[i + 10..i + 15] == BLOCK[10..15];
    forall k | 0 <= k < 15 ensures es[i + k] == BLOCK[k] {
      assert es[i..][k] == es[i + k];
    }
    DiveStarts(tr, es, i);
    FollowsIntoDive(tr[i], RESTART.inbox);
    NothingSent(tr, es, i + 5);
    assert tr[i + 10] == tr[i + 5];
    FirstPollFires(tr, es, i + 10);
  }

  lemma RestartedRun() returns (tr: seq<World>, es: seq<Event>)
    ensures FromBoot(0, tr, es) && Restarted(tr[|es|]) && PhaseAfter(Done, es, |es|) == Some(Polled)
  {
    var dive := DiveRun();
    Drains(dive);
    var ps := dive + [DRAIN];
    LeavesDive(After(ps));
    var front := HeadEvents(RESTART) + Inbox(RESTART.inbox);
    es := LoopEvents(ps) + front;
    tr := RunHasTrace(Boot(0), es);
    RunAppend(Boot(0), LoopEvents(ps), front);
    RunAppend(After(ps), HeadEvents(RESTART), Inbox(RESTART.inbox));
    FiveSteps(After(ps), HeadEvents(RESTART));
    InboxIsRun(HeadOf(After(ps), RESTART), RESTART.inbox, |RESTART.inbox|);
    assert RESTART.inbox[..|RESTART.inbox|] == RESTART.inbox;
    LoopKeepsOrder(ps);
    SectionPhases(RESTART);
    InboxKeepsPolled(RESTART.inbox, |RESTART.inbox|);
    PhaseJoin(Done, HeadEvents(RESTART), Inbox(RESTART.inbox), Polled);
    PhaseJoin(Done, LoopEvents(ps), front, Done);
  }

  /** `LowVoltageWithinDive` needs its exception for old reports: were one pass to last a counter
      wrap, LOW_VOLTAGE would end a dive at its first failsafe poll, on a timer that an earlier dive
      left running. */
  lemma LowVoltageFromEarlierDive() returns (tr: seq<World>, es: seq<Event>, entry: nat, n: nat)
    ensures FromBoot(0, tr, es) && PhaseAfter(Done, es, |es|).Some? && n < |es|
    ensures FirstPoll(tr, es, entry, n)
    ensures tr[n + 1].s.current.Recovery? && tr[n + 1].s.failsafe.LowVoltage?
    ensures !exists start: nat :: entry < start && CriticalSince(tr, es, n, entry, start)
    ensures VoltageAged(tr, es, n)
  {
    var tr0, es0 := RestartedRun();
    tr := Continue(0, tr0, es0, BLOCK);
    es := es0 + BLOCK;
    entry, n := |es0|, |es0| + 12;
    assert tr[|es0|] == tr[..|tr0|][|es0|];
    DiveEndsAtFirstPoll(tr, es, entry);
    SectionPhases(RESTART);
    SectionPhases(LONG_PASS);
    PhaseJoin(Polled, FollowEvents(RESTART), TailEvents(RESTART), BeforeTest);
    PhaseJoin(Polled, FollowEvents(RESTART) + TailEvents(RESTART), HeadEvents(LONG_PASS), Done);
    PhaseJoin(Done, es0, BLOCK, Polled);
    FirstPollHasNoEvidence(tr, es, entry, n);
  }

  lemma FirstPollHasNoEvidence(tr: seq<World>, es: seq<Event>, entry: nat, n: nat)
    requires FromBoot(0, tr, es) && PhaseAfter(Done, es, |es|).Some? && FirstPoll(tr, es, entry, n)
    requires tr[n + 1].s.current.Recovery? && tr[n + 1].s.failsafe.LowVoltage?
    ensures VoltageAged(tr, es, n)
    ensures !exists start: nat :: entry < start && CriticalSince(tr, es, n, entry, start)
  {
    PhasePrefix(es, n, |es|);
    var x, f := LowVoltageWithinDive(0, tr, es, n);
    DiveIsUnique(tr, n, entry, x);
    assert f == n;
  }
}
