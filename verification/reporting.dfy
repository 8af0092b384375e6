/** Iridium reporting over every run of the loop: src/main.cpp and src/modules/iridium_schedule.cpp. */
module Reporting {
  import opened Common
  import opened Clock
  import opened StateMachine
  import opened IridiumSchedule
  import opened MainLoop
  import opened LoopOrder
  import opened Reports
  import opened HandshakeSafety

  // ---------------------------------------------------------------- one event

  /** An event that runs the modem and notes the outcome. */
  predicate Attempts(w: World, e: Event) {
    match e
    case ManualTest(c) => TestRuns(w, c)
    case AutoReport(c) => ReportRuns(w, c)
    case _ => false
  }

  predicate Restarts(w: World, e: Event) {
    e.WatchState? && w.s.current.Recovery? && !w.lastSeen.Recovery?
  }

  /** How one event can move the schedule and the watcher. */
  ghost predicate ScheduleMove(w: World, v: World, e: Event) {
    && v.lastSeen == (if e.WatchState? then w.s.current else w.lastSeen)
    && v.passT == (if e.BeginPass? then w.t else w.passT)
    && (if Attempts(w, e) then
          v.t == w.t + e.chance.ms
          && v.sched == Noted(w.sched, Millis(v.t), e.chance.fix, e.chance.ok)
        else v.sched == if Restarts(w, e) then FRESH else w.sched)
    && (e.WatchState? || e.ManualTest? || e.AutoReport? || e.BeginPass? || IsTick(e) ==> v.s == w.s)
  }

  lemma StepSchedule(w: World, e: Event)
    ensures ScheduleMove(w, Step(w, e), e)
  {
  }

  /** How one event can move the mission state. */
  ghost predicate VisitMove(w: World, v: World, e: Event) {
    && (v.s.current == w.s.current ==> v.s.previous == w.s.previous)
    && (v.s.current != w.s.current ==>
          && v.s.previous == w.s.current
          && (match e
              case PollUpdate => w.s.current.Diving? && v.s.current.Recovery?
              case PollBackstop => w.s.current.Diving? && v.s.current.Recovery? && w.s.window.active
              case FollowLua => true
              case _ => v.s.current.PreDive?))
  }

  /** How it can move the backstop window. */
  ghost predicate BackstopMove(w: World, v: World, e: Event) {
    if e.PollBackstop? then v.s.window.active ==> v.s.current.Diving? else v.s.window == w.s.window
  }

  ghost predicate StateMove(w: World, v: World, e: Event) {
    VisitMove(w, v, e) && BackstopMove(w, v, e)
  }

  lemma StepBackstop(w: World, e: Event)
    ensures BackstopMove(w, Step(w, e), e)
  {
  }

  lemma FollowVisit(w: World)
    ensures VisitMove(w, Step(w, FollowLua), FollowLua)
  {
  }

  lemma PollVisit(w: World, e: Event)
    requires e.PollUpdate? || e.PollBackstop? || e.PollSurfacePower?
    ensures VisitMove(w, Step(w, e), e)
  {
  }

  lemma StepMission(w: World, e: Event)
    ensures StateMove(w, Step(w, e), e)
  {
    StepBackstop(w, e);
    match e
    case FollowLua => FollowVisit(w);
    case PollUpdate | PollBackstop | PollSurfacePower => PollVisit(w, e);
    case _ =>
  }

  ghost predicate LoopMoves(tr: seq<World>, es: seq<Event>) {
    && |tr| == |es| + 1 && ClockRuns(tr)
    && forall i | 0 <= i < |es| :: ScheduleMove(tr[i], tr[i + 1], es[i]) && StateMove(tr[i], tr[i + 1], es[i])
  }

  lemma RunLoopMoves(tr: seq<World>, es: seq<Event>)
    requires IsRun(tr, es)
    ensures LoopMoves(tr, es)
  {
    RunClock(tr, es);
    forall i | 0 <= i < |es|
      ensures ScheduleMove(tr[i], tr[i + 1], es[i]) && StateMove(tr[i], tr[i + 1], es[i])
    {
      StepSchedule(tr[i], es[i]);
      StepMission(tr[i], es[i]);
    }
  }

  // ---------------------------------------------------------------- the schedule and the visit

  /** The schedule was restarted at `r` within the visit that began at `entry`, and counts as
      attempted only because of an attempt made since. */
  ghost predicate RestartedInVisit(tr: seq<World>, es: seq<Event>, n: nat, entry: nat, r: nat) {
    && Visit(tr, n, entry) && |tr| == |es| + 1
    && entry < r < n && Restarts(tr[r], es[r]) && tr[r + 1].sched == FRESH
    && (tr[n].sched.attempted ==> exists a: nat :: r < a < n && Attempts(tr[a], es[a]))
  }

  /** What holds in each phase of a pass. */
  ghost predicate PhaseInv(ph: Phase, w: World) {
    match ph
    case Started | Updated | Polled =>
      && (w.s.current == w.lastSeen || w.s.current.PreDive? ||
          (w.lastSeen.Diving? && w.s.current.Recovery?))
      && (w.s.window.active ==> w.lastSeen.Diving?)
    case Followed => w.s.window.active ==> w.lastSeen.Diving?
    case Watched => w.s.window.active ==> w.s.current.Diving?
    case _ => w.s.current == w.lastSeen && (w.s.window.active ==> w.s.current.Diving?)
  }

  ghost predicate SeenFromDive(w: World) {
    w.s.current.Recovery? && w.s.previous.Diving? && w.lastSeen.Recovery?
  }

  lemma PhaseStep(ph: Phase, w: World, v: World, e: Event)
    requires PhaseInv(ph, w) && Next(ph, e).Some?
    requires ScheduleMove(w, v, e) && StateMove(w, v, e)
    ensures PhaseInv(Next(ph, e).value, v)
    ensures SeenFromDive(v) ==> SeenFromDive(w) || Restarts(w, e)
  {
  }

  lemma RestartExtends(tr: seq<World>, es: seq<Event>, p: nat, entry: nat, r: nat)
    requires LoopMoves(tr, es) && p < |es| && RestartedInVisit(tr, es, p, entry, r)
    requires tr[p + 1].s.current.Recovery? && !Restarts(tr[p], es[p])
    ensures RestartedInVisit(tr, es, p + 1, entry, r)
  {
  }

  /** In every visit entered from DIVING that the watcher has seen, the schedule was restarted. */
  lemma {:induction false} VisitRestartsSchedule(t: nat, tr: seq<World>, es: seq<Event>, n: nat)
    returns (entry: nat, r: nat)
    requires FromBoot(t, tr, es) && LoopMoves(tr, es) && n <= |es| && PhaseAfter(Done, es, n).Some?
    ensures PhaseInv(PhaseAfter(Done, es, n).value, tr[n])
    ensures SeenFromDive(tr[n]) ==> RestartedInVisit(tr, es, n, entry, r)
    decreases n
  {
    if n == 0 { return 0, 0; }
    var p := n - 1;
    entry, r := VisitRestartsSchedule(t, tr, es, p);
    PhaseStep(PhaseAfter(Done, es, p).value, tr[p], tr[n], es[p]);
    if SeenFromDive(tr[n]) {
      if Restarts(tr[p], es[p]) {
        RunMoves(t, tr, es);
        RunBelieves(t, tr, es, StateKind);
        var x := Explain(tr, es, n);
        entry, r := x.entry, p;
        assert tr[p].s == tr[n].s;
        VisitStarted(tr, n, entry);
      } else {
        RestartExtends(tr, es, p, entry, r);
      }
    }
  }

  lemma VisitStarted(tr: seq<World>, n: nat, entry: nat)
    requires Visit(tr, n, entry) && tr[n - 1].s.current.Recovery?
    ensures entry < n - 1
  {
  }

  // ---------------------------------------------------------------- main results

  /** Whenever a loop pass reaches the automatic report with transmission allowed, the cutoff is
      fully justified, and the schedule was restarted within that same recovery visit. */
  lemma ReportingSafety(t: nat, tr: seq<World>, es: seq<Event>, n: nat)
    requires FromBoot(t, tr, es) && n < |es|
    requires PhaseAfter(Done, es, n) == Some(BeforeReport) && es[n].AutoReport?
    requires CanTransmit(tr[n].s)
    ensures exists x: Evidence, r: nat :: CutAfterGrace(tr, es, n, x) && RestartedInVisit(tr, es, n, x.entry, r)
  {
    RunLoopMoves(tr, es);
    ReachableInv(t, tr, es, n);
    RunMoves(t, tr, es);
    RunBelieves(t, tr, es, StateKind);
    var x := Explain(tr, es, n);
    var entry, r := VisitRestartsSchedule(t, tr, es, n);
    VisitIsUnique(tr, n, x.entry, entry);
  }

  lemma VisitIsUnique(tr: seq<World>, n: nat, a: nat, b: nat)
    requires Visit(tr, n, a) && Visit(tr, n, b)
    ensures a == b
  {
  }

  /** The first report after the cutoff goes out at once, with or without a fix, when nothing
      has been attempted since the visit began. */
  lemma FirstReportAtOnce(t: nat, tr: seq<World>, es: seq<Event>, n: nat, entry: nat)
    requires FromBoot(t, tr, es) && n < |es|
    requires PhaseAfter(Done, es, n) == Some(BeforeReport) && es[n].AutoReport? && es[n].chance.enabled
    requires CanTransmit(tr[n].s) && Visit(tr, n, entry)
    requires forall a | entry < a < n :: !Attempts(tr[a], es[a])
    ensures Attempts(tr[n], es[n])
  {
    ReportingSafety(t, tr, es, n);
    var x: Evidence, r: nat :| CutAfterGrace(tr, es, n, x) && RestartedInVisit(tr, es, n, x.entry, r);
    VisitIsUnique(tr, n, x.entry, entry);
  }

  /** The pending flag means exactly that some unlocated report got through and, since then, no
      located one was tried and the schedule was not restarted. */
  lemma {:induction false} UpgradePendingMeans(t: nat, tr: seq<World>, es: seq<Event>, n: nat)
    requires FromBoot(t, tr, es) && n <= |es|
    ensures tr[n].sched.upgradePending <==>
              exists a: nat :: a < n && UnlocatedSince(tr, es, a, n)
    decreases n
  {
    RunLoopMoves(tr, es);
    if n > 0 {
      var p := n - 1;
      UpgradePendingMeans(t, tr, es, p);
      assert ScheduleMove(tr[p], tr[n], es[p]);
      if tr[n].sched.upgradePending {
        if Attempts(tr[p], es[p]) && es[p].chance.ok {
          assert UnlocatedSince(tr, es, p, n);
        } else {
          var a: nat :| a < p && UnlocatedSince(tr, es, a, p);
          assert UnlocatedSince(tr, es, a, n);
        }
      } else if a: nat :| a < n && UnlocatedSince(tr, es, a, n) {
        if a < p { assert UnlocatedSince(tr, es, a, p); }
      }
    }
  }

  ghost predicate UnlocatedSince(tr: seq<World>, es: seq<Event>, a: nat, n: nat) {
    && a < n <= |es| < |tr|
    && Attempts(tr[a], es[a]) && es[a].chance.ok && !es[a].chance.fix
    && forall k | a < k < n ::
         !Restarts(tr[k], es[k]) && (Attempts(tr[k], es[k]) ==> !es[k].chance.fix)
  }

  ghost predicate AttemptAt(tr: seq<World>, es: seq<Event>, n: nat) {
    n < |es| < |tr| && Attempts(tr[n], es[n])
  }

  ghost predicate ReportAt(tr: seq<World>, es: seq<Event>, n: nat) {
    n < |es| < |tr| && es[n].AutoReport? && Attempts(tr[n], es[n])
  }

  /** Some attempt got through, and the schedule was not restarted since. */
  ghost predicate SentSince(tr: seq<World>, es: seq<Event>, a: nat, n: nat) {
    && a < n <= |es| < |tr| && AttemptAt(tr, es, a) && es[a].chance.ok
    && forall k | a < k < n :: !Restarts(tr[k], es[k])
  }

  ghost predicate AnySent(tr: seq<World>, es: seq<Event>, n: nat) {
    exists a: nat :: SentSince(tr, es, a, n)
  }

  ghost predicate NoRestart(tr: seq<World>, es: seq<Event>, n: nat) {
    n <= |es| < |tr| && forall k | 0 <= k < n :: !Restarts(tr[k], es[k])
  }

  /** The sent flag means that since the last restart some report or test got through; boot counts
      as one. */
  lemma {:induction false} SentMeans(t: nat, tr: seq<World>, es: seq<Event>, n: nat)
    requires FromBoot(t, tr, es) && n <= |es|
    ensures tr[n].sched.sent <==> NoRestart(tr, es, n) || AnySent(tr, es, n)
    ensures NoRestart(tr, es, n) ==> tr[n].sched.attempted
    decreases n
  {
    if n > 0 {
      var p := n - 1;
      SentMeans(t, tr, es, p);
      StepSchedule(tr[p], es[p]);
      SentExtends(tr, es, p);
    }
  }

  lemma SentExtends(tr: seq<World>, es: seq<Event>, p: nat)
    requires p < |es| < |tr|
    ensures NoRestart(tr, es, p + 1) <==> NoRestart(tr, es, p) && !Restarts(tr[p], es[p])
    ensures AnySent(tr, es, p + 1) <==>
              (AttemptAt(tr, es, p) && es[p].chance.ok) || (!Restarts(tr[p], es[p]) && AnySent(tr, es, p))
  {
    if AttemptAt(tr, es, p) && es[p].chance.ok {
      assert SentSince(tr, es, p, p + 1);
    } else if AnySent(tr, es, p) && !Restarts(tr[p], es[p]) {
      var a: nat :| SentSince(tr, es, a, p);
      assert SentSince(tr, es, a, p + 1);
    } else if AnySent(tr, es, p + 1) {
      var a: nat :| SentSince(tr, es, a, p + 1);
      assert a < p ==> SentSince(tr, es, a, p);
    }
  }

  /** `b` is the next attempt after `a`, with no restart in between. */
  ghost predicate Consecutive(tr: seq<World>, es: seq<Event>, a: nat, b: nat) {
    && a < b < |es| < |tr| && AttemptAt(tr, es, a) && AttemptAt(tr, es, b)
    && (forall k | a < k < b :: !AttemptAt(tr, es, k))
    && forall k | a < k <= b :: !Restarts(tr[k], es[k])
  }

  lemma {:induction false} ScheduleAfter(tr: seq<World>, es: seq<Event>, a: nat, n: nat)
    requires LoopMoves(tr, es) && a < n <= |es| && AttemptAt(tr, es, a)
    requires forall k | a < k < n :: !AttemptAt(tr, es, k) && !Restarts(tr[k], es[k])
    ensures tr[n].sched == Noted(tr[a].sched, Millis(tr[a + 1].t), es[a].chance.fix, es[a].chance.ok)
    decreases n
  {
    assert ScheduleMove(tr[n - 1], tr[n], es[n - 1]);
    if a + 1 < n {
      ScheduleAfter(tr, es, a, n - 1);
      assert !AttemptAt(tr, es, n - 1);
    }
  }

  /** An automatic report is far enough from the attempt before it: at least the interval in true
      time, or as the upgrade of an unlocated report to a located one. */
  ghost predicate Spaced(tr: seq<World>, es: seq<Event>, a: nat, b: nat)
    requires a < b < |es| < |tr| && AttemptAt(tr, es, a) && es[b].AutoReport?
  {
    || tr[b].passT - tr[a + 1].t >= es[b].chance.interval
    || (es[b].chance.fix && tr[b].sched.upgradePending && !es[a].chance.fix)
  }

  /** Any report after any attempt, manual or automatic, is spaced if the time it is judged by is
      not before that attempt's end. */
  lemma GapOrUpgrade(tr: seq<World>, es: seq<Event>, a: nat, b: nat)
    requires LoopMoves(tr, es) && Consecutive(tr, es, a, b) && es[b].AutoReport?
    requires NotEarly(tr, a, b)
    ensures Spaced(tr, es, a, b)
  {
    ScheduleAfter(tr, es, a, b);
    SinceBound(tr[a + 1].t, tr[b].passT);
  }

  // ---------------------------------------------------------------- three attempts

  /** `d` is the last attempt before `n`. */
  lemma {:induction false} LastAttempt(tr: seq<World>, es: seq<Event>, a: nat, n: nat) returns (d: nat)
    requires a < n <= |es| < |tr| && AttemptAt(tr, es, a)
    ensures a <= d < n && AttemptAt(tr, es, d)
    ensures forall k | d < k < n :: !AttemptAt(tr, es, k)
    decreases n
  {
    d := n - 1;
    if !AttemptAt(tr, es, d) { d := LastAttempt(tr, es, a, n - 1); }
  }

  lemma {:induction false} PassTimeBehind(t: nat, tr: seq<World>, es: seq<Event>, n: nat)
    requires FromBoot(t, tr, es) && n <= |es|
    ensures tr[n].passT <= tr[n].t
    decreases n
  {
    if n > 0 {
      PassTimeBehind(t, tr, es, n - 1);
      RunClock(tr, es);
      Elapsed(tr, n - 1, n);
      StepSchedule(tr[n - 1], es[n - 1]);
    }
  }

  /** From `a` to `c` the schedule is not restarted, and every report made is judged with this
      interval, by a time that is not before the end of any earlier attempt. */
  ghost predicate Steady(tr: seq<World>, es: seq<Event>, a: nat, c: nat, interval: u32) {
    && a < c < |es| < |tr|
    && (forall k | a < k <= c :: !Restarts(tr[k], es[k]))
    && (forall y | a < y <= c && ReportAt(tr, es, y) :: es[y].chance.interval == interval)
    && (forall x: nat, y: nat | a <= x < y <= c && AttemptAt(tr, es, x) && ReportAt(tr, es, y) ::
          NotEarly(tr, x, y))
  }

  /** The time that event `y` is judged by is not before the end of event `x`. */
  ghost predicate NotEarly(tr: seq<World>, x: nat, y: nat) {
    x < y < |tr| && tr[x + 1].t <= tr[y].passT
  }

  /** Any three attempts of which the last is a report span at least the interval, however many
      manual tests and reports lie among them. */
  lemma ThreeReportsSpanInterval(t: nat, tr: seq<World>, es: seq<Event>, a: nat, b: nat, c: nat, interval: u32)
    requires FromBoot(t, tr, es) && Steady(tr, es, a, c, interval)
    requires a < b < c && AttemptAt(tr, es, a) && AttemptAt(tr, es, b)
    requires ReportAt(tr, es, c)
    ensures tr[c].passT - tr[a + 1].t >= interval
  {
    RunLoopMoves(tr, es);
    var d := LastAttempt(tr, es, b, c);
    GapOrUpgrade(tr, es, d, c);
    Elapsed(tr, a + 1, d + 1);
    if tr[c].passT - tr[d + 1].t < interval {
      var e := LastAttempt(tr, es, a, d);
      GapOrUpgrade(tr, es, e, d);
      Elapsed(tr, a + 1, e + 1);
      Elapsed(tr, d, d + 1);
      PassTimeBehind(t, tr, es, d);
    }
  }

  // ---------------------------------------------------------------- when a report is spaced

  ghost predicate NewPass(es: seq<Event>, a: nat, b: nat) {
    exists k :: a < k < b <= |es| && es[k].BeginPass?
  }

  /** In the loop's order the pass that is under way at `n` began before `a` or after it; in the
      second case its time is not before the end of `a`. */
  lemma {:induction false} PassBegan(tr: seq<World>, es: seq<Event>, a: nat, n: nat)
    requires LoopMoves(tr, es) && a < n <= |es| && !es[a].BeginPass? && tr[a].passT <= tr[a].t
    ensures NewPass(es, a, n) ==> tr[a + 1].t <= tr[n].passT
    ensures !NewPass(es, a, n) ==> tr[n].passT == tr[a].passT
    decreases n
  {
    var p := n - 1;
    assert ScheduleMove(tr[p], tr[n], es[p]);
    if a < p {
      PassBegan(tr, es, a, p);
      Elapsed(tr, a + 1, p);
      assert NewPass(es, a, n) <==> NewPass(es, a, p) || es[p].BeginPass?;
    }
  }

  /** In the loop's order a pass makes at most one report, and makes it last. */
  lemma {:induction false} ReportEndsPass(es: seq<Event>, a: nat, n: nat)
    requires a < n <= |es| && es[a].AutoReport? && PhaseAfter(Done, es, n).Some?
    ensures PhaseAfter(Done, es, n) == Some(Done) || NewPass(es, a, n)
    decreases n
  {
    if a + 1 < n {
      ReportEndsPass(es, a, n - 1);
      assert NewPass(es, a, n) <==> NewPass(es, a, n - 1) || es[n - 1].BeginPass?;
    }
  }

  /** In the loop's order a report is judged early only within the pass of a manual test. */
  lemma JudgedAfter(t: nat, tr: seq<World>, es: seq<Event>, x: nat, y: nat)
    requires FromBoot(t, tr, es) && x < y < |es| && PhaseAfter(Done, es, y + 1).Some?
    requires AttemptAt(tr, es, x) && ReportAt(tr, es, y) && (es[x].ManualTest? ==> NewPass(es, x, y))
    ensures NotEarly(tr, x, y)
  {
    RunLoopMoves(tr, es);
    PassTimeBehind(t, tr, es, x);
    if es[x].AutoReport? { ReportEndsPass(es, x, y); }
    PassBegan(tr, es, x, y);
  }

  ghost predicate TestAt(tr: seq<World>, es: seq<Event>, n: nat) {
    AttemptAt(tr, es, n) && es[n].ManualTest?
  }

  /** From `a` to `c` every report is made in a later pass than the manual tests before it. */
  ghost predicate TestsApart(tr: seq<World>, es: seq<Event>, a: nat, c: nat) {
    forall x: nat, y: nat | a <= x < y <= c && TestAt(tr, es, x) && ReportAt(tr, es, y) :: NewPass(es, x, y)
  }

  ghost predicate SteadyLoop(tr: seq<World>, es: seq<Event>, a: nat, c: nat, interval: u32) {
    && a < c < |es| < |tr|
    && (forall k | a < k <= c :: !Restarts(tr[k], es[k]))
    && (forall y | a < y <= c && ReportAt(tr, es, y) :: es[y].chance.interval == interval)
    && TestsApart(tr, es, a, c)
  }

  lemma JudgedInLoop(t: nat, tr: seq<World>, es: seq<Event>, a: nat, c: nat, x: nat, y: nat)
    requires FromBoot(t, tr, es) && TestsApart(tr, es, a, c) && c < |es| && PhaseAfter(Done, es, c + 1).Some?
    requires a <= x < y <= c && AttemptAt(tr, es, x) && ReportAt(tr, es, y)
    ensures NotEarly(tr, x, y)
  {
    PhasePrefix(es, y + 1, c + 1);
    assert es[x].ManualTest? ==> TestAt(tr, es, x);
    JudgedAfter(t, tr, es, x, y);
  }

  lemma LoopIsSteady(t: nat, tr: seq<World>, es: seq<Event>, a: nat, c: nat, interval: u32)
    requires FromBoot(t, tr, es) && SteadyLoop(tr, es, a, c, interval) && PhaseAfter(Done, es, c + 1).Some?
    ensures Steady(tr, es, a, c, interval)
  {
    forall x: nat, y: nat | a <= x < y <= c && AttemptAt(tr, es, x) && ReportAt(tr, es, y)
      ensures NotEarly(tr, x, y)
    {
      JudgedInLoop(t, tr, es, a, c, x, y);
    }
  }

  /** So in the loop three attempts of which the last is a report span the interval when every
      report comes in a later pass than the manual tests before it. */
  lemma LoopReportsSpanInterval(t: nat, tr: seq<World>, es: seq<Event>, a: nat, b: nat, c: nat, interval: u32)
    requires FromBoot(t, tr, es) && SteadyLoop(tr, es, a, c, interval) && PhaseAfter(Done, es, c + 1).Some?
    requires a < b < c && AttemptAt(tr, es, a) && AttemptAt(tr, es, b)
    requires ReportAt(tr, es, c)
    ensures tr[c].passT - tr[a + 1].t >= interval
  {
    LoopIsSteady(t, tr, es, a, c, interval);
    ThreeReportsSpanInterval(t, tr, es, a, b, c, interval);
  }

  /** A report that directly follows an attempt in the loop is spaced exactly when a new pass began
      in between, or a manual test of the same pass took no time at all. */
  lemma SpacedExactly(t: nat, tr: seq<World>, es: seq<Event>, a: nat, b: nat)
    requires FromBoot(t, tr, es) && Consecutive(tr, es, a, b) && es[b].AutoReport?
    requires PhaseAfter(Done, es, b) == Some(BeforeReport)
    ensures Spaced(tr, es, a, b) <==> NotEarly(tr, a, b)
    ensures Spaced(tr, es, a, b) <==>
              NewPass(es, a, b) || (es[a].ManualTest? && tr[a + 1].t == tr[b].passT)
  {
    RunLoopMoves(tr, es);
    PassTimeBehind(t, tr, es, a);
    PassBegan(tr, es, a, b);
    Elapsed(tr, a, a + 1);
    if es[a].AutoReport? { ReportEndsPass(es, a, b); }
    if NotEarly(tr, a, b) { GapOrUpgrade(tr, es, a, b); }
  }

  // ---------------------------------------------------------------- when an attempt is made

  /** A test command came and no enabled chance to run it has been since. */
  ghost predicate TestPending(es: seq<Event>, n: nat) {
    exists r: nat :: r < n <= |es| && es[r] == Receive(TestCommand)
                && forall i | r < i < n :: !SpendsTest(es[i])
  }

  predicate SpendsTest(e: Event) {
    e.ManualTest? && e.chance.enabled
  }

  lemma StepTest(w: World, e: Event)
    ensures Step(w, e).testRequested ==
              (e == Receive(TestCommand) || (w.testRequested && !SpendsTest(e)))
  {
  }

  lemma PendingExtends(es: seq<Event>, p: nat)
    requires p < |es|
    ensures TestPending(es, p + 1) <==> es[p] == Receive(TestCommand) || (TestPending(es, p) && !SpendsTest(es[p]))
  {
    if TestPending(es, p) && !SpendsTest(es[p]) {
      var r: nat :| r < p && es[r] == Receive(TestCommand) && forall i | r < i < p :: !SpendsTest(es[i]);
      assert forall i | r < i < p + 1 :: !SpendsTest(es[i]);
    }
  }

  lemma {:induction false} RequestIsPending(t: nat, tr: seq<World>, es: seq<Event>, n: nat)
    requires FromBoot(t, tr, es) && n <= |es|
    ensures tr[n].testRequested <==> TestPending(es, n)
    decreases n
  {
    if n > 0 {
      RequestIsPending(t, tr, es, n - 1);
      StepTest(tr[n - 1], es[n - 1]);
      PendingExtends(es, n - 1);
    }
  }

  /** A manual test runs exactly on a command not yet spent, with the modem enabled and a fix; a chance
      without a fix spends the command all the same. */
  lemma TestRunsExactly(t: nat, tr: seq<World>, es: seq<Event>, n: nat)
    requires FromBoot(t, tr, es) && n < |es| && es[n].ManualTest?
    ensures Attempts(tr[n], es[n]) <==> es[n].chance.enabled && es[n].chance.fix && TestPending(es, n)
  {
    RequestIsPending(t, tr, es, n);
  }

  ghost predicate UpgradeDue(tr: seq<World>, es: seq<Event>, n: nat) {
    n < |es| && es[n].AutoReport? && es[n].chance.fix && exists a: nat :: a < n && UnlocatedSince(tr, es, a, n)
  }

  /** When an automatic report runs after the last attempt `d` of the schedule: exactly when enabled,
      with the payload off, and either the wrapped interval is over or a fix can upgrade an unlocated
      report that got through. */
  lemma ReportRunsExactly(t: nat, tr: seq<World>, es: seq<Event>, d: nat, n: nat)
    requires FromBoot(t, tr, es) && d < n < |es| && es[n].AutoReport? && AttemptAt(tr, es, d)
    requires forall k | d < k < n :: !AttemptAt(tr, es, k) && !Restarts(tr[k], es[k])
    ensures Attempts(tr[n], es[n]) <==>
              && es[n].chance.enabled && !tr[n].s.powered
              && ((tr[n].passT - tr[d + 1].t) % WRAP >= es[n].chance.interval || UpgradeDue(tr, es, n))
  {
    RunLoopMoves(tr, es);
    ScheduleAfter(tr, es, d, n);
    UpgradePendingMeans(t, tr, es, n);
    ReachableInv(t, tr, es, n);
    SinceBound(tr[d + 1].t, tr[n].passT);
  }

  /** And when none has been made since the schedule was restarted: at once. */
  lemma FirstRunsExactly(t: nat, tr: seq<World>, es: seq<Event>, r: nat, n: nat)
    requires FromBoot(t, tr, es) && r < n < |es| && es[n].AutoReport? && Restarts(tr[r], es[r])
    requires forall k | r < k < n :: !AttemptAt(tr, es, k)
    ensures Attempts(tr[n], es[n]) <==> es[n].chance.enabled && !tr[n].s.powered
  {
    RunLoopMoves(tr, es);
    NotAttempted(tr, es, r, n);
    ReachableInv(t, tr, es, n);
  }

  lemma {:induction false} NotAttempted(tr: seq<World>, es: seq<Event>, r: nat, n: nat)
    requires LoopMoves(tr, es) && r < n <= |es| && Restarts(tr[r], es[r])
    requires forall k | r < k < n :: !AttemptAt(tr, es, k)
    ensures !tr[n].sched.attempted
    decreases n
  {
    assert ScheduleMove(tr[n - 1], tr[n], es[n - 1]);
    if r + 1 < n {
      NotAttempted(tr, es, r, n - 1);
      assert !AttemptAt(tr, es, n - 1);
    }
  }

  /** Spacing fails after a manual test: in the same pass the automatic report is judged by the
      time the pass began, before the test was noted. It is due exactly when the negative gap,
      wrapped, reaches the interval. */
  lemma ReportAfterTestInSamePass(w: World, test: Chance, wait: nat, report: Chance)
    requires TestRuns(w, test) && w.passT <= w.t
    ensures var v := Step(Step(w, ManualTest(test)), Receive(Tick(wait)));
      ReportDue(v, report) <==> (w.passT - (w.t + test.ms)) % WRAP >= report.interval
  {
    var tested := Step(w, ManualTest(test));
    assert tested.sched.attempted && !tested.sched.upgradePending;
    SinceBound(w.t + test.ms, w.passT);
  }

  /** So a minute-long test is followed at once by a report that should wait five minutes. */
  lemma TestDoesNotHoldBackReport(w: World, test: Chance, report: Chance)
    requires TestRuns(w, test) && w.t == w.passT && test.ms == 60000
    requires report.enabled && report.interval == 300000 && CanTransmit(w.s)
    ensures var v := Step(w, ManualTest(test));
      v.sched.attempted && v.sched.lastAttempt == Millis(v.t) && Attempts(v, AutoReport(report))
  {
  }
}
