/** When a dive ends, in terms of the run alone: which messages came, when, and which polls saw them. */
module DiveConditions {
  import opened Common
  import opened Clock
  import opened StateMachine
  import opened MainLoop
  import opened Reports
  import opened DiveExits

  // ---------------------------------------------------------------- what one poll finds

  /** The dive under way at `n` began ninety counter seconds ago or more. */
  ghost predicate GracePassed(tr: seq<World>, n: nat) {
    exists entry: nat :: Dive(tr, n, entry) && (tr[n].t - tr[entry].t) % WRAP >= DIVE_HEARTBEAT_GRACE_MS
  }

  lemma ArmedExactly(t: nat, tr: seq<World>, es: seq<Event>, n: nat)
    requires FromBoot(t, tr, es) && n <= |es|
    ensures FailsafeArmed(tr[n].s, Millis(tr[n].t)) <==> GracePassed(tr, n)
  {
    RunDiveMoves(tr, es);
    if tr[n].s.current.Diving? {
      var entry := DiveBegan(tr, es, n);
      Elapsed(tr, entry, n);
      if GracePassed(tr, n) {
        var e: nat :| Dive(tr, n, e) && (tr[n].t - tr[e].t) % WRAP >= DIVE_HEARTBEAT_GRACE_MS;
        DiveIsUnique(tr, n, entry, e);
      }
    }
  }

  /** The newest voltage report is fresh and in (0, 11.0]. */
  ghost predicate LowVoltageReported(tr: seq<World>, es: seq<Event>, n: nat) {
    exists x: real :: 0.0 < x <= 11.0 && FreshReport(tr, es, n, VoltageKind, x)
  }

  lemma CriticalExactly(t: nat, tr: seq<World>, es: seq<Event>, n: nat)
    requires FromBoot(t, tr, es) && n <= |es|
    ensures CriticalVoltage(tr[n].m, Millis(tr[n].t)) <==> LowVoltageReported(tr, es, n)
  {
    FreshReportExactly(t, tr, es, n, VoltageKind, tr[n].m.voltage);
    if x: real :| 0.0 < x <= 11.0 && FreshReport(tr, es, n, VoltageKind, x) {
      FreshReportExactly(t, tr, es, n, VoltageKind, x);
    }
  }

  /** The newest heartbeat is two counter minutes old or more. */
  ghost predicate HeartbeatLost(tr: seq<World>, es: seq<Event>, n: nat) {
    exists r: nat :: r < n <= |es| < |tr| && Newest(es, n, HeartbeatKind, r, 0.0)
                && (tr[n].t - tr[r].t) % WRAP >= FAILSAFE_HEARTBEAT_TIMEOUT_MS
  }

  lemma SilentExactly(t: nat, tr: seq<World>, es: seq<Event>, n: nat)
    requires FromBoot(t, tr, es) && n <= |es|
    ensures Silent(tr[n]) <==> HeartbeatLost(tr, es, n)
  {
    RunBelieves(t, tr, es, HeartbeatKind);
    if tr[n].m.heartbeatValid {
      var r := BelievedIsNewest(tr, es, n, HeartbeatKind);
      if HeartbeatLost(tr, es, n) {
        var q: nat :| q < n && Newest(es, n, HeartbeatKind, q, 0.0)
                      && (tr[n].t - tr[q].t) % WRAP >= FAILSAFE_HEARTBEAT_TIMEOUT_MS;
        NewestIsUnique(es, n, HeartbeatKind, r, 0.0, q, 0.0);
      }
    } else if HeartbeatLost(tr, es, n) {
      var q: nat :| q < n && Newest(es, n, HeartbeatKind, q, 0.0);
      ReportedIsBelieved(tr, es, n, HeartbeatKind, q);
    }
  }

  /** In DIVING, the newest mission state is ASCENT or later and the newest depth is fresh and
      under 1.5 m. */
  ghost predicate ShallowAscent(tr: seq<World>, es: seq<Event>, n: nat) {
    && n < |tr| && tr[n].s.current.Diving?
    && (exists state: real :: state >= 3.0 && Reported(es, n, StateKind, state))
    && (exists d: real :: d < 1.5 && FreshReport(tr, es, n, DepthKind, d))
  }

  lemma SeesExactly(t: nat, tr: seq<World>, es: seq<Event>, n: nat)
    requires FromBoot(t, tr, es) && n <= |es|
    ensures Sees(tr[n]) <==> ShallowAscent(tr, es, n)
  {
    AscentExactly(t, tr, es, n);
    ShallowExactly(t, tr, es, n);
  }

  lemma AscentExactly(t: nat, tr: seq<World>, es: seq<Event>, n: nat)
    requires FromBoot(t, tr, es) && n <= |es|
    ensures tr[n].m.doris >= 3 <==> exists state: real :: state >= 3.0 && Reported(es, n, StateKind, state)
  {
    if tr[n].m.doris >= 3 {
      if !tr[n].m.dorisValid { NeverReported(t, tr, es, n); }
      ReportedExactly(t, tr, es, n, StateKind, tr[n].m.doris as real);
    }
    if state: real :| state >= 3.0 && Reported(es, n, StateKind, state) {
      ReportedExactly(t, tr, es, n, StateKind, state);
    }
  }

  lemma ShallowExactly(t: nat, tr: seq<World>, es: seq<Event>, n: nat)
    requires FromBoot(t, tr, es) && n <= |es|
    ensures tr[n].m.DepthFresh(Millis(tr[n].t)) && tr[n].m.depth < 1.5 <==>
              exists d: real :: d < 1.5 && FreshReport(tr, es, n, DepthKind, d)
  {
    FreshReportExactly(t, tr, es, n, DepthKind, tr[n].m.depth);
    if d: real :| d < 1.5 && FreshReport(tr, es, n, DepthKind, d) {
      FreshReportExactly(t, tr, es, n, DepthKind, d);
    }
  }

  // ---------------------------------------------------------------- the depth backstop

  /** A backstop poll that saw a shallow ascent and let the dive go on. */
  ghost predicate Watched(tr: seq<World>, es: seq<Event>, k: nat) {
    && k < |es| && k + 1 < |tr| && es[k].PollBackstop?
    && ShallowAscent(tr, es, k) && tr[k + 1].s.current.Diving?
  }

  ghost predicate AllWatched(tr: seq<World>, es: seq<Event>, a: nat, n: nat)
    requires n <= |es|
  {
    forall k | a <= k < n && es[k].PollBackstop? :: Watched(tr, es, k)
  }

  /** The unbroken run of such polls that ends at `n` begins with the poll at `start`. */
  ghost predicate Streak(tr: seq<World>, es: seq<Event>, start: nat, n: nat) {
    && start <= n < |es| && es[start].PollBackstop? && AllWatched(tr, es, start, n)
    && forall a | 0 <= a < start && es[a].PollBackstop? :: !AllWatched(tr, es, a, n)
  }

  /** The window is open exactly after a poll that saw a shallow ascent and let the dive go on. */
  lemma WindowStep(t: nat, tr: seq<World>, es: seq<Event>, k: nat)
    requires FromBoot(t, tr, es) && k < |es|
    ensures es[k].PollBackstop? ==> (tr[k + 1].s.window.active <==> Watched(tr, es, k))
    ensures !es[k].PollBackstop? ==> tr[k + 1].s.window == tr[k].s.window
  {
    StepWindow(tr[k], es[k]);
    SeesExactly(t, tr, es, k);
  }

  /** An opened window stays open while every poll sees a shallow ascent. */
  lemma {:induction false} WindowStays(t: nat, tr: seq<World>, es: seq<Event>, a: nat, n: nat)
    requires FromBoot(t, tr, es) && a < n <= |es| && es[a].PollBackstop? && AllWatched(tr, es, a, n)
    ensures tr[n].s.window.active
    decreases n
  {
    WindowStep(t, tr, es, n - 1);
    if a < n - 1 { WindowStays(t, tr, es, a, n - 1); }
  }

  /** So where the window opened is where the unbroken run of polls begins. */
  lemma {:induction false} OpeningIsStreak(t: nat, tr: seq<World>, es: seq<Event>, start: nat, n: nat)
    requires FromBoot(t, tr, es) && WindowSpans(tr, es, start, n)
    ensures Streak(tr, es, start, n)
  {
    forall k | start <= k < n && es[k].PollBackstop? ensures Watched(tr, es, k) {
      WindowStep(t, tr, es, k);
    }
    forall a | 0 <= a < start && es[a].PollBackstop? ensures !AllWatched(tr, es, a, n) {
      if AllWatched(tr, es, a, n) {
        WindowStays(t, tr, es, a, start);
      }
    }
  }

  /** When the backstop fires: exactly when the poll sees a shallow ascent, the unbroken run of such
      polls began thirty counter seconds ago or more, and two of the depths polled since then differ
      by at least 0.02 m. */
  lemma BackstopFiresExactly(t: nat, tr: seq<World>, es: seq<Event>, n: nat) returns (start: nat)
    requires FromBoot(t, tr, es) && n < |es| && es[n].PollBackstop? && tr[n].s.current.Diving?
    ensures Streak(tr, es, start, n)
    ensures !tr[n + 1].s.current.Diving? <==>
              && ShallowAscent(tr, es, n) && DepthMoved(tr, es, start, n)
              && (tr[n].t - tr[start].t) % WRAP >= SURFACE_QUALIFY_MS
    ensures !tr[n + 1].s.current.Diving? ==> tr[n + 1].s.current.Recovery?
  {
    start := WindowDecides(t, tr, es, n);
    OpeningIsStreak(t, tr, es, start, n);
    SeesExactly(t, tr, es, n);
    if !tr[n + 1].s.current.Diving? { StepExits(tr[n], es[n]); }
  }

  // ---------------------------------------------------------------- the failsafes

  /** A failsafe poll past the grace that saw low voltage and no leak. */
  ghost predicate SawLow(tr: seq<World>, es: seq<Event>, k: nat) {
    && k < |es| && k < |tr| && es[k].PollUpdate? && GracePassed(tr, k)
    && LowVoltageReported(tr, es, k) && !LeakReported(es, k)
  }

  /** Past the grace with low voltage or a leak. */
  ghost predicate Danger(tr: seq<World>, es: seq<Event>, k: nat) {
    k < |tr| && GracePassed(tr, k) && (LowVoltageReported(tr, es, k) || LeakReported(es, k))
  }

  /** Every failsafe poll from `a` up to `n` saw danger. */
  ghost predicate AllDanger(tr: seq<World>, es: seq<Event>, a: nat, n: nat)
    requires n <= |es| < |tr|
  {
    forall k | a <= k < n && es[k].PollUpdate? :: Danger(tr, es, k)
  }

  ghost predicate LowSince(tr: seq<World>, es: seq<Event>, a: nat, n: nat) {
    a < n <= |es| < |tr| && SawLow(tr, es, a) && AllDanger(tr, es, a, n)
  }

  /** Low voltage began at poll `start`, the earliest from which no poll up to `n` was out of danger. */
  ghost predicate LowBegan(tr: seq<World>, es: seq<Event>, start: nat, n: nat) {
    LowSince(tr, es, start, n) && forall a: nat | a < start :: !LowSince(tr, es, a, n)
  }

  lemma TimerStep(t: nat, tr: seq<World>, es: seq<Event>, k: nat)
    requires FromBoot(t, tr, es) && k < |es|
    ensures CriticalMove(tr[k], tr[k + 1], es[k])
    ensures TimerRuns(tr[k]) <==>
              GracePassed(tr, k) && if LeakReported(es, k) then tr[k].s.criticalActive else LowVoltageReported(tr, es, k)
  {
    StepCritical(tr[k], es[k]);
    ArmedExactly(t, tr, es, k);
    CriticalExactly(t, tr, es, k);
    LeakIsNewest(t, tr, es, k);
  }

  /** One more event extends what low voltage was seen since. */
  lemma LowExtends(tr: seq<World>, es: seq<Event>, a: nat, p: nat)
    requires p < |es| < |tr|
    ensures a < p ==> (LowSince(tr, es, a, p + 1) <==>
              LowSince(tr, es, a, p) && (es[p].PollUpdate? ==> Danger(tr, es, p)))
    ensures LowSince(tr, es, p, p + 1) <==> SawLow(tr, es, p)
  {
  }

  /** The voltage timer runs exactly when some poll began such a stretch, and since the first of them. */
  ghost predicate TimerIs(tr: seq<World>, es: seq<Event>, n: nat, start: nat) {
    && n < |tr|
    && (tr[n].s.criticalActive ==> LowBegan(tr, es, start, n) && tr[n].s.criticalStart == Millis(tr[start].t))
    && (!tr[n].s.criticalActive ==> forall a: nat :: !LowSince(tr, es, a, n))
  }

  lemma TimerExtends(tr: seq<World>, es: seq<Event>, p: nat, start: nat) returns (next: nat)
    requires p < |es| < |tr| && TimerIs(tr, es, p, start) && CriticalMove(tr[p], tr[p + 1], es[p])
    requires TimerRuns(tr[p]) <==>
               GracePassed(tr, p) && if LeakReported(es, p) then tr[p].s.criticalActive else LowVoltageReported(tr, es, p)
    ensures TimerIs(tr, es, p + 1, next)
  {
    LowExtends(tr, es, p, p);
    next := if tr[p].s.criticalActive then start else p;
    var n := p + 1;
    if tr[n].s.criticalActive {
      LowExtends(tr, es, next, p);
      forall a: nat | a < next ensures !LowSince(tr, es, a, n) {
        LowExtends(tr, es, a, p);
      }
    } else {
      forall a: nat ensures !LowSince(tr, es, a, n) {
        if a < p { LowExtends(tr, es, a, p); }
      }
    }
  }

  lemma TimerNext(t: nat, tr: seq<World>, es: seq<Event>, p: nat, start: nat) returns (next: nat)
    requires FromBoot(t, tr, es) && p < |es| && TimerIs(tr, es, p, start)
    ensures TimerIs(tr, es, p + 1, next)
  {
    TimerStep(t, tr, es, p);
    next := TimerExtends(tr, es, p, start);
  }

  lemma {:induction false} TimerExactly(t: nat, tr: seq<World>, es: seq<Event>, n: nat) returns (start: nat)
    requires FromBoot(t, tr, es) && n <= |es|
    ensures TimerIs(tr, es, n, start)
    decreases n
  {
    start := 0;
    if n > 0 {
      start := TimerExactly(t, tr, es, n - 1);
      start := TimerNext(t, tr, es, n - 1, start);
    } else {
      forall a: nat ensures !LowSince(tr, es, a, 0) {
      }
    }
  }

  /** The voltage has been low for ten counter seconds. */
  ghost predicate LowHeld(tr: seq<World>, es: seq<Event>, n: nat) {
    && LowVoltageReported(tr, es, n)
    && exists start: nat :: LowBegan(tr, es, start, n) && (tr[n].t - tr[start].t) % WRAP >= CRITICAL_VOLTAGE_HOLD_MS
  }

  lemma TimerTells(tr: seq<World>, es: seq<Event>, n: nat, start: nat)
    requires n <= |es| < |tr| && ClockRuns(tr) && TimerIs(tr, es, n, start)
    requires CriticalVoltage(tr[n].m, Millis(tr[n].t)) <==> LowVoltageReported(tr, es, n)
    ensures BatteryDown(tr[n]) <==> LowHeld(tr, es, n)
  {
    if tr[n].s.criticalActive { Elapsed(tr, start, n); }
    if LowHeld(tr, es, n) {
      var s: nat :| LowBegan(tr, es, s, n) && (tr[n].t - tr[s].t) % WRAP >= CRITICAL_VOLTAGE_HOLD_MS;
      assert s == start;
    }
  }

  lemma BatteryDownExactly(t: nat, tr: seq<World>, es: seq<Event>, n: nat)
    requires FromBoot(t, tr, es) && n <= |es|
    ensures BatteryDown(tr[n]) <==> LowHeld(tr, es, n)
  {
    CriticalExactly(t, tr, es, n);
    var start := TimerExactly(t, tr, es, n);
    RunClock(tr, es);
    TimerTells(tr, es, n, start);
  }

  /** When a failsafe fires and why: exactly when the grace has passed and a leak was reported, or low
      voltage held, or the heartbeat is lost; the first of these is the cause recorded. */
  lemma FailsafeFiresExactly(t: nat, tr: seq<World>, es: seq<Event>, n: nat)
    requires FromBoot(t, tr, es) && n < |es| && es[n].PollUpdate? && tr[n].s.current.Diving?
    ensures !tr[n + 1].s.current.Diving? <==>
              GracePassed(tr, n) && (LeakReported(es, n) || LowHeld(tr, es, n) || HeartbeatLost(tr, es, n))
    ensures !tr[n + 1].s.current.Diving? ==>
              && tr[n + 1].s.current.Recovery?
              && tr[n + 1].s.failsafe ==
                   if LeakReported(es, n) then LeakFound else if LowHeld(tr, es, n) then LowVoltage else NoHeartbeat
  {
    DivingEndsExactly(tr[n], es[n]);
    ArmedExactly(t, tr, es, n);
    LeakIsNewest(t, tr, es, n);
    BatteryDownExactly(t, tr, es, n);
    SilentExactly(t, tr, es, n);
    if !tr[n + 1].s.current.Diving? { CauseExactly(tr[n]); }
  }

  /** The recorded cause changes only then, and is cleared by the serial reset and by following a
      mission state of at most zero out of RECOVERY. */
  lemma CauseKeptExactly(w: World, e: Event)
    ensures var v := Step(w, e);
      var cleared := e == Receive(ResetCommand) || (e.FollowLua? && w.s.current.Recovery? && w.m.doris <= 0);
      var fired := e.PollUpdate? && w.s.current.Diving? && !v.s.current.Diving?;
      && (cleared ==> v.s.failsafe == NoFailsafe)
      && (!cleared && !fired ==> v.s.failsafe == w.s.failsafe)
  {
  }

  /** A failsafe is recorded, and a dive begun, only from the state that allows it. */
  lemma EntriesAreGuarded(s: Machine, source: Failsafe, now: u32)
    ensures if s.current.Diving?
            then TriggerFailsafe(s, source, now).current.Recovery? && TriggerFailsafe(s, source, now).failsafe == source
            else TriggerFailsafe(s, source, now) == s
    ensures if s.current.PreDive? then EnterDiving(s, now).current.Diving? else EnterDiving(s, now) == s
  {
  }

  lemma CauseExactly(w: World)
    requires w.s.current.Diving? && !Step(w, PollUpdate).s.current.Diving?
    ensures var v := Step(w, PollUpdate);
      && v.s.current.Recovery?
      && v.s.failsafe == if w.m.leak then LeakFound else if BatteryDown(w) then LowVoltage else NoHeartbeat
  {
  }

  /** Where low voltage began does not depend on how much of what follows is looked at. */
  lemma BeganBefore(tr: seq<World>, es: seq<Event>, start: nat, a: nat, n: nat)
    requires LowBegan(tr, es, start, n) && start < a <= n
    requires AllDanger(tr, es, a, n)
    ensures LowBegan(tr, es, start, a)
  {
    forall b: nat | b < start ensures !LowSince(tr, es, b, a) {
      if LowSince(tr, es, b, a) { assert LowSince(tr, es, b, n); }
    }
  }

  lemma HeldLonger(x: nat, y: nat)
    requires x % WRAP < CRITICAL_VOLTAGE_HOLD_MS <= y < WRAP - CRITICAL_VOLTAGE_HOLD_MS
    ensures (x + y) % WRAP >= CRITICAL_VOLTAGE_HOLD_MS
  {
  }

  /** Low voltage seen at every poll from `a` has been held at `n`, unless it already was at `a`. */
  lemma LowIsHeld(tr: seq<World>, es: seq<Event>, start: nat, a: nat, n: nat)
    requires a < n < |es| < |tr| && ClockRuns(tr) && LowBegan(tr, es, start, n)
    requires LowVoltageReported(tr, es, a) && LowVoltageReported(tr, es, n)
    requires LowSince(tr, es, a, n) && !LowHeld(tr, es, a)
    requires CRITICAL_VOLTAGE_HOLD_MS <= tr[n].t - tr[a].t < WRAP - CRITICAL_VOLTAGE_HOLD_MS
    ensures LowHeld(tr, es, n)
  {
    assert start <= a;
    Elapsed(tr, start, a);
    if start < a {
      BeganBefore(tr, es, start, a, n);
      HeldLonger(tr[a].t - tr[start].t, tr[n].t - tr[a].t);
    }
    assert (tr[n].t - tr[start].t) % WRAP >= CRITICAL_VOLTAGE_HOLD_MS;
  }

  /** Progress: low voltage and no leak at every poll of a stretch of ten seconds or more, though not
      within ten seconds of a counter wrap, ends the dive. */
  lemma LowVoltageEndsDive(t: nat, tr: seq<World>, es: seq<Event>, a: nat, n: nat)
    requires FromBoot(t, tr, es) && a < n < |es| && es[a].PollUpdate? && es[n].PollUpdate?
    requires forall k | a <= k <= n && es[k].PollUpdate? :: SawLow(tr, es, k)
    requires forall k | a <= k <= n :: tr[k].s.current.Diving?
    requires CRITICAL_VOLTAGE_HOLD_MS <= tr[n].t - tr[a].t < WRAP - CRITICAL_VOLTAGE_HOLD_MS
    ensures tr[n + 1].s.current.Recovery?
  {
    assert SawLow(tr, es, a) && SawLow(tr, es, n);
    DiveGoesOn(t, tr, es, a);
    assert LowSince(tr, es, a, n);
    var start := TimerExactly(t, tr, es, n);
    RunClock(tr, es);
    LowIsHeld(tr, es, start, a, n);
    FailsafeFiresExactly(t, tr, es, n);
  }

  lemma DiveGoesOn(t: nat, tr: seq<World>, es: seq<Event>, a: nat)
    requires FromBoot(t, tr, es) && a < |es| && SawLow(tr, es, a)
    requires tr[a].s.current.Diving? && tr[a + 1].s.current.Diving?
    ensures !LowHeld(tr, es, a)
  {
    FailsafeFiresExactly(t, tr, es, a);
  }
}
