/** Why a dive ends: the failsafes and the depth backstop over every run. */
module DiveExits {
  import opened Clock
  import opened StateMachine
  import opened MainLoop
  import opened LoopOrder
  import opened Reports

  // ---------------------------------------------------------------- one event

  /** A failsafe poll that looked, and saw the battery critical or a leak. */
  predicate SawDanger(w: World) {
    FailsafeArmed(w.s, Millis(w.t)) && (w.m.leak || CriticalVoltage(w.m, Millis(w.t)))
  }

  predicate Sees(w: World) {
    BackstopSees(w.s, w.m, Millis(w.t))
  }

  /** The window after this poll. */
  function Observed(w: World): Window {
    Observe(w.s.window, w.m.depth, Millis(w.t))
  }

  /** A failsafe poll ends the dive with a cause that holds. */
  ghost predicate FailsafeMove(w: World, v: World) {
    && v.s.current.Recovery? && FailsafeArmed(w.s, Millis(w.t))
    && (match v.s.failsafe
        case NoFailsafe => false
        case LeakFound => w.m.leak
        case LowVoltage =>
          && !w.m.leak && SawDanger(w) && v.s.criticalActive
          && Since(Millis(w.t), v.s.criticalStart) >= CRITICAL_VOLTAGE_HOLD_MS
        case NoHeartbeat =>
          w.m.heartbeatValid && Since(Millis(w.t), w.m.heartbeatMs) >= FAILSAFE_HEARTBEAT_TIMEOUT_MS)
  }

  /** How one event can move the entry time of a dive. */
  ghost predicate EntryMove(w: World, v: World) {
    v.s.current.Diving? ==>
      v.s.entryTime == if w.s.current.Diving? then w.s.entryTime else Millis(w.t)
  }

  /** How it moves the critical-voltage timer: a poll starts it or keeps it on critical voltage, leaves
      it alone on a leak, which ends the dive, and clears it otherwise. */
  ghost predicate CriticalMove(w: World, v: World, e: Event) {
    && (v.s.criticalActive <==> if e.PollUpdate? then TimerRuns(w) else w.s.criticalActive)
    && (v.s.criticalActive ==>
          v.s.criticalStart == if w.s.criticalActive then w.s.criticalStart else Millis(w.t))
    && (v.s.criticalActive && e.PollUpdate? && w.m.leak ==> !v.s.current.Diving?)
  }

  /** The timer after a failsafe poll. */
  predicate TimerRuns(w: World) {
    FailsafeArmed(w.s, Millis(w.t)) && if w.m.leak then w.s.criticalActive else CriticalVoltage(w.m, Millis(w.t))
  }

  /** How it moves the backstop window: only a poll touches it, and keeps it open exactly on a shallow
      ascent that goes on. */
  ghost predicate WindowMove(w: World, v: World, e: Event) {
    if e.PollBackstop? then
      && (v.s.window.active <==> Sees(w) && v.s.current.Diving?)
      && (v.s.window.active ==> v.s.window == Observed(w))
    else v.s.window == w.s.window
  }

  /** How it can end a dive. */
  ghost predicate ExitMove(w: World, v: World, e: Event) {
    match e
    case PollUpdate => FailsafeMove(w, v)
    case PollBackstop => v.s.current.Recovery? && Sees(w) && WindowQualified(Observed(w), Millis(w.t))
    case FollowLua => v.s.current.Recovery? && w.m.doris >= 4
    case _ => v.s.current.PreDive? && e == Receive(ResetCommand)
  }

  lemma StepExits(w: World, e: Event)
    requires w.s.current.Diving? && !Step(w, e).s.current.Diving?
    ensures ExitMove(w, Step(w, e), e)
  {
  }

  ghost predicate DiveMove(w: World, v: World, e: Event) {
    && EntryMove(w, v) && CriticalMove(w, v, e) && WindowMove(w, v, e)
    && (w.s.current.Diving? && !v.s.current.Diving? ==> ExitMove(w, v, e))
  }

  lemma StepEntry(w: World, e: Event)
    ensures EntryMove(w, Step(w, e))
  {
  }

  lemma StepCritical(w: World, e: Event)
    ensures CriticalMove(w, Step(w, e), e)
  {
  }

  lemma StepWindow(w: World, e: Event)
    ensures WindowMove(w, Step(w, e), e)
  {
  }

  lemma StepDiveMoves(w: World, e: Event)
    ensures DiveMove(w, Step(w, e), e)
  {
    StepEntry(w, e);
    StepCritical(w, e);
    StepWindow(w, e);
    if w.s.current.Diving? && !Step(w, e).s.current.Diving? { StepExits(w, e); }
  }

  /** The only exits from DIVING, each with its exact condition; a mission state of zero or less
      is not among them. */
  lemma DivingEndsExactly(w: World, e: Event)
    requires w.s.current.Diving?
    ensures !Step(w, e).s.current.Diving? <==>
              || e == Receive(ResetCommand)
              || (e.FollowLua? && w.m.doris >= 4)
              || (e.PollBackstop? && Sees(w) && WindowQualified(Observed(w), Millis(w.t)))
              || (e.PollUpdate? && FailsafeArmed(w.s, Millis(w.t)) &&
                  (w.m.leak || BatteryDown(w) || Silent(w)))
  {
    match e
    case PollUpdate =>
    case PollBackstop =>
    case FollowLua =>
    case Receive(_) =>
    case _ =>
  }

  /** A dive begins only by following mission states 1 to 3 from PRE_DIVE; depth plays no part. */
  lemma DivingBeginsExactly(w: World, e: Event)
    requires !w.s.current.Diving?
    ensures Step(w, e).s.current.Diving? <==> e.FollowLua? && w.s.current.PreDive? && 1 <= w.m.doris <= 3
  {
  }

  /** RECOVERY ends only by the serial reset or by following a mission state of at most zero. */
  lemma RecoveryEndsExactly(w: World, e: Event)
    requires w.s.current.Recovery?
    ensures !Step(w, e).s.current.Recovery? <==>
              e == Receive(ResetCommand) || (e.FollowLua? && w.m.doris <= 0)
    ensures !Step(w, e).s.current.Recovery? ==> Step(w, e).s.current.PreDive?
  {
  }

  /** PRE_DIVE leads straight to RECOVERY only by following mission state 4, and no such visit
      can start a dwell. */
  lemma PreDiveToRecoveryExactly(w: World, e: Event)
    requires w.s.current.PreDive?
    ensures Step(w, e).s.current.Recovery? <==> e.FollowLua? && w.m.doris >= 4
    ensures Step(w, e).s.current.Recovery? ==> Step(w, e).s.previous.PreDive?
  {
  }

  /** The battery is critical and was already so ten seconds of counter time ago. */
  predicate BatteryDown(w: World) {
    && CriticalVoltage(w.m, Millis(w.t)) && w.s.criticalActive
    && Since(Millis(w.t), w.s.criticalStart) >= CRITICAL_VOLTAGE_HOLD_MS
  }

  predicate Silent(w: World) {
    w.m.heartbeatValid && Since(Millis(w.t), w.m.heartbeatMs) >= FAILSAFE_HEARTBEAT_TIMEOUT_MS
  }

  ghost predicate DiveMoves(tr: seq<World>, es: seq<Event>) {
    && |tr| == |es| + 1 && ClockRuns(tr)
    && forall i | 0 <= i < |es| :: DiveMove(tr[i], tr[i + 1], es[i])
  }

  lemma RunDiveMoves(tr: seq<World>, es: seq<Event>)
    requires IsRun(tr, es)
    ensures DiveMoves(tr, es)
  {
    RunClock(tr, es);
    forall i | 0 <= i < |es| ensures DiveMove(tr[i], tr[i + 1], es[i]) {
      StepDiveMoves(tr[i], es[i]);
    }
  }

  // ---------------------------------------------------------------- failsafes

  /** The dive that is under way at `n` began with event `entry`. */
  ghost predicate Dive(tr: seq<World>, n: nat, entry: nat) {
    && entry < n < |tr| && !tr[entry].s.current.Diving?
    && forall i | entry < i <= n :: tr[i].s.current.Diving?
  }

  lemma {:induction false} DiveBegan(tr: seq<World>, es: seq<Event>, n: nat) returns (entry: nat)
    requires DiveMoves(tr, es) && n <= |es|
    requires !tr[0].s.current.Diving? && tr[n].s.current.Diving?
    ensures Dive(tr, n, entry) && tr[n].s.entryTime == Millis(tr[entry].t)
    decreases n
  {
    assert DiveMove(tr[n - 1], tr[n], es[n - 1]);
    if tr[n - 1].s.current.Diving? {
      entry := DiveBegan(tr, es, n - 1);
    } else {
      entry := n - 1;
    }
  }

  lemma DiveIsUnique(tr: seq<World>, n: nat, a: nat, b: nat)
    requires Dive(tr, n, a) && Dive(tr, n, b)
    ensures a == b
  {
  }

  /** Every failsafe poll from `start` up to `n` saw danger, `start` is one of them, and any that
      saw a leak ended its dive. */
  ghost predicate DangerSince(tr: seq<World>, es: seq<Event>, n: nat, start: nat) {
    && start < n <= |es| < |tr| && es[start].PollUpdate?
    && forall k | start <= k < n && es[k].PollUpdate? ::
         SawDanger(tr[k]) && (tr[k].m.leak ==> !tr[k + 1].s.current.Diving?)
  }

  lemma {:induction false} DangerBegan(tr: seq<World>, es: seq<Event>, n: nat) returns (start: nat)
    requires DiveMoves(tr, es) && n <= |es|
    requires !tr[0].s.criticalActive && tr[n].s.criticalActive
    ensures DangerSince(tr, es, n, start) && tr[n].s.criticalStart == Millis(tr[start].t)
    ensures forall k | start < k <= n :: tr[k].s.criticalActive
    decreases n
  {
    assert DiveMove(tr[n - 1], tr[n], es[n - 1]);
    if tr[n - 1].s.criticalActive {
      start := DangerBegan(tr, es, n - 1);
    } else {
      start := n - 1;
    }
  }

  predicate SawCritical(w: World) {
    CriticalVoltage(w.m, Millis(w.t)) && !w.m.leak
  }

  /** The low-voltage evidence at `n`: every poll of the dive from `start` on saw a fresh voltage
      in (0, 11.0] and no leak, over at least ten true seconds. */
  ghost predicate CriticalSince(tr: seq<World>, es: seq<Event>, n: nat, entry: nat, start: nat) {
    && DangerSince(tr, es, n + 1, start)
    && tr[n].t - tr[start].t >= CRITICAL_VOLTAGE_HOLD_MS
    && forall k | start <= k <= n && entry < k && es[k].PollUpdate? :: SawCritical(tr[k])
  }

  /** Within a dive a poll that saw danger saw the battery critical, as a leak ends the dive. */
  lemma DangerIsCritical(tr: seq<World>, es: seq<Event>, n: nat, entry: nat, start: nat)
    requires DangerSince(tr, es, n + 1, start) && Dive(tr, n, entry) && !tr[n].m.leak
    ensures forall k | start <= k <= n && entry < k && es[k].PollUpdate? :: SawCritical(tr[k])
  {
    forall k | start <= k <= n && entry < k && es[k].PollUpdate? ensures SawCritical(tr[k]) {
      assert k < n ==> tr[k + 1].s.current.Diving?;
    }
  }

  /** A failsafe fires only at least ninety true seconds into a dive, and on true evidence: for
      LOW_VOLTAGE every poll of the dive over ten true seconds saw the battery critical, for
      NO_HEARTBEAT the newest heartbeat is two true minutes old. */
  lemma FailsafeEvidence(t: nat, tr: seq<World>, es: seq<Event>, n: nat) returns (entry: nat, start: nat)
    requires FromBoot(t, tr, es) && n < |es| && es[n].PollUpdate?
    requires tr[n].s.current.Diving? && !tr[n + 1].s.current.Diving?
    ensures tr[n + 1].s.current.Recovery?
    ensures Dive(tr, n, entry) && tr[n].t - tr[entry].t >= DIVE_HEARTBEAT_GRACE_MS
    ensures match tr[n + 1].s.failsafe
      case NoFailsafe => false
      case LeakFound => tr[n].m.leak
      case LowVoltage => CriticalSince(tr, es, n, entry, start)
      case NoHeartbeat =>
        exists beat: nat :: beat < n && Newest(es, n, HeartbeatKind, beat, 0.0) && tr[n].t - tr[beat].t >= FAILSAFE_HEARTBEAT_TIMEOUT_MS
  {
    RunDiveMoves(tr, es);
    assert DiveMove(tr[n], tr[n + 1], es[n]);
    entry := DiveBegan(tr, es, n);
    start := 0;
    Elapsed(tr, entry, n);
    match tr[n + 1].s.failsafe
    case LowVoltage =>
      start := DangerBegan(tr, es, n + 1);
      Elapsed(tr, start, n);
      DangerIsCritical(tr, es, n, entry, start);
    case NoHeartbeat =>
      RunBelieves(t, tr, es, HeartbeatKind);
      var beat := BelievedIsNewest(tr, es, n, HeartbeatKind);
    case _ =>
  }

  // ---------------------------------------------------------------- whose evidence it is

  /** In the loop's order only time passes between a follower and the next failsafe poll. */
  lemma {:induction false} QuietUntilPoll(es: seq<Event>, entry: nat, j: nat)
    requires entry < j <= |es| && es[entry].FollowLua? && PhaseAfter(Done, es, j).Some?
    requires forall k | entry < k < j :: !es[k].PollUpdate?
    ensures !PhaseAfter(Done, es, j).value.Updated? && !PhaseAfter(Done, es, j).value.Polled?
    ensures forall k | entry < k < j :: es[k].Receive? ==> IsTick(es[k])
    decreases j
  {
    if entry + 1 < j { QuietUntilPoll(es, entry, j - 1); }
  }

  /** Poll `f` is the first failsafe poll of the dive that began with `entry`. */
  ghost predicate FirstPoll(tr: seq<World>, es: seq<Event>, entry: nat, f: nat) {
    && f < |es| && es[f].PollUpdate? && Dive(tr, f, entry)
    && forall k | entry < k < f :: !es[k].PollUpdate?
  }

  /** A voltage report a full counter wrap old, which the wrapped age takes for a fresh one. */
  ghost predicate VoltageAged(tr: seq<World>, es: seq<Event>, n: nat) {
    exists r: nat, x: real ::
      r < n < |tr| && Newest(es, n, VoltageKind, r, x) && tr[n].t - tr[r].t >= WRAP
  }

  /** The first poll of a dive that is past the grace has nothing but old reports to go by. */
  lemma FirstPollSeesNoNewVoltage(t: nat, tr: seq<World>, es: seq<Event>, entry: nat, f: nat)
    requires FromBoot(t, tr, es) && FirstPoll(tr, es, entry, f) && PhaseAfter(Done, es, f).Some?
    requires FailsafeArmed(tr[f].s, Millis(tr[f].t)) && CriticalVoltage(tr[f].m, Millis(tr[f].t))
    ensures VoltageAged(tr, es, f)
  {
    RunClock(tr, es);
    ArmedLate(t, tr, es, entry, f);
    var r, x := FreshVoltage(t, tr, es, f);
    ReportBeforeDive(tr, es, entry, f, r);
    ReportIsAged(tr, es, entry, f, r, x);
  }

  lemma ReportIsAged(tr: seq<World>, es: seq<Event>, entry: nat, f: nat, r: nat, x: real)
    requires ClockRuns(tr) && r < entry < f < |tr| && Newest(es, f, VoltageKind, r, x)
    requires (tr[f].t - tr[r].t) % WRAP <= 3000 && tr[f].t - tr[entry].t >= 90000
    ensures VoltageAged(tr, es, f)
  {
    Elapsed(tr, r, entry);
    assert tr[f].t - tr[r].t >= WRAP;
  }

  lemma ArmedLate(t: nat, tr: seq<World>, es: seq<Event>, entry: nat, f: nat)
    requires FromBoot(t, tr, es) && f <= |es| && Dive(tr, f, entry)
    requires FailsafeArmed(tr[f].s, Millis(tr[f].t))
    ensures tr[f].t - tr[entry].t >= DIVE_HEARTBEAT_GRACE_MS
  {
    RunDiveMoves(tr, es);
    var began := DiveBegan(tr, es, f);
    DiveIsUnique(tr, f, entry, began);
    Elapsed(tr, entry, f);
  }

  lemma FreshVoltage(t: nat, tr: seq<World>, es: seq<Event>, f: nat) returns (r: nat, x: real)
    requires FromBoot(t, tr, es) && f <= |es| && tr[f].m.VoltageFresh(Millis(tr[f].t))
    ensures r < f && Newest(es, f, VoltageKind, r, x)
    ensures (tr[f].t - tr[r].t) % WRAP <= 3000
  {
    RunBelieves(t, tr, es, VoltageKind);
    r := BelievedIsNewest(tr, es, f, VoltageKind);
    x := tr[f].m.voltage;
  }

  lemma ReportBeforeDive(tr: seq<World>, es: seq<Event>, entry: nat, f: nat, r: nat)
    requires IsRun(tr, es) && FirstPoll(tr, es, entry, f) && PhaseAfter(Done, es, f).Some?
    requires r < f && Carried(VoltageKind, es[r]).Some?
    ensures r < entry
  {
    DivingBeginsExactly(tr[entry], es[entry]);
    assert tr[entry + 1] == Step(tr[entry], es[entry]);
    QuietUntilPoll(es, entry, f);
    assert !IsTick(es[r]);
  }

  lemma {:induction false} FirstPollExists(es: seq<Event>, entry: nat, n: nat) returns (f: nat)
    requires entry < n < |es| && es[n].PollUpdate?
    ensures entry < f <= n && es[f].PollUpdate? && forall k | entry < k < f :: !es[k].PollUpdate?
    decreases n - entry
  {
    if es[entry + 1].PollUpdate? {
      f := entry + 1;
    } else {
      f := FirstPollExists(es, entry + 1, n);
    }
  }

  /** Since its first poll `f` the dive saw nothing but critical voltage, yet for less than ten
      seconds, and the timer was already running when it was first polled. */
  ghost predicate CarriedIn(tr: seq<World>, es: seq<Event>, f: nat, n: nat) {
    && f <= n < |es| < |tr| && tr[f].s.criticalActive
    && tr[n].t - tr[f].t < CRITICAL_VOLTAGE_HOLD_MS
    && forall k | f <= k <= n && es[k].PollUpdate? :: SawCritical(tr[k]) && FailsafeArmed(tr[k].s, Millis(tr[k].t))
  }

  /** The low-voltage evidence lies within the dive it ends, exactly unless the dive was entered with
      the timer running and its first poll, and every one since, left it so. */
  lemma EvidenceInDiveExactly(t: nat, tr: seq<World>, es: seq<Event>, n: nat) returns (entry: nat, f: nat)
    requires FromBoot(t, tr, es) && n < |es| && es[n].PollUpdate?
    requires tr[n].s.current.Diving? && !tr[n + 1].s.current.Diving? && tr[n + 1].s.failsafe.LowVoltage?
    ensures FirstPoll(tr, es, entry, f) && f <= n && Dive(tr, n, entry)
    ensures (exists start: nat :: entry < start && CriticalSince(tr, es, n, entry, start)) <==>
              !CarriedIn(tr, es, f, n)
  {
    var start: nat;
    entry, start := FailsafeEvidence(t, tr, es, n);
    f := FirstPollExists(es, entry, n);
    RunDiveMoves(tr, es);
    DivingBeginsExactly(tr[entry], es[entry]);
    assert tr[entry + 1] == Step(tr[entry], es[entry]);
    if CarriedIn(tr, es, f, n) {
      forall s: nat | entry < s ensures !CriticalSince(tr, es, n, entry, s) {
        if CriticalSince(tr, es, n, entry, s) { Elapsed(tr, f, s); }
      }
    } else {
      start := EvidenceFound(tr, es, n, entry, f);
    }
  }

  /** Otherwise the evidence starts with the timer, or at the first poll of the dive. */
  lemma EvidenceFound(tr: seq<World>, es: seq<Event>, n: nat, entry: nat, f: nat) returns (start: nat)
    requires DiveMoves(tr, es) && !tr[0].s.criticalActive && n < |es| && es[n].PollUpdate?
    requires Dive(tr, n, entry) && FirstPoll(tr, es, entry, f) && f <= n && !CarriedIn(tr, es, f, n)
    requires !es[entry].PollUpdate?
    requires !tr[n + 1].s.current.Diving? && tr[n + 1].s.failsafe.LowVoltage?
    ensures entry < start && CriticalSince(tr, es, n, entry, start)
  {
    assert DiveMove(tr[n], tr[n + 1], es[n]);
    start := DangerBegan(tr, es, n + 1);
    Elapsed(tr, start, n);
    DangerIsCritical(tr, es, n, entry, start);
    if start <= entry {
      start := f;
      assert CriticalSince(tr, es, n, entry, f);
    }
  }

  /** So in the loop's order it always does, unless the first poll of the dive took a voltage report
      a full counter wrap old for a fresh one. */
  lemma LowVoltageWithinDive(t: nat, tr: seq<World>, es: seq<Event>, n: nat) returns (entry: nat, f: nat)
    requires FromBoot(t, tr, es) && n < |es| && es[n].PollUpdate? && PhaseAfter(Done, es, n).Some?
    requires tr[n].s.current.Diving? && !tr[n + 1].s.current.Diving? && tr[n + 1].s.failsafe.LowVoltage?
    ensures FirstPoll(tr, es, entry, f) && f <= n && Dive(tr, n, entry)
    ensures (exists start: nat :: entry < start && CriticalSince(tr, es, n, entry, start)) || VoltageAged(tr, es, f)
  {
    entry, f := EvidenceInDiveExactly(t, tr, es, n);
    if CarriedIn(tr, es, f, n) {
      PhasePrefix(es, f, n);
      assert SawCritical(tr[f]) && FailsafeArmed(tr[f].s, Millis(tr[f].t));
      FirstPollSeesNoNewVoltage(t, tr, es, entry, f);
    }
  }

  // ---------------------------------------------------------------- depth backstop

  /** Where the window opened and where it took its extremes. */
  datatype Opening = Opening(start: nat, low: nat, high: nat)

  /** The window that is open at `n`, or that opens there, was opened by the poll at `start`. */
  ghost predicate WindowSpans(tr: seq<World>, es: seq<Event>, start: nat, n: nat) {
    && start <= n < |es| < |tr| && es[start].PollBackstop? && !tr[start].s.window.active
    && forall k | start < k <= n :: tr[k].s.window.active
  }

  /** Every backstop poll from the opening up to `n` saw a live, shallow ascent, and two of them
      read the least and the greatest of the depths polled. */
  ghost predicate WatchedSince(tr: seq<World>, es: seq<Event>, n: nat, x: Opening) {
    && x.start <= x.low < n <= |es| < |tr| && x.start <= x.high < n
    && WindowSpans(tr, es, x.start, n - 1)
    && es[x.low].PollBackstop? && es[x.high].PollBackstop?
    && forall k | x.start <= k < n && es[k].PollBackstop? ::
         Sees(tr[k]) && tr[x.low].m.depth <= tr[k].m.depth <= tr[x.high].m.depth
  }

  ghost predicate WindowIs(tr: seq<World>, w: Window, x: Opening)
    requires x.start < |tr| && x.low < |tr| && x.high < |tr|
  {
    w == Window(Millis(tr[x.start].t), tr[x.low].m.depth, tr[x.high].m.depth, true)
  }

  /** The window's extremes are those of exactly the depths polled since it opened. */
  lemma {:induction false} WindowHoldsExtremes(tr: seq<World>, es: seq<Event>, n: nat) returns (x: Opening)
    requires DiveMoves(tr, es) && n <= |es|
    requires !tr[0].s.window.active && tr[n].s.window.active
    ensures WatchedSince(tr, es, n, x) && WindowIs(tr, tr[n].s.window, x)
    decreases n, 0
  {
    var p := n - 1;
    assert DiveMove(tr[p], tr[n], es[p]);
    if es[p].PollBackstop? {
      x := OneMorePoll(tr, es, p);
    } else {
      x := WindowHoldsExtremes(tr, es, p);
    }
  }

  lemma {:induction false} OneMorePoll(tr: seq<World>, es: seq<Event>, p: nat) returns (x: Opening)
    requires DiveMoves(tr, es) && p < |es| && es[p].PollBackstop?
    requires !tr[0].s.window.active && Sees(tr[p])
    ensures WatchedSince(tr, es, p + 1, x) && WindowIs(tr, Observed(tr[p]), x)
    decreases p, 1
  {
    if tr[p].s.window.active {
      x := WindowHoldsExtremes(tr, es, p);
      if tr[p].m.depth < tr[p].s.window.min { x := x.(low := p); }
      if tr[p].m.depth > tr[p].s.window.max { x := x.(high := p); }
    } else {
      x := Opening(p, p, p);
    }
  }

  /** The backstop ends a dive only if every poll over thirty true seconds saw DIVING, an ascent
      and a fresh depth under 1.5 m, and the depths polled spread over at least 0.02 m. */
  lemma BackstopEvidence(t: nat, tr: seq<World>, es: seq<Event>, n: nat)
    requires FromBoot(t, tr, es) && n < |es| && es[n].PollBackstop?
    requires tr[n].s.current.Diving? && !tr[n + 1].s.current.Diving?
    ensures tr[n + 1].s.current.Recovery?
    ensures exists x :: WatchedSince(tr, es, n + 1, x) && tr[n].t - tr[x.start].t >= SURFACE_QUALIFY_MS
                        && tr[x.high].m.depth - tr[x.low].m.depth >= SURFACE_DEPTH_LIVENESS_M
  {
    RunDiveMoves(tr, es);
    assert DiveMove(tr[n], tr[n + 1], es[n]);
    var x := OneMorePoll(tr, es, n);
    Elapsed(tr, x.start, n);
  }

  /** Two depths polled from `start` to `n` differ by at least 0.02 m. */
  ghost predicate DepthMoved(tr: seq<World>, es: seq<Event>, start: nat, n: nat)
    requires n < |es| < |tr|
  {
    exists low: nat, high: nat ::
      && start <= low <= n && start <= high <= n && es[low].PollBackstop? && es[high].PollBackstop?
      && tr[high].m.depth - tr[low].m.depth >= SURFACE_DEPTH_LIVENESS_M
  }

  lemma WindowIsUnique(tr: seq<World>, es: seq<Event>, a: nat, b: nat, n: nat)
    requires WindowSpans(tr, es, a, n) && WindowSpans(tr, es, b, n)
    ensures a == b
  {
  }

  /** The extremes of the window are enough to tell whether the depths moved. */
  lemma ExtremesTell(tr: seq<World>, es: seq<Event>, n: nat, x: Opening)
    requires n < |es| && WatchedSince(tr, es, n + 1, x)
    ensures DepthMoved(tr, es, x.start, n) <==>
              tr[x.high].m.depth - tr[x.low].m.depth >= SURFACE_DEPTH_LIVENESS_M
  {
  }

  lemma PollEndsExactly(w: World)
    requires w.s.current.Diving?
    ensures !Step(w, PollBackstop).s.current.Diving? <==> Sees(w) && WindowQualified(Observed(w), Millis(w.t))
  {
  }

  /** The window decides: the backstop fires exactly when the poll sees a live, shallow ascent, the
      window it looks at has been open for thirty counter seconds, and two of the depths polled since
      it opened differ by at least 0.02 m. */
  lemma WindowDecides(t: nat, tr: seq<World>, es: seq<Event>, n: nat) returns (start: nat)
    requires FromBoot(t, tr, es) && n < |es| && es[n].PollBackstop? && tr[n].s.current.Diving?
    ensures WindowSpans(tr, es, start, n)
    ensures !tr[n + 1].s.current.Diving? <==>
              && Sees(tr[n]) && DepthMoved(tr, es, start, n)
              && (tr[n].t - tr[start].t) % WRAP >= SURFACE_QUALIFY_MS
  {
    RunDiveMoves(tr, es);
    PollEndsExactly(tr[n]);
    if Sees(tr[n]) {
      var x := OneMorePoll(tr, es, n);
      start := x.start;
      Elapsed(tr, start, n);
      ExtremesTell(tr, es, n, x);
    } else if tr[n].s.window.active {
      var x := WindowHoldsExtremes(tr, es, n);
      start := x.start;
    } else {
      start := n;
    }
  }

  /** A depth channel frozen at any value since the window opened never fires the backstop,
      whatever it read before. */
  lemma ConstantDepthNeverFires(t: nat, tr: seq<World>, es: seq<Event>, n: nat, start: nat)
    requires FromBoot(t, tr, es) && n < |es| && es[n].PollBackstop? && tr[n].s.current.Diving?
    requires WindowSpans(tr, es, start, n)
    requires forall k | start <= k <= n && es[k].PollBackstop? :: tr[k].m.depth == tr[start].m.depth
    ensures tr[n + 1].s.current.Diving?
  {
    var x := WindowDecides(t, tr, es, n);
    WindowIsUnique(tr, es, start, x, n);
  }
}
