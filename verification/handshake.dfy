/** The surface-power handshake over every run of events. */
module HandshakeSafety {
  import opened Common
  import opened Clock
  import opened MissionData
  import opened StateMachine
  import opened MavlinkGates
  import opened MainLoop
  import opened Reports

  // ---------------------------------------------------------------- invariant

  /** What every operation keeps. */
  predicate Inv(s: Machine) {
    && s.relay == s.powered
    && (!s.current.Recovery? ==> s.powered && s.hs == NO_HANDSHAKE)
    && (!s.powered ==> s.hs.acknowledged)
    && (s.hs.acknowledged ==> s.hs.requested)
    && (s.hs.requested ==> s.hs.dwellActive)
    && (s.hs.dwellActive <==> s.hs.qualified)
    && (s.hs.dwellActive ==> s.current.Recovery? && s.previous.Diving?)
  }

  lemma UpdateKeepsInv(s: Machine, m: Mission, now: u32)
    requires Inv(s)
    ensures Inv(Update(s, m, now))
  {
  }

  lemma FollowKeepsInv(s: Machine, doris: int, now: u32)
    requires Inv(s)
    ensures Inv(Follow(s, doris, now))
  {
  }

  lemma PollsKeepInv(s: Machine, m: Mission, now: u32)
    requires Inv(s)
    ensures Inv(UpdateSurfacePower(s, m, now)) && Inv(UpdateSurfaceBackstop(s, m, now))
  {
  }

  lemma InputsKeepInv(w: World, i: Input)
    requires Inv(w.s)
    ensures Inv(Deliver(w, i).s)
  {
  }

  /** Every event of the loop keeps the invariant. */
  lemma EveryEventKeepsInv(w: World, e: Event)
    requires Inv(w.s)
    ensures Inv(Step(w, e).s)
  {
    var now := Millis(w.t);
    match e
    case Receive(i) => InputsKeepInv(w, i);
    case PollUpdate => UpdateKeepsInv(w.s, w.m, now);
    case PollSurfacePower | PollBackstop => PollsKeepInv(w.s, w.m, now);
    case FollowLua => FollowKeepsInv(w.s, w.m.doris, now);
    case _ =>
  }

  lemma {:induction false} ReachableInv(t: nat, tr: seq<World>, es: seq<Event>, n: nat)
    requires FromBoot(t, tr, es) && n <= |es|
    ensures Inv(tr[n].s)
    ensures CanTransmit(tr[n].s) <==> !tr[n].s.powered
    decreases n
  {
    if n > 0 {
      ReachableInv(t, tr, es, n - 1);
      EveryEventKeepsInv(tr[n - 1], es[n - 1]);
    }
  }

  // ---------------------------------------------------------------- one event

  /** How one event can move the handshake. */
  ghost predicate Move(w: World, v: World, e: Event) {
    && Inv(w.s) && Inv(v.s)
    && (v.s.current.Recovery? && w.s.current.Recovery? ==> InVisit(w, v, e))
    && (v.s.current.Recovery? && !w.s.current.Recovery? ==>
          v.s.previous == w.s.current && v.s.hs == NO_HANDSHAKE && v.s.powered)
  }

  /** How it can move the handshake within a recovery visit. */
  ghost predicate InVisit(w: World, v: World, e: Event) {
    && v.s.previous == w.s.previous
    && (w.s.hs.dwellActive ==> v.s.hs.dwellActive && v.s.hs.dwellStart == w.s.hs.dwellStart)
    && (w.s.hs.acknowledged ==> v.s.hs == w.s.hs)
    && (!w.s.powered ==> !v.s.powered)
    && (v.s.hs.dwellActive && !w.s.hs.dwellActive ==>
          && e.PollSurfacePower? && Authorized(w.s, w.m, Millis(w.t))
          && v.s.hs.dwellStart == Millis(w.t))
    && (v.s.hs.requested && !w.s.hs.requested ==>
          e.PollSurfacePower? && Since(Millis(w.t), v.s.hs.dwellStart) >= SURFACE_LOGGING_DWELL_MS)
    && (v.s.hs.acknowledged && !w.s.hs.acknowledged ==>
          IsPowerAck(e) && w.s.hs.requested && v.s.hs == w.s.hs.(acknowledged := true, ackTime := Millis(w.t)))
    && (w.s.powered && !v.s.powered ==>
          && e.PollSurfacePower? && w.s.hs.acknowledged
          && Since(Millis(w.t), w.s.hs.ackTime) >= POWER_SHUTDOWN_FINAL_GRACE_MS)
    // and what it must do
    && (e.PollSurfacePower? && w.s.hs.dwellActive && !w.s.hs.acknowledged ==>
          (v.s.hs.requested <==> Since(Millis(w.t), w.s.hs.dwellStart) >= SURFACE_LOGGING_DWELL_MS))
    && (e.PollSurfacePower? && Authorized(w.s, w.m, Millis(w.t)) ==> v.s.hs.dwellActive)
    && (!e.PollSurfacePower? && w.s.hs.requested ==> v.s.hs.requested)
    && (IsPowerAck(e) && w.s.hs.requested ==> v.s.hs.acknowledged)
    && (e.PollSurfacePower? && w.s.hs.acknowledged ==>
          (Since(Millis(w.t), w.s.hs.ackTime) >= POWER_SHUTDOWN_FINAL_GRACE_MS ==> !v.s.powered))
  }

  lemma StepInVisit(w: World, e: Event)
    requires Inv(w.s) && w.s.current.Recovery? && Step(w, e).s.current.Recovery?
    ensures InVisit(w, Step(w, e), e)
  {
  }

  lemma StepMoves(w: World, e: Event)
    requires Inv(w.s)
    ensures Move(w, Step(w, e), e)
  {
    EveryEventKeepsInv(w, e);
    if w.s.current.Recovery? && Step(w, e).s.current.Recovery? { StepInVisit(w, e); }
  }

  /** A run seen only through `Move`. */
  ghost predicate Moves(tr: seq<World>, es: seq<Event>) {
    && |tr| == |es| + 1 && ClockRuns(tr)
    && forall i | 0 <= i < |es| :: Move(tr[i], tr[i + 1], es[i])
  }

  lemma RunMoves(t: nat, tr: seq<World>, es: seq<Event>)
    requires FromBoot(t, tr, es)
    ensures Moves(tr, es) && Inv(tr[0].s)
  {
    RunClock(tr, es);
    forall i | 0 <= i < |es| ensures Move(tr[i], tr[i + 1], es[i]) {
      ReachableInv(t, tr, es, i);
      StepMoves(tr[i], es[i]);
    }
  }

  // ---------------------------------------------------------------- evidence in a run

  /** The indices that justify a cutoff. */
  datatype Evidence = Evidence(entry: nat, msg: nat, poll: nat, ack: nat, grace: nat)

  /** The recovery visit that is current at `n` was entered from DIVING by event `entry`. */
  ghost predicate Visit(tr: seq<World>, n: nat, entry: nat) {
    && entry < n < |tr| && tr[entry].s.current.Diving?
    && forall i | entry < i <= n :: tr[i].s.current.Recovery?
  }

  /** In that visit a poll saw STATE=4, the newest report, at most 3000 counter milliseconds old. */
  ghost predicate Dwell(tr: seq<World>, es: seq<Event>, n: nat, x: Evidence) {
    && Visit(tr, n, x.entry) && |es| + 1 == |tr|
    && x.entry < x.poll < n && es[x.poll].PollSurfacePower?
    && x.msg < x.poll && StateOf(es[x.msg]) == Some(4)
    && (forall i | x.msg < i < x.poll :: StateOf(es[i]).None?)
    && (tr[x.poll].t - tr[x.msg].t) % WRAP <= MISSION_DATA_FRESHNESS_MS
  }

  /** After a full dwell of true time BlueOS acknowledged. */
  ghost predicate AckAfterDwell(tr: seq<World>, es: seq<Event>, n: nat, x: Evidence) {
    && Dwell(tr, es, n, x)
    && x.poll < x.ack < n && IsPowerAck(es[x.ack])
    && tr[x.ack].t - tr[x.poll].t >= SURFACE_LOGGING_DWELL_MS
  }

  /** After a full grace of true time a poll cut the power. */
  ghost predicate CutAfterGrace(tr: seq<World>, es: seq<Event>, n: nat, x: Evidence) {
    && AckAfterDwell(tr, es, n, x)
    && x.ack < x.grace < n && es[x.grace].PollSurfacePower?
    && tr[x.grace].t - tr[x.ack].t >= POWER_SHUTDOWN_FINAL_GRACE_MS
  }

  /** `x` accounts for everything the machine holds at `n`. */
  ghost predicate Explains(tr: seq<World>, es: seq<Event>, n: nat, x: Evidence)
    requires n < |tr|
  {
    var w := tr[n];
    && (w.s.current.Recovery? && w.s.previous.Diving? ==> Visit(tr, n, x.entry))
    && (w.s.hs.dwellActive ==> Dwell(tr, es, n, x) && w.s.hs.dwellStart == Millis(tr[x.poll].t))
    && (w.s.hs.requested ==> x.poll <= n && w.t - tr[x.poll].t >= SURFACE_LOGGING_DWELL_MS)
    && (w.s.hs.acknowledged ==> AckAfterDwell(tr, es, n, x) && w.s.hs.ackTime == Millis(tr[x.ack].t))
    && (!w.s.powered ==> CutAfterGrace(tr, es, n, x))
  }

  /** An authorizing poll starts a fresh account of the dwell. */
  lemma ExplainDwell(tr: seq<World>, es: seq<Event>, p: nat, x: Evidence) returns (y: Evidence)
    requires Moves(tr, es) && Believes(tr, es, StateKind) && p < |es| && Visit(tr, p, x.entry)
    requires tr[p + 1].s.current.Recovery? && tr[p + 1].s.hs.dwellActive && !tr[p].s.hs.dwellActive
    ensures Explains(tr, es, p + 1, y)
  {
    assert Move(tr[p], tr[p + 1], es[p]) && InVisit(tr[p], tr[p + 1], es[p]);
    var msg := BelievedIsNewest(tr, es, p, StateKind);
    assert forall i | msg < i < p :: StateOf(es[i]).None? <==> Carried(StateKind, es[i]).None?;
    y := Evidence(x.entry, msg, p, 0, 0);
    assert Dwell(tr, es, p + 1, y);
  }

  lemma DwellExtends(tr: seq<World>, es: seq<Event>, n: nat, x: Evidence)
    requires Dwell(tr, es, n, x) && n + 1 < |tr| && tr[n + 1].s.current.Recovery?
    ensures Dwell(tr, es, n + 1, x)
  {
  }

  /** One more event in a visit whose dwell is on. */
  lemma ExplainOn(tr: seq<World>, es: seq<Event>, p: nat, x: Evidence) returns (y: Evidence)
    requires Moves(tr, es) && p < |es| && Explains(tr, es, p, x)
    requires tr[p].s.hs.dwellActive && tr[p + 1].s.current.Recovery?
    ensures Explains(tr, es, p + 1, y)
  {
    var w, v := tr[p], tr[p + 1];
    assert Move(w, v, es[p]) && InVisit(w, v, es[p]);
    DwellExtends(tr, es, p, x);
    Elapsed(tr, p, p + 1);
    y := x;
    if w.s.hs.acknowledged {
      if w.s.powered && !v.s.powered {
        Elapsed(tr, x.ack, p);
        y := x.(grace := p);
      }
    } else {
      Elapsed(tr, x.poll, p);
      if v.s.hs.acknowledged { y := x.(ack := p); }
    }
  }

  lemma {:induction false} Explain(tr: seq<World>, es: seq<Event>, n: nat) returns (x: Evidence)
    requires Moves(tr, es) && Believes(tr, es, StateKind) && n <= |es|
    requires tr[0].s.current.PreDive? && Inv(tr[0].s)
    ensures Explains(tr, es, n, x)
    decreases n
  {
    if n == 0 { return Evidence(0, 0, 0, 0, 0); }
    var p := n - 1;
    x := Explain(tr, es, p);
    assert Move(tr[p], tr[n], es[p]);
    if !tr[n].s.current.Recovery? { return; }
    if !tr[p].s.current.Recovery? {
      x := x.(entry := p);
    } else if tr[p].s.hs.dwellActive {
      x := ExplainOn(tr, es, p, x);
    } else if tr[n].s.hs.dwellActive {
      x := ExplainDwell(tr, es, p, x);
    }
  }

  // ---------------------------------------------------------------- main results

  /** Whenever payload power is off, the run holds the whole justification, in true time and
      with no assumption about rollover. */
  lemma CutoffSafety(t: nat, tr: seq<World>, es: seq<Event>, n: nat)
    requires FromBoot(t, tr, es) && n <= |es| && !tr[n].s.powered
    ensures exists x :: CutAfterGrace(tr, es, n, x)
  {
    RunMoves(t, tr, es);
    RunBelieves(t, tr, es, StateKind);
    var x := Explain(tr, es, n);
  }

  /** No depth, failsafe, backstop or acknowledgement cuts power in a run without STATE=4. */
  lemma NoCutoffWithoutStateFour(t: nat, tr: seq<World>, es: seq<Event>, n: nat)
    requires FromBoot(t, tr, es) && n <= |es|
    requires forall i | 0 <= i < n :: StateOf(es[i]) != Some(4)
    ensures tr[n].s.powered && tr[n].s.relay && !tr[n].s.hs.requested
  {
    RunMoves(t, tr, es);
    RunBelieves(t, tr, es, StateKind);
    var x := Explain(tr, es, n);
    ReachableInv(t, tr, es, n);
  }

  /** An acknowledgement changes the machine exactly when one is awaited: early ones are
      ignored and repeated ones do not restart the grace. */
  lemma AckCountsExactlyWhenAwaited(s: Machine, now: u32)
    requires Inv(s)
    ensures Acknowledge(s, now) != s <==> StageOf(s) == AwaitingAck
    ensures StageOf(s) == AwaitingAck ==>
              StageOf(Acknowledge(s, now)) == Acked && Acknowledge(s, now).hs.ackTime == now
  {
  }

  /** Cut power comes back on exactly two events: the serial reset, and following a mission
      state of at most zero. A power cycle is not needed. */
  lemma PowerReturnsExactlyOnReset(w: World, e: Event)
    requires Inv(w.s) && !w.s.powered
    ensures Step(w, e).s.powered <==> e == Receive(ResetCommand) || (e.FollowLua? && w.m.doris <= 0)
  {
  }

  function Rank(s: Machine): nat {
    match StageOf(s) { case Idle => 0 case AwaitingAck => 1 case Acked => 2 case PayloadOff => 3 }
  }

  /** While a recovery visit lasts, the shutdown stage never drops, whatever goes stale or is
      reverted; only an unacknowledged request can lapse, a full counter wrap after the dwell began. */
  lemma {:induction false} StageNeverDrops(tr: seq<World>, es: seq<Event>, i: nat, j: nat, x: Evidence)
    requires Moves(tr, es) && i <= j <= |es| && Explains(tr, es, i, x) && Inv(tr[i].s)
    requires forall k | i <= k <= j :: tr[k].s.current.Recovery?
    requires StageOf(tr[i].s) == AwaitingAck ==> tr[j].t - tr[x.poll].t < WRAP
    ensures Rank(tr[i].s) <= Rank(tr[j].s) && Inv(tr[j].s)
    ensures tr[i].s.hs.dwellActive ==>
              tr[j].s.hs.dwellActive && tr[j].s.hs.dwellStart == tr[i].s.hs.dwellStart
    decreases j
  {
    if i < j {
      var p := j - 1;
      Elapsed(tr, p, j);
      StageNeverDrops(tr, es, i, p, x);
      assert Move(tr[p], tr[j], es[p]) && InVisit(tr[p], tr[j], es[p]);
      if tr[i].s.hs.requested {
        Elapsed(tr, x.poll, p);
        Elapsed(tr, i, p);
      }
    }
  }

  /** When a request does stand: after every poll of an unacknowledged dwell, exactly while the
      wrapped dwell time is long enough. */
  lemma RequestStandsExactly(tr: seq<World>, es: seq<Event>, n: nat, x: Evidence)
    requires Moves(tr, es) && n < |es| && Explains(tr, es, n, x)
    requires es[n].PollSurfacePower? && tr[n + 1].s.current.Recovery?
    requires tr[n].s.hs.dwellActive && !tr[n].s.hs.acknowledged
    ensures tr[n + 1].s.hs.requested <==> (tr[n].t - tr[x.poll].t) % WRAP >= SURFACE_LOGGING_DWELL_MS
  {
    Elapsed(tr, x.poll, n);
    assert Move(tr[n], tr[n + 1], es[n]);
  }

  // ---------------------------------------------------------------- when the dwell starts

  lemma {:induction false} VisitFromDiving(tr: seq<World>, es: seq<Event>, n: nat, entry: nat)
    requires Moves(tr, es) && Visit(tr, n, entry)
    ensures tr[n].s.previous.Diving?
    decreases n
  {
    assert Move(tr[n - 1], tr[n], es[n - 1]);
    if entry + 1 < n { VisitFromDiving(tr, es, n - 1, entry); }
  }

  /** A poll that finds STATE=4 the newest report, at most 3000 counter milliseconds old. */
  ghost predicate SeesFour(tr: seq<World>, es: seq<Event>, n: nat) {
    n < |es| && es[n].PollSurfacePower? && FreshReport(tr, es, n, StateKind, 4.0)
  }

  lemma AuthorizedExactly(t: nat, tr: seq<World>, es: seq<Event>, n: nat, entry: nat)
    requires FromBoot(t, tr, es) && n < |es| && Visit(tr, n, entry)
    ensures Authorized(tr[n].s, tr[n].m, Millis(tr[n].t)) <==> FreshReport(tr, es, n, StateKind, 4.0)
  {
    RunMoves(t, tr, es);
    VisitFromDiving(tr, es, n, entry);
    FreshReportExactly(t, tr, es, n, StateKind, 4.0);
  }

  ghost predicate FourSeen(tr: seq<World>, es: seq<Event>, entry: nat, n: nat) {
    exists p: nat :: entry < p < n && SeesFour(tr, es, p)
  }

  /** In a visit entered from DIVING the dwell is on exactly when some poll of the visit saw STATE=4. */
  lemma {:induction false} DwellExactly(t: nat, tr: seq<World>, es: seq<Event>, n: nat, entry: nat)
    requires FromBoot(t, tr, es) && Visit(tr, n, entry) && n <= |es|
    ensures tr[n].s.hs.dwellActive <==> FourSeen(tr, es, entry, n)
    decreases n
  {
    RunMoves(t, tr, es);
    var p := n - 1;
    assert Move(tr[p], tr[n], es[p]);
    if entry < p {
      DwellExactly(t, tr, es, p, entry);
      AuthorizedExactly(t, tr, es, p, entry);
      DwellStep(tr, es, p, entry);
    }
  }

  lemma DwellStep(tr: seq<World>, es: seq<Event>, p: nat, entry: nat)
    requires |tr| == |es| + 1 && entry < p < |es| && Visit(tr, p + 1, entry)
    requires Move(tr[p], tr[p + 1], es[p])
    requires tr[p].s.hs.dwellActive <==> FourSeen(tr, es, entry, p)
    requires Authorized(tr[p].s, tr[p].m, Millis(tr[p].t)) <==> FreshReport(tr, es, p, StateKind, 4.0)
    ensures tr[p + 1].s.hs.dwellActive <==> FourSeen(tr, es, entry, p + 1)
  {
    assert FourSeen(tr, es, entry, p + 1) <==> FourSeen(tr, es, entry, p) || SeesFour(tr, es, p);
    assert InVisit(tr[p], tr[p + 1], es[p]);
  }

  // ---------------------------------------------------------------- progress

  /** In the visit that began at `entry`, `es[i]` is the first poll to see STATE=4, `es[j]` polls a
      full dwell later and `es[k]` acknowledges, all within one counter wrap. */
  ghost predicate Sequence(tr: seq<World>, es: seq<Event>, entry: nat, i: nat, j: nat, k: nat) {
    && i < j < k < |es| && |tr| == |es| + 1
    && Visit(tr, i, entry) && SeesFour(tr, es, i) && !FourSeen(tr, es, entry, i)
    && es[j].PollSurfacePower? && IsPowerAck(es[k])
    && tr[j].t - tr[i].t >= SURFACE_LOGGING_DWELL_MS && tr[k].t - tr[i].t < WRAP
  }

  /** The same as the machine sees it. */
  ghost predicate Started(tr: seq<World>, es: seq<Event>, i: nat, j: nat, k: nat) {
    && i < j < k < |es| && |tr| == |es| + 1
    && es[i].PollSurfacePower? && es[j].PollSurfacePower? && IsPowerAck(es[k])
    && !tr[i].s.hs.dwellActive && Authorized(tr[i].s, tr[i].m, Millis(tr[i].t))
    && tr[j].t - tr[i].t >= SURFACE_LOGGING_DWELL_MS && tr[k].t - tr[i].t < WRAP
  }

  lemma SequenceStarts(t: nat, tr: seq<World>, es: seq<Event>, entry: nat, i: nat, j: nat, k: nat)
    requires FromBoot(t, tr, es) && Sequence(tr, es, entry, i, j, k)
    ensures Started(tr, es, i, j, k)
  {
    AuthorizedExactly(t, tr, es, i, entry);
    DwellExactly(t, tr, es, i, entry);
  }

  /** The acknowledgement in force at `n` was accepted at `a`, and the power was on until then. */
  ghost predicate AckedAt(tr: seq<World>, es: seq<Event>, n: nat, a: nat) {
    && a < n < |tr| && a < |es| && IsPowerAck(es[a]) && tr[a].s.powered
    && forall x | a < x <= n :: tr[x].s.hs.acknowledged && tr[x].s.hs.ackTime == Millis(tr[a].t)
  }

  /** From there on the dwell keeps its start, the request stands after `j`, and after `k` an
      acknowledgement is in force whose grace began no later than `k`, however long that is. */
  lemma {:induction false} HandshakeAdvances(tr: seq<World>, es: seq<Event>, i: nat, j: nat, k: nat, n: nat)
    returns (a: nat)
    requires Moves(tr, es) && Started(tr, es, i, j, k) && i < n <= |es|
    requires forall x | i <= x <= n :: tr[x].s.current.Recovery?
    ensures var h := tr[n].s.hs;
      && h.dwellActive && h.dwellStart == Millis(tr[i].t)
      && (j < n ==> h.requested)
      && (k < n ==> h.acknowledged)
      && (h.acknowledged ==> i < a && AckedAt(tr, es, n, a) && (k < n ==> a <= k))
    decreases n
  {
    var p := n - 1;
    var w := tr[p];
    assert Move(w, tr[n], es[p]) && InVisit(w, tr[n], es[p]);
    if p == i { return i; }
    a := HandshakeAdvances(tr, es, i, j, k, p);
    if !w.s.hs.acknowledged {
      Elapsed(tr, i, p);
      Elapsed(tr, p, k);
      if j <= p { Elapsed(tr, j, p); }
      a := p;
    }
  }

  /** A poll at which the wrapped time since the acknowledgement reaches the grace. */
  ghost predicate GraceSeen(tr: seq<World>, es: seq<Event>, a: nat, n: nat) {
    exists p: nat :: a < p < n <= |es| < |tr| && es[p].PollSurfacePower?
                && (tr[p].t - tr[a].t) % WRAP >= POWER_SHUTDOWN_FINAL_GRACE_MS
  }

  /** Once acknowledged the power is off exactly when such a poll has been. */
  lemma {:induction false} PowerOffExactly(tr: seq<World>, es: seq<Event>, a: nat, n: nat)
    requires Moves(tr, es) && n <= |es| && AckedAt(tr, es, n, a)
    requires forall x | a <= x <= n :: tr[x].s.current.Recovery?
    ensures !tr[n].s.powered <==> GraceSeen(tr, es, a, n)
    decreases n
  {
    var p := n - 1;
    assert Move(tr[p], tr[n], es[p]) && InVisit(tr[p], tr[n], es[p]);
    if a < p {
      PowerOffExactly(tr, es, a, p);
      Elapsed(tr, a, p);
      var last := es[p].PollSurfacePower? && (tr[p].t - tr[a].t) % WRAP >= POWER_SHUTDOWN_FINAL_GRACE_MS;
      assert GraceSeen(tr, es, a, n) <==> GraceSeen(tr, es, a, p) || last;
    }
  }

  /** Progress: STATE=4 seen at `i`, a poll past the dwell at `j` and an acknowledgement at `k`, within
      one counter wrap. From then on, as long as RECOVERY lasts, the payload is off exactly when
      some poll has seen the wrapped grace since the accepted acknowledgement. */
  lemma HandshakeCompletesExactly(
    t: nat, tr: seq<World>, es: seq<Event>, entry: nat, i: nat, j: nat, k: nat, n: nat)
    returns (a: nat)
    requires FromBoot(t, tr, es) && Sequence(tr, es, entry, i, j, k) && k < n <= |es|
    requires forall x | i <= x <= n :: tr[x].s.current.Recovery?
    ensures i < a <= k && IsPowerAck(es[a])
    ensures StageOf(tr[n].s) == PayloadOff <==> GraceSeen(tr, es, a, n)
    ensures StageOf(tr[n].s) != PayloadOff ==> StageOf(tr[n].s) == Acked
  {
    RunMoves(t, tr, es);
    SequenceStarts(t, tr, es, entry, i, j, k);
    a := HandshakeAdvances(tr, es, i, j, k, n);
    PowerOffExactly(tr, es, a, n);
  }

  /** In particular a poll past the grace at `l`, less than a counter wrap after the dwell began,
      always ends with the payload off. */
  lemma HandshakeCompletes(t: nat, tr: seq<World>, es: seq<Event>, entry: nat, i: nat, j: nat, k: nat, l: nat)
    requires FromBoot(t, tr, es) && Sequence(tr, es, entry, i, j, k) && k < l < |es|
    requires forall x | i <= x <= l :: tr[x].s.current.Recovery?
    requires es[l].PollSurfacePower?
    requires tr[l].t - tr[k].t >= POWER_SHUTDOWN_FINAL_GRACE_MS
    requires tr[l].t - tr[i].t < WRAP
    ensures StageOf(tr[l + 1].s) == PayloadOff
  {
    RunClock(tr, es);
    assert tr[l + 1] == Step(tr[l], es[l]);
    var a := HandshakeCompletesExactly(t, tr, es, entry, i, j, k, l + 1);
    Elapsed(tr, i, a);
    Elapsed(tr, a, k);
    Elapsed(tr, a, l);
    assert GraceSeen(tr, es, a, l + 1);
  }

  function Report(state: int): Event {
    Receive(Named(AUTOPILOT, "STATE" + seq(5, _ => '\0'), Finite(state as real)))
  }

  const ACK: Event := Receive(Named(BLUEOS, "PWR_ACK" + seq(3, _ => '\0'), Finite(1.0)))

  lemma ReportMeans(n: int)
    requires -1 <= n <= 4
    ensures StateOf(Report(n)) == Some(n) && IsPowerAck(ACK)
  {
  }

  /** Runs can be continued by any events. */
  lemma {:induction false} Continue(t: nat, tr: seq<World>, es: seq<Event>, more: seq<Event>) returns (tr': seq<World>)
    requires FromBoot(t, tr, es)
    ensures FromBoot(t, tr', es + more) && tr'[..|tr|] == tr
  {
    var rest := RunHasTrace(tr[|es|], more);
    tr' := tr + rest[1..];
    var all := es + more;
    forall i | 0 <= i < |all| ensures tr'[i + 1] == Step(tr'[i], all[i]) {
      if i >= |es| {
        assert rest[i - |es| + 1] == Step(rest[i - |es|], more[i - |es|]);
      }
    }
  }
}
