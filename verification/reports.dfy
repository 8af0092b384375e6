/** What the firmware believes was reported to it: every fresh value in a run traces back to the
    newest message that carried one (src/modules/mission_data.cpp). */
module Reports {
  import opened Common
  import opened Clock
  import opened MissionData
  import opened MavlinkGates
  import opened MainLoop

  /** The mission state an event reports. */
  function StateOf(e: Event): Option<int> {
    match e
    case Receive(Named(from, name, value)) =>
      (match Classify(from, name, value) case StateReport(n) => Some(n) case _ => None)
    case _ => None
  }

  predicate IsPowerAck(e: Event) {
    e.Receive? && e.input.Named? && Classify(e.input.from, e.input.name, e.input.value).PowerAck?
  }

  predicate IsHeartbeat(e: Event) {
    e.Receive? && e.input.Heartbeat? && e.input.from == AUTOPILOT
  }

  /** The depth an event reports; readings above the surface count as zero. */
  function DepthOf(e: Event): Option<real> {
    match e
    case Receive(Depth(from, Finite(d))) =>
      if from == AUTOPILOT then Some(if d < 0.0 then 0.0 else d) else None
    case _ => None
  }

  /** The battery voltage an event reports. */
  function VoltageOf(e: Event): Option<real> {
    match e
    case Receive(Battery(from, mv)) =>
      if from == AUTOPILOT && 0 < mv && mv != 65535 then Some(mv as real / 1000.0) else None
    case _ => None
  }

  /** The plausible temperature an event reports. */
  function TemperatureOf(e: Event): Option<real> {
    match e
    case Receive(Named(from, name, value)) =>
      (match Classify(from, name, value)
       case MinTemperature(t) => if -100.0 <= t <= 100.0 then Some(t) else None
       case _ => None)
    case _ => None
  }

  // ---------------------------------------------------------------- the four timed values

  datatype Kind = StateKind | DepthKind | VoltageKind | HeartbeatKind

  /** The value of a kind that an event carries; a heartbeat carries no number. */
  function Carried(k: Kind, e: Event): Option<real> {
    match k
    case StateKind => (match StateOf(e) case Some(n) => Some(n as real) case None => None)
    case DepthKind => DepthOf(e)
    case VoltageKind => VoltageOf(e)
    case HeartbeatKind => if IsHeartbeat(e) then Some(0.0) else None
  }

  datatype Held = Held(valid: bool, value: real, ms: u32)

  /** What the firmware holds of a kind. */
  function HeldOf(m: Mission, k: Kind): Held {
    match k
    case StateKind => Held(m.dorisValid, m.doris as real, m.dorisMs)
    case DepthKind => Held(m.depthValid, m.depth, m.depthMs)
    case VoltageKind => Held(m.voltageFromAutopilot, m.voltage, m.voltageMs)
    case HeartbeatKind => Held(m.heartbeatValid, 0.0, m.heartbeatMs)
  }

  /** Only a message that carries a value moves that value and its time. */
  ghost predicate BeliefMove(w: World, v: World, e: Event, k: Kind) {
    HeldOf(v.m, k) == match Carried(k, e)
      case Some(x) => Held(true, x, Millis(w.t))
      case None => HeldOf(w.m, k)
  }

  /** Only inputs move what is believed. */
  lemma InputsMoveMission(w: World, e: Event)
    ensures e.Receive? ==> Step(w, e) == Deliver(w, e.input)
    ensures !e.Receive? ==> Step(w, e).m == w.m
  {
  }

  lemma DeliverBelieves(w: World, i: Input, k: Kind)
    ensures BeliefMove(w, Deliver(w, i), Receive(i), k)
  {
  }

  lemma StepBelieves(w: World, e: Event, k: Kind)
    ensures BeliefMove(w, Step(w, e), e, k)
  {
    InputsMoveMission(w, e);
    if e.Receive? { DeliverBelieves(w, e.input, k); }
  }

  /** A run from knowing nothing, seen only through `BeliefMove`. */
  ghost predicate Believes(tr: seq<World>, es: seq<Event>, k: Kind) {
    && |tr| == |es| + 1 && ClockRuns(tr) && !HeldOf(tr[0].m, k).valid
    && forall i | 0 <= i < |es| :: BeliefMove(tr[i], tr[i + 1], es[i], k)
  }

  lemma RunBelieves(t: nat, tr: seq<World>, es: seq<Event>, k: Kind)
    requires FromBoot(t, tr, es)
    ensures Believes(tr, es, k)
  {
    RunClock(tr, es);
    forall i | 0 <= i < |es| ensures BeliefMove(tr[i], tr[i + 1], es[i], k) {
      StepBelieves(tr[i], es[i], k);
    }
  }

  /** Event `r` is the newest before `n` that carried a value of the kind, and carried `x`. */
  ghost predicate Newest(es: seq<Event>, n: nat, k: Kind, r: nat, x: real) {
    && r < n <= |es| && Carried(k, es[r]) == Some(x)
    && forall i | r < i < n :: Carried(k, es[i]).None?
  }

  /** What the firmware holds is what the newest such message carried, and the age it computes is
      that message's true age, wrapped. */
  lemma {:induction false} BelievedIsNewest(tr: seq<World>, es: seq<Event>, n: nat, k: Kind) returns (r: nat)
    requires Believes(tr, es, k) && n <= |es| && HeldOf(tr[n].m, k).valid
    ensures Newest(es, n, k, r, HeldOf(tr[n].m, k).value)
    ensures HeldOf(tr[n].m, k).ms == Millis(tr[r].t) && tr[r].t <= tr[n].t
    ensures Since(Millis(tr[n].t), HeldOf(tr[n].m, k).ms) == (tr[n].t - tr[r].t) % WRAP <= tr[n].t - tr[r].t
    decreases n
  {
    assert n > 0;
    assert BeliefMove(tr[n - 1], tr[n], es[n - 1], k);
    if Carried(k, es[n - 1]).Some? {
      r := n - 1;
    } else {
      r := BelievedIsNewest(tr, es, n - 1, k);
    }
    Elapsed(tr, r, n);
  }

  /** Conversely, once a message of a kind has arrived the firmware holds one. */
  lemma {:induction false} ReportedIsBelieved(tr: seq<World>, es: seq<Event>, n: nat, k: Kind, r: nat)
    requires Believes(tr, es, k) && r < n <= |es| && Carried(k, es[r]).Some?
    ensures HeldOf(tr[n].m, k).valid
    decreases n
  {
    assert BeliefMove(tr[n - 1], tr[n], es[n - 1], k);
    if r < n - 1 { ReportedIsBelieved(tr, es, n - 1, k, r); }
  }

  /** Freshness, exactly: a value is fresh when and only when some message of its kind has arrived
      and the newest one is at most 3000 ms old, modulo the counter's wrap. */
  lemma FreshExactly(t: nat, tr: seq<World>, es: seq<Event>, n: nat, k: Kind)
    requires FromBoot(t, tr, es) && n <= |es| && k != HeartbeatKind
    ensures FreshAt(tr[n], k) <==>
              exists r: nat :: r < n && Newest(es, n, k, r, HeldOf(tr[n].m, k).value)
                && (tr[n].t - tr[r].t) % WRAP <= MISSION_DATA_FRESHNESS_MS
  {
    RunBelieves(t, tr, es, k);
    if HeldOf(tr[n].m, k).valid {
      var r := BelievedIsNewest(tr, es, n, k);
      forall q: nat | q < n && Newest(es, n, k, q, HeldOf(tr[n].m, k).value) ensures q == r {
      }
    } else if r: nat :| r < n && Newest(es, n, k, r, HeldOf(tr[n].m, k).value) {
      ReportedIsBelieved(tr, es, n, k, r);
    }
  }

  /** The freshness tests of the modelled decisions; heartbeats have none. */
  predicate FreshAt(w: World, k: Kind)
    requires k != HeartbeatKind
  {
    match k
    case StateKind => w.m.DorisFresh(Millis(w.t))
    case DepthKind => w.m.DepthFresh(Millis(w.t))
    case VoltageKind => w.m.VoltageFresh(Millis(w.t))
  }

  // ---------------------------------------------------------------- what the run says

  /** The newest message of a kind carried `x` and is fresh by the wrapped counter. */
  ghost predicate FreshReport(tr: seq<World>, es: seq<Event>, n: nat, k: Kind, x: real) {
    exists r: nat :: r < n <= |es| < |tr| && Newest(es, n, k, r, x)
                && (tr[n].t - tr[r].t) % WRAP <= MISSION_DATA_FRESHNESS_MS
  }

  ghost predicate Reported(es: seq<Event>, n: nat, k: Kind, x: real) {
    exists r: nat :: r < n && Newest(es, n, k, r, x)
  }

  lemma NewestIsUnique(es: seq<Event>, n: nat, k: Kind, r: nat, x: real, q: nat, y: real)
    requires Newest(es, n, k, r, x) && Newest(es, n, k, q, y)
    ensures r == q && x == y
  {
  }

  /** The firmware holds `x` exactly when the newest message carried it. */
  lemma ReportedExactly(t: nat, tr: seq<World>, es: seq<Event>, n: nat, k: Kind, x: real)
    requires FromBoot(t, tr, es) && n <= |es|
    ensures Reported(es, n, k, x) <==> HeldOf(tr[n].m, k).valid && HeldOf(tr[n].m, k).value == x
  {
    RunBelieves(t, tr, es, k);
    if HeldOf(tr[n].m, k).valid {
      var r := BelievedIsNewest(tr, es, n, k);
      if q: nat :| q < n && Newest(es, n, k, q, x) {
        NewestIsUnique(es, n, k, r, HeldOf(tr[n].m, k).value, q, x);
      }
    } else if r: nat :| r < n && Newest(es, n, k, r, x) {
      ReportedIsBelieved(tr, es, n, k, r);
    }
  }

  /** And takes it for fresh exactly when that message is. */
  lemma FreshReportExactly(t: nat, tr: seq<World>, es: seq<Event>, n: nat, k: Kind, x: real)
    requires FromBoot(t, tr, es) && n <= |es| && k != HeartbeatKind
    ensures FreshReport(tr, es, n, k, x) <==> FreshAt(tr[n], k) && HeldOf(tr[n].m, k).value == x
  {
    FreshExactly(t, tr, es, n, k);
    ReportedExactly(t, tr, es, n, k, x);
  }

  lemma {:induction false} NeverReported(t: nat, tr: seq<World>, es: seq<Event>, n: nat)
    requires FromBoot(t, tr, es) && n <= |es| && !tr[n].m.dorisValid
    ensures tr[n].m.doris == -1
    decreases n
  {
    if n > 0 {
      StepBelieves(tr[n - 1], es[n - 1], StateKind);
      NeverReported(t, tr, es, n - 1);
    }
  }

  // ---------------------------------------------------------------- leak

  /** The newest leak command before `n` reported a leak. */
  ghost predicate LeakReported(es: seq<Event>, n: nat) {
    exists r: nat :: r < n <= |es| && es[r] == Receive(LeakCommand(true))
                && forall i | r < i < n :: !IsLeakCommand(es[i])
  }

  predicate IsLeakCommand(e: Event) {
    e.Receive? && e.input.LeakCommand?
  }

  lemma DeliverLeak(w: World, i: Input)
    ensures Deliver(w, i).m.leak == if i.LeakCommand? then i.leak else w.m.leak
  {
  }

  lemma StepLeak(w: World, e: Event)
    ensures Step(w, e).m.leak == if IsLeakCommand(e) then e.input.leak else w.m.leak
  {
    InputsMoveMission(w, e);
    if e.Receive? { DeliverLeak(w, e.input); }
  }

  lemma LeakExtends(es: seq<Event>, p: nat)
    requires p < |es|
    ensures LeakReported(es, p + 1) <==> if IsLeakCommand(es[p]) then es[p].input.leak else LeakReported(es, p)
  {
    if IsLeakCommand(es[p]) {
      if es[p].input.leak { assert es[p] == Receive(LeakCommand(true)); }
    } else if LeakReported(es, p) {
      var r: nat :| r < p && es[r] == Receive(LeakCommand(true)) && forall i | r < i < p :: !IsLeakCommand(es[i]);
      assert forall i | r < i < p + 1 :: !IsLeakCommand(es[i]);
    }
  }

  /** The leak that the failsafe polls look at is what the newest leak command said. */
  lemma {:induction false} LeakIsNewest(t: nat, tr: seq<World>, es: seq<Event>, n: nat)
    requires FromBoot(t, tr, es) && n <= |es|
    ensures tr[n].m.leak <==> LeakReported(es, n)
    decreases n
  {
    if n > 0 {
      LeakIsNewest(t, tr, es, n - 1);
      StepLeak(tr[n - 1], es[n - 1]);
      LeakExtends(es, n - 1);
    }
  }
}
