/** What the mission statistics mean over every run: src/modules/mission_data.cpp. */
module MissionStatistics {
  import opened Common
  import opened MissionData
  import opened MainLoop
  import opened Reports

  /** The report that ends a mission: CONFIG or MISSION_START after an active state. */
  predicate EndsMission(w: World, e: Event) {
    StateOf(e).Some? && StateOf(e).value <= 0 && w.m.dorisValid && w.m.doris > 0
  }

  /** How one event can move the statistics. */
  ghost predicate StatsMove(w: World, v: World, e: Event) {
    v.m.stats ==
      if EndsMission(w, e) then NO_STATISTICS
      else match (DepthOf(e), TemperatureOf(e))
           case (Some(d), _) => w.m.stats.(maxDepth := if d > w.m.stats.maxDepth then d else w.m.stats.maxDepth)
           case (None, Some(t)) =>
             w.m.stats.(temperatureValid := true,
                        minTemperature := if w.m.stats.temperatureValid && w.m.stats.minTemperature <= t
                                          then w.m.stats.minTemperature else t)
           case _ => w.m.stats
  }

  lemma StepStats(w: World, e: Event)
    ensures StatsMove(w, Step(w, e), e)
  {
  }

  ghost predicate StatsMoves(tr: seq<World>, es: seq<Event>) {
    |tr| == |es| + 1 && forall i | 0 <= i < |es| :: StatsMove(tr[i], tr[i + 1], es[i])
  }

  /** The mission current at `n` began with event `r`, or at boot when `r` is zero. */
  ghost predicate MissionSince(tr: seq<World>, es: seq<Event>, n: nat, r: nat) {
    && r <= n <= |es| < |tr|
    && (r > 0 ==> EndsMission(tr[r - 1], es[r - 1]))
    && forall i | r <= i < n :: !EndsMission(tr[i], es[i])
  }

  /** The maximum is the greatest depth reported since, or zero; the minimum is the least
      plausible temperature reported since, and is valid exactly when there was one. */
  ghost predicate Extremes(es: seq<Event>, n: nat, r: nat, s: Statistics)
    requires r <= n <= |es|
  {
    && s.maxDepth >= 0.0
    && (forall i | r <= i < n && DepthOf(es[i]).Some? :: DepthOf(es[i]).value <= s.maxDepth)
    && (s.maxDepth == 0.0 || exists i :: r <= i < n && DepthOf(es[i]) == Some(s.maxDepth))
    && (forall i | r <= i < n && TemperatureOf(es[i]).Some? ::
          s.temperatureValid && s.minTemperature <= TemperatureOf(es[i]).value)
    && (s.temperatureValid ==> exists i :: r <= i < n && TemperatureOf(es[i]) == Some(s.minTemperature))
  }

  lemma ExtremesExtend(es: seq<Event>, p: nat, r: nat, s: Statistics, v: Statistics)
    requires r <= p < |es| && Extremes(es, p, r, s)
    requires v == match (DepthOf(es[p]), TemperatureOf(es[p]))
      case (Some(d), _) => s.(maxDepth := if d > s.maxDepth then d else s.maxDepth)
      case (None, Some(t)) =>
        s.(temperatureValid := true,
           minTemperature := if s.temperatureValid && s.minTemperature <= t then s.minTemperature else t)
      case _ => s
    ensures Extremes(es, p + 1, r, v)
  {
  }

  lemma {:induction false} StatsSinceMission(tr: seq<World>, es: seq<Event>, n: nat) returns (r: nat)
    requires StatsMoves(tr, es) && n <= |es| && tr[0].m.stats == NO_STATISTICS
    ensures MissionSince(tr, es, n, r) && Extremes(es, n, r, tr[n].m.stats)
    decreases n
  {
    if n == 0 { return 0; }
    var p := n - 1;
    r := StatsSinceMission(tr, es, p);
    assert StatsMove(tr[p], tr[n], es[p]);
    if EndsMission(tr[p], es[p]) {
      r := n;
    } else {
      ExtremesExtend(es, p, r, tr[p].m.stats, tr[n].m.stats);
    }
  }

  /** At every moment the statistics are the extremes of the current mission's reports. */
  lemma StatisticsAreMissionExtremes(t: nat, tr: seq<World>, es: seq<Event>, n: nat)
    requires FromBoot(t, tr, es) && n <= |es|
    ensures exists r: nat :: MissionSince(tr, es, n, r) && Extremes(es, n, r, tr[n].m.stats)
  {
    forall i | 0 <= i < |es| ensures StatsMove(tr[i], tr[i + 1], es[i]) {
      StepStats(tr[i], es[i]);
    }
    var r := StatsSinceMission(tr, es, n);
  }
}
