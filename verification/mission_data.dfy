/** What the vehicle last reported, as kept by src/modules/mission_data.cpp. */
module MissionData {
  import opened Common
  import opened Clock

  const MISSION_DATA_FRESHNESS_MS: u32 := 3000

  /** Extremes of the current mission. */
  datatype Statistics = Statistics(maxDepth: real, minTemperature: real, temperatureValid: bool)

  const NO_STATISTICS: Statistics := Statistics(0.0, 0.0, false)

  datatype Mission = Mission(
    depth: real, depthValid: bool, depthMs: u32, stats: Statistics,
    voltage: real, voltageFromAutopilot: bool, voltageMs: u32,
    leak: bool,
    heartbeatMs: u32, heartbeatValid: bool,
    doris: int, dorisMs: u32, dorisValid: bool)
  {
    predicate DepthFresh(now: u32) {
      depthValid && Since(now, depthMs) <= MISSION_DATA_FRESHNESS_MS
    }

    predicate DorisFresh(now: u32) {
      dorisValid && Since(now, dorisMs) <= MISSION_DATA_FRESHNESS_MS
    }

    predicate VoltageFresh(now: u32) {
      voltageFromAutopilot && Since(now, voltageMs) <= MISSION_DATA_FRESHNESS_MS
    }
  }

  const EMPTY: Mission :=
    Mission(0.0, false, 0, NO_STATISTICS, 0.0, false, 0, false, 0, false, -1, 0, false)

  function WithDepth(m: Mission, depth: Float, now: u32): Mission {
    match depth
    case NonFinite => m
    case Finite(d) =>
      var d := if d < 0.0 then 0.0 else d;
      m.(depth := d, depthValid := true, depthMs := now,
         stats := m.stats.(maxDepth := if d > m.stats.maxDepth then d else m.stats.maxDepth))
  }

  function WithMinimumTemperature(m: Mission, temperature: Float): Mission {
    if temperature.NonFinite? || temperature.value < -100.0 || temperature.value > 100.0 then m
    else
      var t := temperature.value;
      var coldest := !m.stats.temperatureValid || t < m.stats.minTemperature;
      m.(stats := m.stats.(minTemperature := if coldest then t else m.stats.minTemperature,
                           temperatureValid := true))
  }

  function WithVoltage(m: Mission, v: Float, now: u32): Mission {
    if v.NonFinite? || v.value <= 0.0 then m
    else m.(voltage := v.value, voltageFromAutopilot := true, voltageMs := now)
  }

  function WithHeartbeat(m: Mission, now: u32): Mission {
    m.(heartbeatMs := now, heartbeatValid := true)
  }

  /** A report of CONFIG or MISSION_START after a mission state ends that mission's statistics. */
  function WithDorisState(m: Mission, state: int, now: u32): Mission {
    var ended := state <= 0 && m.dorisValid && m.doris > 0;
    m.(doris := state, dorisMs := now, dorisValid := true,
       stats := if ended then NO_STATISTICS else m.stats)
  }

  class MissionStore {
    var data: Mission

    constructor ()
      ensures data == EMPTY
    {
      data := EMPTY;
    }

    method UpdateDepth(depth: Float, now: u32)
      modifies this
      ensures data == WithDepth(old(data), depth, now)
    {
      if depth.NonFinite? { return; }
      var d := depth.value;
      if d < 0.0 { d := 0.0; }
      data := data.(depth := d, depthValid := true, depthMs := now);
      if d > data.stats.maxDepth {
        data := data.(stats := data.stats.(maxDepth := d));
      }
    }

    method UpdateMinimumTemperature(temperature: Float)
      modifies this
      ensures data == WithMinimumTemperature(old(data), temperature)
    {
      if temperature.NonFinite? || temperature.value < -100.0 || temperature.value > 100.0 { return; }
      var t := temperature.value;
      if !data.stats.temperatureValid || t < data.stats.minTemperature {
        data := data.(stats := data.stats.(minTemperature := t));
      }
      data := data.(stats := data.stats.(temperatureValid := true));
    }

    method UpdateAutopilotVoltage(v: Float, now: u32)
      modifies this
      ensures data == WithVoltage(old(data), v, now)
    {
      if v.NonFinite? || v.value <= 0.0 { return; }
      data := data.(voltage := v.value, voltageFromAutopilot := true, voltageMs := now);
    }

    method UpdateHeartbeat(now: u32)
      modifies this
      ensures data == WithHeartbeat(old(data), now)
    {
      data := data.(heartbeatMs := now, heartbeatValid := true);
    }

    method SetLeak(leak: bool)
      modifies this
      ensures data == old(data).(leak := leak)
    {
      data := data.(leak := leak);
    }

    method UpdateDorisState(state: int, now: u32)
      modifies this
      ensures data == WithDorisState(old(data), state, now)
    {
      var completedMissionReset := state <= 0 && data.dorisValid && data.doris > 0;
      if completedMissionReset {
        data := data.(stats := Statistics(0.0, 0.0, false));
      }
      data := data.(doris := state, dorisMs := now, dorisValid := true);
    }
  }
}
