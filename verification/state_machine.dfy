/** Mission state and the surface-power handshake: src/modules/state_machine.cpp. */
module StateMachine {
  import opened Common
  import opened Clock
  import opened MissionData
  import opened RelayController

  datatype SystemState = PreDive | Diving | Recovery
  datatype Failsafe = NoFailsafe | LowVoltage | LeakFound | NoHeartbeat
  datatype Stage = Idle | AwaitingAck | Acked | PayloadOff

  const DIVE_HEARTBEAT_GRACE_MS: u32 := 90000
  const CRITICAL_VOLTAGE_HOLD_MS: u32 := 10000
  const FAILSAFE_HEARTBEAT_TIMEOUT_MS: u32 := 120000
  const SURFACE_LOGGING_DWELL_MS: u32 := 180000
  const POWER_SHUTDOWN_FINAL_GRACE_MS: u32 := 30000
  const SURFACE_QUALIFY_MS: u32 := 30000
  const BATTERY_CRITICAL_VOLTAGE: real := 11.0
  const RECOVERY_DEPTH_THRESHOLD_M: real := 1.5
  const SURFACE_DEPTH_LIVENESS_M: real := 0.02

  /** Depths seen since the backstop window opened. */
  datatype Window = Window(start: u32, min: real, max: real, active: bool)

  const NO_WINDOW: Window := Window(0, 0.0, 0.0, false)

  /** Progress of the surface-power handshake. */
  datatype Handshake = Handshake(
    qualified: bool, requested: bool, acknowledged: bool,
    ackTime: u32, dwellStart: u32, dwellActive: bool)

  const NO_HANDSHAKE: Handshake := Handshake(false, false, false, 0, 0, false)

  /** `StateMachineStatus`, the file statics and the commanded relay state. */
  datatype Machine = Machine(
    current: SystemState, previous: SystemState, entryTime: u32, timeInState: u32,
    failsafe: Failsafe, powered: bool, relay: bool, hs: Handshake,
    criticalStart: u32, criticalActive: bool, window: Window)

  function Booted(now: u32): Machine {
    Machine(PreDive, PreDive, now, 0, NoFailsafe, true, true, NO_HANDSHAKE, 0, false, NO_WINDOW)
  }

  function Enter(s: Machine, next: SystemState, now: u32): Machine {
    if next == s.current then s
    else
      s.(previous := s.current, current := next, entryTime := now, timeInState := 0,
         powered := true, relay := true,
         hs := if next.Recovery? then s.hs else NO_HANDSHAKE)
  }

  function EnterDiving(s: Machine, now: u32): Machine {
    if s.current.PreDive? then Enter(s, Diving, now) else s
  }

  function Reset(s: Machine, now: u32): Machine {
    Enter(s.(failsafe := NoFailsafe), PreDive, now)
  }

  function TriggerFailsafe(s: Machine, source: Failsafe, now: u32): Machine {
    if s.current.Diving? then Enter(s.(failsafe := source), Recovery, now) else s
  }

  /** The autopilot reports a live and critically low battery. */
  predicate CriticalVoltage(m: Mission, now: u32) {
    m.VoltageFresh(now) && 0.0 < m.voltage <= BATTERY_CRITICAL_VOLTAGE
  }

  /** Failsafe checks apply in a dive, once the grace after entry has run out. */
  predicate FailsafeArmed(s: Machine, now: u32) {
    s.current.Diving? && Since(now, s.entryTime) >= DIVE_HEARTBEAT_GRACE_MS
  }

  function HeartbeatCheck(s: Machine, m: Mission, now: u32): Machine {
    if m.heartbeatValid && Since(now, m.heartbeatMs) >= FAILSAFE_HEARTBEAT_TIMEOUT_MS
    then TriggerFailsafe(s, NoHeartbeat, now)
    else s
  }

  function Update(s: Machine, m: Mission, now: u32): Machine {
    var s := s.(timeInState := Since(now, s.entryTime));
    if !FailsafeArmed(s, now) then s.(criticalActive := false)
    else if m.leak then TriggerFailsafe(s, LeakFound, now)
    else if CriticalVoltage(m, now) then
      var s := if s.criticalActive then s else s.(criticalStart := now, criticalActive := true);
      if Since(now, s.criticalStart) >= CRITICAL_VOLTAGE_HOLD_MS
      then TriggerFailsafe(s, LowVoltage, now)
      else HeartbeatCheck(s, m, now)
    else HeartbeatCheck(s.(criticalActive := false), m, now)
  }

  /** The one observation that starts the surface dwell. */
  predicate Authorized(s: Machine, m: Mission, now: u32) {
    s.current.Recovery? && s.previous.Diving? && m.DorisFresh(now) && m.doris == 4
  }

  function UpdateSurfacePower(s: Machine, m: Mission, now: u32): Machine {
    var h := s.hs;
    if h.acknowledged then
      if Since(now, h.ackTime) >= POWER_SHUTDOWN_FINAL_GRACE_MS
      then s.(powered := false, relay := false)
      else s
    else if !h.dwellActive && !Authorized(s, m, now) then
      s.(hs := h.(qualified := false, requested := false))
    else
      var h := if h.dwellActive then h else h.(qualified := true, dwellStart := now, dwellActive := true);
      s.(hs := h.(requested := Since(now, h.dwellStart) >= SURFACE_LOGGING_DWELL_MS))
  }

  /** Ascending on a live channel that reads shallow. */
  predicate BackstopSees(s: Machine, m: Mission, now: u32) {
    && s.current.Diving? && m.doris >= 3
    && m.DepthFresh(now) && m.depth < RECOVERY_DEPTH_THRESHOLD_M
  }

  function Observe(w: Window, depth: real, now: u32): Window {
    if !w.active then Window(now, depth, depth, true)
    else w.(min := if depth < w.min then depth else w.min,
            max := if depth > w.max then depth else w.max)
  }

  predicate WindowQualified(w: Window, now: u32) {
    w.max - w.min >= SURFACE_DEPTH_LIVENESS_M && Since(now, w.start) >= SURFACE_QUALIFY_MS
  }

  function UpdateSurfaceBackstop(s: Machine, m: Mission, now: u32): Machine {
    if !BackstopSees(s, m, now) then s.(window := NO_WINDOW)
    else
      var w := Observe(s.window, m.depth, now);
      if WindowQualified(w, now) then Enter(s.(window := NO_WINDOW), Recovery, now)
      else s.(window := w)
  }

  function Acknowledge(s: Machine, now: u32): Machine {
    if s.hs.requested && s.hs.qualified && !s.hs.acknowledged
    then s.(hs := s.hs.(acknowledged := true, ackTime := now))
    else s
  }

  function StageOf(s: Machine): Stage {
    if !s.powered then PayloadOff
    else if s.hs.acknowledged then Acked
    else if s.hs.requested then AwaitingAck
    else Idle
  }

  predicate CanTransmit(s: Machine) {
    s.current.Recovery? && !s.powered
  }

  class Controller {
    var current: SystemState
    var previous: SystemState
    var entryTime: u32
    var timeInState: u32
    var failsafe: Failsafe
    var nonessentialsPowered: bool
    var surfaceQualified: bool
    var shutdownRequested: bool
    var shutdownAcknowledged: bool
    var shutdownAckTime: u32
    var surfaceDwellStart: u32
    var surfaceDwellActive: bool
    var criticalVoltageStart: u32
    var criticalVoltageTimingActive: bool
    var backstopWindow: Window
    const relay: NcRelay

    function View(): Machine
      reads this, relay
    {
      Machine(current, previous, entryTime, timeInState, failsafe, nonessentialsPowered, relay.state,
              Handshake(surfaceQualified, shutdownRequested, shutdownAcknowledged,
                        shutdownAckTime, surfaceDwellStart, surfaceDwellActive),
              criticalVoltageStart, criticalVoltageTimingActive, backstopWindow)
    }

    predicate Valid()
      reads this, relay
    {
      relay.Valid()
    }

    constructor (now: u32)
      ensures Valid() && fresh(relay) && View() == Booted(now)
    {
      relay := new NcRelay();
      current := PreDive;
      previous := PreDive;
      entryTime := now;
      timeInState := 0;
      failsafe := NoFailsafe;
      nonessentialsPowered := true;
      surfaceQualified := false;
      shutdownRequested := false;
      shutdownAcknowledged := false;
      shutdownAckTime := 0;
      surfaceDwellStart := 0;
      surfaceDwellActive := false;
      criticalVoltageStart := 0;
      criticalVoltageTimingActive := false;
      backstopWindow := NO_WINDOW;
      new;
      relay.SetPowerManagement(true);
    }

    method EnterState(next: SystemState, now: u32)
      requires Valid()
      modifies this, relay
      ensures Valid() && View() == Enter(old(View()), next, now)
    {
      if next == current { return; }
      previous := current;
      current := next;
      entryTime := now;
      timeInState := 0;
      nonessentialsPowered := true;
      if next != Recovery { ClearHandshake(); }
      relay.SetPowerManagement(true);
    }

    method ClearHandshake()
      modifies this
      ensures View() == old(View()).(hs := NO_HANDSHAKE)
    {
      surfaceQualified := false;
      shutdownRequested := false;
      shutdownAcknowledged := false;
      shutdownAckTime := 0;
      surfaceDwellStart := 0;
      surfaceDwellActive := false;
    }

    method EnterDivingState(now: u32)
      requires Valid()
      modifies this, relay
      ensures Valid() && View() == EnterDiving(old(View()), now)
    {
      if current != PreDive { return; }
      EnterState(Diving, now);
    }

    method EnterRecoveryState(now: u32)
      requires Valid()
      modifies this, relay
      ensures Valid() && View() == Enter(old(View()), Recovery, now)
    {
      EnterState(Recovery, now);
    }

    method ResetState(now: u32)
      requires Valid()
      modifies this, relay
      ensures Valid() && View() == Reset(old(View()), now)
    {
      failsafe := NoFailsafe;
      EnterState(PreDive, now);
    }

    method TriggerFailsafeSource(source: Failsafe, now: u32)
      requires Valid()
      modifies this, relay
      ensures Valid() && View() == TriggerFailsafe(old(View()), source, now)
    {
      if current != Diving { return; }
      failsafe := source;
      if current == Diving { EnterState(Recovery, now); }
    }

    method UpdateFailsafes(m: Mission, now: u32)
      requires Valid()
      modifies this, relay
      ensures Valid() && View() == Update(old(View()), m, now)
    {
      timeInState := Since(now, entryTime);
      if current != Diving || timeInState < DIVE_HEARTBEAT_GRACE_MS {
        criticalVoltageTimingActive := false;
        return;
      }
      if m.leak {
        TriggerFailsafeSource(LeakFound, now);
        return;
      }
      var criticalVoltage := m.VoltageFresh(now) && m.voltage > 0.0 && m.voltage <= BATTERY_CRITICAL_VOLTAGE;
      if criticalVoltage {
        if !criticalVoltageTimingActive {
          criticalVoltageStart := now;
          criticalVoltageTimingActive := true;
        }
        if Since(now, criticalVoltageStart) >= CRITICAL_VOLTAGE_HOLD_MS {
          TriggerFailsafeSource(LowVoltage, now);
          return;
        }
      } else {
        criticalVoltageTimingActive := false;
      }
      if m.heartbeatValid && Since(now, m.heartbeatMs) >= FAILSAFE_HEARTBEAT_TIMEOUT_MS {
        TriggerFailsafeSource(NoHeartbeat, now);
      }
    }

    method PollSurfacePower(m: Mission, now: u32)
      requires Valid()
      modifies this, relay
      ensures Valid() && View() == UpdateSurfacePower(old(View()), m, now)
    {
      if shutdownAcknowledged {
        if Since(now, shutdownAckTime) >= POWER_SHUTDOWN_FINAL_GRACE_MS {
          relay.SetPowerManagement(false);
          nonessentialsPowered := false;
        }
        return;
      }
      if !surfaceDwellActive {
        var authorized := current == Recovery && previous == Diving && m.DorisFresh(now) && m.doris == 4;
        if !authorized {
          surfaceQualified := false;
          shutdownRequested := false;
          return;
        }
        surfaceQualified := true;
        surfaceDwellStart := now;
        surfaceDwellActive := true;
      }
      shutdownRequested := Since(now, surfaceDwellStart) >= SURFACE_LOGGING_DWELL_MS;
    }

    method DepthWindowQualified(depth: real, now: u32) returns (qualified: bool)
      modifies this`backstopWindow
      ensures View() == old(View()).(window := Observe(old(backstopWindow), depth, now))
      ensures qualified == WindowQualified(backstopWindow, now)
    {
      if !backstopWindow.active {
        backstopWindow := Window(now, depth, depth, true);
      } else {
        if depth < backstopWindow.min { backstopWindow := backstopWindow.(min := depth); }
        if depth > backstopWindow.max { backstopWindow := backstopWindow.(max := depth); }
      }
      qualified := backstopWindow.max - backstopWindow.min >= SURFACE_DEPTH_LIVENESS_M &&
                   Since(now, backstopWindow.start) >= SURFACE_QUALIFY_MS;
    }

    method PollSurfaceBackstop(m: Mission, now: u32) returns (entered: bool)
      requires Valid()
      modifies this, relay
      ensures Valid() && View() == UpdateSurfaceBackstop(old(View()), m, now)
      ensures entered == (old(current).Diving? && current.Recovery?)
    {
      var ascending := current == Diving && m.doris >= 3;
      var shallow := m.DepthFresh(now) && m.depthValid && m.depth < RECOVERY_DEPTH_THRESHOLD_M;
      if !ascending || !shallow {
        backstopWindow := NO_WINDOW;
        return false;
      }
      var qualified := DepthWindowQualified(m.depth, now);
      if !qualified { return false; }
      backstopWindow := NO_WINDOW;
      EnterState(Recovery, now);
      return true;
    }

    method AcknowledgeShutdown(now: u32) returns (accepted: bool)
      modifies this
      ensures View() == Acknowledge(old(View()), now)
      ensures accepted == (old(shutdownRequested) && old(surfaceQualified))
    {
      if !shutdownRequested || !surfaceQualified { return false; }
      if shutdownAcknowledged { return true; }
      shutdownAcknowledged := true;
      shutdownAckTime := now;
      return true;
    }
  }
}
