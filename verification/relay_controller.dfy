/** The two payload-power drivers of src/modules/relay_controller.cpp. */
module RelayController {
  import opened PinWrites

  /** Default build: one pin holds the coil of a relay wired through its normally-closed contact. */
  class NcRelay {
    var state: bool     // powerMgmtState
    var pin: bool       // level of RELAY_POWER_MGMT

    const COIL_ACTIVE_HIGH: bool := true
    const NORMALLY_CLOSED: bool := true

    /** The coil energizes on the active level. */
    predicate CoilOn()
      reads this
    {
      pin == COIL_ACTIVE_HIGH
    }

    /** The contact carries payload current exactly when an idle coil leaves it closed. */
    predicate Conducts()
      reads this
    {
      if NORMALLY_CLOSED then !CoilOn() else CoilOn()
    }

    predicate Valid()
      reads this
    {
      state == Conducts()
    }

    constructor ()
      ensures Valid() && state && !pin
    {
      pin := false;
      state := false;
      new;
      DriveRelay(NORMALLY_CLOSED, true);
      state := true;
    }

    method DriveRelay(nc: bool, conduct: bool)
      modifies this`pin
      ensures pin == (COIL_ACTIVE_HIGH == (if nc then !conduct else conduct))
    {
      var coilOn: bool;
      if nc {
        coilOn := !conduct;
      } else {
        coilOn := conduct;
      }
      pin := COIL_ACTIVE_HIGH == coilOn;
    }

    method SetPowerManagement(on: bool)
      modifies this
      ensures Valid() && state == on && Conducts() == on
    {
      state := on;
      DriveRelay(NORMALLY_CLOSED, on);
    }
  }

  /** One write to a Pololu input pin. */
  datatype Write = Write(onPin: bool, high: bool)

  /** Pololu 2813: the level of its two inputs and the latch they drive. */
  datatype Pololu = Pololu(on: bool, off: bool, latch: bool)

  /** A rising edge on an input sets or clears the latch. */
  function Apply(p: Pololu, w: Write): Pololu {
    if w.onPin then p.(on := w.high, latch := p.latch || (w.high && !p.on))
    else p.(off := w.high, latch := p.latch && !(w.high && !p.off))
  }

  predicate NotBothHigh(p: Pololu) {
    !(p.on && p.off)
  }

  /** The two inputs are never high together at any moment of a run of writes. */
  predicate NeverBothHigh(p: Pololu, ws: seq<Write>) {
    Throughout(Apply, NotBothHigh, p, ws)
  }

  /** The pulse for one logical change. */
  function Pulse(on: bool): seq<Write> {
    [Write(on, true), Write(on, false)]
  }

  /** What a boot writes: both inputs low, then one ON pulse. */
  const BOOT_WRITES: seq<Write> := [Write(true, false), Write(false, false)] + Pulse(true)

  /** What `setPowerManagement` writes when the last commanded state was `state`. */
  function PulsesFor(state: bool, request: bool): seq<Write> {
    if request == state then [] else Pulse(request)
  }

  /** All writes of a run of requests. */
  function AllPulses(state: bool, requests: seq<bool>): seq<Write>
    decreases |requests|
  {
    if requests == [] then []
    else PulsesFor(state, requests[0]) + AllPulses(requests[0], requests[1..])
  }

  /** How often the requested state differs from the one before it. */
  function Changes(state: bool, requests: seq<bool>): nat
    decreases |requests|
  {
    if requests == [] then 0
    else (if requests[0] != state then 1 else 0) + Changes(requests[0], requests[1..])
  }

  function Last(state: bool, requests: seq<bool>): bool {
    if requests == [] then state else requests[|requests| - 1]
  }

  lemma PulseEffect(p: Pololu, on: bool)
    requires !p.on && !p.off
    ensures Replay(Apply, p, Pulse(on)) == Pololu(false, false, on)
    ensures NeverBothHigh(p, Pulse(on))
  {
    Two(Apply, NotBothHigh, p, Pulse(on));
  }

  /** Over any run of requests the latch follows the last one, both inputs rest low and are
      never high together, and there is one pulse per logical change. */
  lemma {:induction false} PololuFollowsRequests(p: Pololu, requests: seq<bool>)
    requires !p.on && !p.off
    ensures Replay(Apply, p, AllPulses(p.latch, requests)) == Pololu(false, false, Last(p.latch, requests))
    ensures NeverBothHigh(p, AllPulses(p.latch, requests))
    ensures |AllPulses(p.latch, requests)| == 2 * Changes(p.latch, requests)
    decreases |requests|
  {
    if requests != [] {
      var first, rest := PulsesFor(p.latch, requests[0]), requests[1..];
      if requests[0] != p.latch { PulseEffect(p, requests[0]); }
      var q := Pololu(false, false, requests[0]);
      assert Replay(Apply, p, first) == q;
      assert NeverBothHigh(p, first);
      PololuFollowsRequests(q, rest);
      ReplayAppend(Apply, NotBothHigh, p, first, AllPulses(requests[0], rest));
    }
  }

  class PololuDriver {
    var state: bool                 // powerMgmtState
    var onPin: bool
    var offPin: bool
    ghost var writes: seq<Write>    // everything written since boot
    ghost var atBoot: Pololu        // the switch as the boot found it

    ghost predicate Valid()
      reads this
    {
      && !atBoot.on && !atBoot.off
      && Replay(Apply, atBoot, writes) == Pololu(onPin, offPin, state)
      && NeverBothHigh(atBoot, writes)
      && !onPin && !offPin
    }

    method DigitalWrite(on: bool, high: bool)
      modifies this
      ensures writes == old(writes) + [Write(on, high)]
      ensures onPin == (if on then high else old(onPin))
      ensures offPin == (if on then old(offPin) else high)
      ensures state == old(state) && atBoot == old(atBoot)
    {
      if on { onPin := high; } else { offPin := high; }
      writes := writes + [Write(on, high)];
    }

    method PulseHigh(on: bool)
      modifies this
      ensures writes == old(writes) + Pulse(on)
      ensures onPin == (if on then false else old(onPin))
      ensures offPin == (if on then old(offPin) else false)
      ensures state == old(state) && atBoot == old(atBoot)
    {
      DigitalWrite(on, true);
      DigitalWrite(on, false);
      assert writes == old(writes) + Pulse(on);
    }

    /** Boot pulses ON exactly once and never OFF, whatever the switch was doing. */
    constructor (ghost latch: bool)
      ensures Valid() && state
      ensures atBoot == Pololu(false, false, latch)
      ensures writes == BOOT_WRITES
    {
      onPin, offPin, state := false, false, false;
      writes := [];
      atBoot := Pololu(false, false, latch);
      new;
      DigitalWrite(true, false);
      DigitalWrite(false, false);
      ghost var idle := writes;
      Two(Apply, NotBothHigh, atBoot, idle);
      assert Replay(Apply, atBoot, idle) == atBoot;
      state := true;
      PulseHigh(true);
      PulseEffect(atBoot, true);
      ReplayAppend(Apply, NotBothHigh, atBoot, idle, Pulse(true));
    }

    method SetPowerManagement(on: bool)
      requires Valid()
      modifies this
      ensures Valid() && state == on && atBoot == old(atBoot)
      ensures writes == old(writes) + PulsesFor(old(state), on)
    {
      if on == state {
        assert writes == old(writes) + [];
        return;
      }
      ghost var before := Replay(Apply, atBoot, writes);
      state := on;
      if on { PulseHigh(true); } else { PulseHigh(false); }
      PulseEffect(before, on);
      ReplayAppend(Apply, NotBothHigh, atBoot, old(writes), Pulse(on));
    }
  }

  lemma {:induction false} RequestsAppend(state: bool, requests: seq<bool>, next: bool)
    ensures AllPulses(state, requests + [next]) ==
              AllPulses(state, requests) + PulsesFor(Last(state, requests), next)
    decreases |requests|
  {
    var all := requests + [next];
    if requests == [] {
      assert all[1..] == [];
      assert PulsesFor(state, next) + [] == [] + PulsesFor(state, next);
    } else {
      var first, rest := PulsesFor(state, requests[0]), requests[1..];
      assert all[1..] == rest + [next];
      RequestsAppend(requests[0], rest, next);
      assert Last(requests[0], rest) == Last(state, requests);
      assert first + (AllPulses(requests[0], rest) + PulsesFor(Last(state, requests), next))
          == first + AllPulses(requests[0], rest) + PulsesFor(Last(state, requests), next);
    }
  }

  lemma Regroup(a: seq<Write>, b: seq<Write>, c: seq<Write>)
    ensures a + b + c == a + (b + c)
  {
  }

  /** Both drivers are the same switch: after any requests the relay conducts, and the Pololu is
      latched on, exactly as the last one asked; the Pololu saw nothing but its boot and one pulse
      per change. */
  method DriveBoth(requests: seq<bool>, ghost latch: bool) returns (nc: NcRelay, pololu: PololuDriver)
    ensures nc.Valid() && nc.Conducts() == Last(true, requests)
    ensures pololu.Valid() && Replay(Apply, pololu.atBoot, pololu.writes).latch == Last(true, requests)
    ensures pololu.atBoot.latch == latch
    ensures pololu.writes == BOOT_WRITES + AllPulses(true, requests)
  {
    nc := new NcRelay();
    pololu := new PololuDriver(latch);
    assert BOOT_WRITES + [] == BOOT_WRITES;
    for i := 0 to |requests|
      invariant fresh(nc) && fresh(pololu) && nc.Valid() && pololu.Valid()
      invariant nc.state == pololu.state == Last(true, requests[..i])
      invariant pololu.atBoot == Pololu(false, false, latch)
      invariant pololu.writes == BOOT_WRITES + AllPulses(true, requests[..i])
    {
      ghost var so := requests[..i];
      assert requests[..i + 1] == so + [requests[i]];
      RequestsAppend(true, so, requests[i]);
      nc.SetPowerManagement(requests[i]);
      pololu.SetPowerManagement(requests[i]);
      Regroup(BOOT_WRITES, AllPulses(true, so), PulsesFor(Last(true, so), requests[i]));
    }
    assert requests[..|requests|] == requests;
  }
}
