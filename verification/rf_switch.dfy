/** The shared antenna and the modem's power: src/modules/iridium_manager.cpp. */
module RfSwitch {
  import opened Clock
  import opened PinWrites

  /** Levels of the four output pins. GNSS_EN is active low. */
  datatype Pins = Pins(gnssEn: bool, iridiumPwr: bool, iridiumSleep: bool, supercapChg: bool)
  {
    predicate GnssOn() { !gnssEn }

    /** The modem can be talked to: power and charger on, GNSS off the antenna. */
    predicate Powered() { iridiumPwr && supercapChg && !GnssOn() }

    predicate ModemDown() { !iridiumPwr && !supercapChg }
  }

  /** The two radios behind the antenna switch must never be on together. */
  predicate Exclusive(p: Pins) {
    !(p.GnssOn() && p.iridiumPwr)
  }

  datatype Write = GnssEn(high: bool) | IridiumPwr(high: bool) | IridiumSleep(high: bool) | SupercapChg(high: bool)

  function Apply(p: Pins, w: Write): Pins {
    match w
    case GnssEn(h) => p.(gnssEn := h)
    case IridiumPwr(h) => p.(iridiumPwr := h)
    case IridiumSleep(h) => p.(iridiumSleep := h)
    case SupercapChg(h) => p.(supercapChg := h)
  }

  /** The radios exclude each other before, between and after all the writes. */
  predicate ExclusiveThroughout(p: Pins, ws: seq<Write>) {
    Throughout(Apply, Exclusive, p, ws)
  }

  // ---------------------------------------------------------------- sessions

  /** How far a session gets: refused before the antenna moves, or the supercaps time out, or
      the modem does not start, or it runs with whatever success. */
  datatype Outcome = Refused | ChargeTimeout | BeginFailed | Ran

  const TO_IRIDIUM: seq<Write> := [GnssEn(true)]
  const TO_GPS: seq<Write> := [GnssEn(false)]
  const OPENED: seq<Write> := TO_IRIDIUM + ChargeWrites(true) + [IridiumPwr(true)]
  const POWER_DOWN: seq<Write> := [IridiumSleep(false), IridiumPwr(false), SupercapChg(false)]

  function ChargeWrites(ok: bool): seq<Write> {
    [SupercapChg(true)] + if ok then [] else [SupercapChg(false)]
  }

  /** The pin writes of a session, in order. */
  function SessionWrites(o: Outcome): seq<Write> {
    match o
    case Refused => []
    case ChargeTimeout => TO_IRIDIUM + ChargeWrites(false) + TO_GPS
    case BeginFailed | Ran => OPENED + POWER_DOWN + TO_GPS
  }

  function AllWrites(os: seq<Outcome>): seq<Write> {
    if os == [] then [] else SessionWrites(os[0]) + AllWrites(os[1..])
  }

  /** One session from any pins with the modem off: exclusive at every moment, and if it moved
      the antenna it returns with modem and charger off and GNSS on. */
  lemma SessionIsExclusive(p: Pins, o: Outcome)
    requires !p.iridiumPwr
    ensures ExclusiveThroughout(p, SessionWrites(o))
    ensures o.Refused? ==> Replay(Apply, p, SessionWrites(o)) == p
    ensures !o.Refused? ==> Replay(Apply, p, SessionWrites(o)).ModemDown() && Replay(Apply, p, SessionWrites(o)).GnssOn()
  {
    match o
    case Refused =>
    case ChargeTimeout =>
      ReplayAppend(Apply, Exclusive, p, TO_IRIDIUM + ChargeWrites(false), TO_GPS);
      ReplayAppend(Apply, Exclusive, p, TO_IRIDIUM, ChargeWrites(false));
      Two(Apply, Exclusive, Replay(Apply, p, TO_IRIDIUM), ChargeWrites(false));
    case _ =>
      ReplayAppend(Apply, Exclusive, p, OPENED + POWER_DOWN, TO_GPS);
      ReplayAppend(Apply, Exclusive, p, OPENED, POWER_DOWN);
      ReplayAppend(Apply, Exclusive, p, TO_IRIDIUM + ChargeWrites(true), [IridiumPwr(true)]);
      ReplayAppend(Apply, Exclusive, p, TO_IRIDIUM, ChargeWrites(true));
      var q := Replay(Apply, p, OPENED);
      ReplayAppend(Apply, Exclusive, q, POWER_DOWN[..1], POWER_DOWN[1..]);
      Two(Apply, Exclusive, Replay(Apply, q, POWER_DOWN[..1]), POWER_DOWN[1..]);
      assert POWER_DOWN == POWER_DOWN[..1] + POWER_DOWN[1..];
  }

  /** The modem is powered, charged and alone on the antenna at some moment of a session exactly when the
      session gets as far as starting it; then it is so from the opening to the power-down. */
  lemma ModemPoweredExactly(p: Pins, o: Outcome)
    requires !p.iridiumPwr
    ensures (exists k: nat :: k <= |SessionWrites(o)| && Replay(Apply, p, SessionWrites(o)[..k]).Powered()) <==>
              o.BeginFailed? || o.Ran?
    ensures o.BeginFailed? || o.Ran? ==>
              && SessionWrites(o) == OPENED + POWER_DOWN + TO_GPS && Replay(Apply, p, OPENED).Powered()
              && !Replay(Apply, p, SessionWrites(o)).iridiumSleep
  {
    match o
    case Refused =>
      assert SessionWrites(o)[..0] == [];
    case ChargeTimeout =>
      NeverPowered(p, SessionWrites(o));
      forall k: nat | k <= |SessionWrites(o)| ensures !Replay(Apply, p, SessionWrites(o)[..k]).Powered() {
        NeverPowered(p, SessionWrites(o)[..k]);
      }
    case _ =>
      ReplayAppend(Apply, Exclusive, p, TO_IRIDIUM + ChargeWrites(true), [IridiumPwr(true)]);
      ReplayAppend(Apply, Exclusive, p, TO_IRIDIUM, ChargeWrites(true));
      assert SessionWrites(o)[..|OPENED|] == OPENED;
      SleepIsLow(p, o);
  }

  lemma SleepIsLow(p: Pins, o: Outcome)
    requires o.BeginFailed? || o.Ran?
    ensures !Replay(Apply, p, SessionWrites(o)).iridiumSleep
  {
    ReplayAppend(Apply, Exclusive, p, OPENED + POWER_DOWN, TO_GPS);
    ReplayAppend(Apply, Exclusive, p, OPENED, POWER_DOWN);
    var q := Replay(Apply, p, OPENED);
    ReplayAppend(Apply, Exclusive, q, POWER_DOWN[..1], POWER_DOWN[1..]);
    Two(Apply, Exclusive, Replay(Apply, q, POWER_DOWN[..1]), POWER_DOWN[1..]);
    assert POWER_DOWN == POWER_DOWN[..1] + POWER_DOWN[1..];
  }

  /** Without a write to its power pin a modem that is off stays off. */
  lemma {:induction false} NeverPowered(p: Pins, ws: seq<Write>)
    requires !p.iridiumPwr && forall i | 0 <= i < |ws| :: !ws[i].IridiumPwr?
    ensures !Replay(Apply, p, ws).iridiumPwr
    decreases |ws|
  {
    if ws != [] { NeverPowered(Apply(p, ws[0]), ws[1..]); }
  }

  /** Some session of the run moved the antenna. */
  predicate AnySession(os: seq<Outcome>) {
    os != [] && (!os[0].Refused? || AnySession(os[1..]))
  }

  /** Over any run of sessions with any failures GNSS and Iridium power are never on together,
      and once a session has moved the antenna every later idle moment has GNSS on and the
      modem and charger off. */
  lemma {:induction false} RunIsExclusive(p: Pins, os: seq<Outcome>)
    requires !p.iridiumPwr
    ensures ExclusiveThroughout(p, AllWrites(os)) && !Replay(Apply, p, AllWrites(os)).iridiumPwr
    ensures AnySession(os) ==> Replay(Apply, p, AllWrites(os)).GnssOn() && Replay(Apply, p, AllWrites(os)).ModemDown()
    decreases |os|
  {
    if os != [] {
      SessionIsExclusive(p, os[0]);
      RunIsExclusive(Replay(Apply, p, SessionWrites(os[0])), os[1..]);
      ReplayAppend(Apply, Exclusive, p, SessionWrites(os[0]), AllWrites(os[1..]));
      if !AnySession(os[1..]) { RefusalsWriteNothing(os[1..]); }
    }
  }

  lemma {:induction false} RefusalsWriteNothing(os: seq<Outcome>)
    requires !AnySession(os)
    ensures AllWrites(os) == []
    decreases |os|
  {
    if os != [] { RefusalsWriteNothing(os[1..]); }
  }

  // ---------------------------------------------------------------- the program

  const SUPERCAP_CHARGE_TIMEOUT_MS: nat := 120000
  const SUPERCAP_TOPUP_MS: nat := 10000
  /** What a wait of the charging loop may overrun by without the wrapped timeout test missing it. */
  const LONGEST_OVERRUN: nat := WRAP - SUPERCAP_CHARGE_TIMEOUT_MS - 100
  const MAX_IRIDIUM_RETRY: nat := 2

  /** What the hardware will answer in one session: the charger's PGOOD at each reading, whether the
      modem starts, and each exchange with it. */
  datatype Hardware = Hardware(pgood: nat -> bool, begins: bool, exchanges: nat -> bool)

  /** How far a session can get with that hardware. */
  ghost predicate Reaches(h: Hardware, o: Outcome) {
    match o
    case Refused => false
    case ChargeTimeout => !h.pgood(0)
    case BeginFailed => !h.begins
    case Ran => h.begins
  }

  class Radio {
    var pins: Pins
    var clock: nat
    var modemPresent: bool
    var modemConfigured: bool
    var modemReady: bool
    ghost const start: Pins
    ghost var writes: seq<Write>     // everything written since construction

    ghost predicate Recorded()
      reads this
    {
      pins == Replay(Apply, start, writes)
    }

    ghost predicate Valid()
      reads this
    {
      && Recorded()
      && ExclusiveThroughout(start, writes)
      && !pins.iridiumPwr
    }

    /** Pins as `setupPins` leaves them: both radios and the charger off. */
    constructor ()
      ensures Valid() && writes == [] && pins == Pins(true, false, false, false)
    {
      pins := Pins(true, false, false, false);
      start := Pins(true, false, false, false);
      clock := 0;
      modemPresent, modemConfigured, modemReady := false, false, false;
      writes := [];
    }

    method DigitalWrite(w: Write)
      modifies `pins, `writes
      ensures pins == Apply(old(pins), w) && writes == old(writes) + [w]
      ensures old(Recorded()) ==> Recorded()
    {
      ReplayAppend(Apply, Exclusive, start, writes, [w]);
      pins := Apply(pins, w);
      writes := writes + [w];
    }

    /** A wait lasts at least what was asked for; how much longer is up to the link it serves. */
    method ServiceDelay(ms: nat)
      modifies `clock
      ensures old(clock) + ms <= clock < old(clock) + ms + LONGEST_OVERRUN
    {
      var extra: nat := *;
      clock := clock + ms + extra % LONGEST_OVERRUN;
    }

    method AntennaToGps()
      modifies `pins, `writes, `clock
      ensures writes == old(writes) + TO_GPS && pins == Apply(old(pins), GnssEn(false)) && clock >= old(clock)
      ensures old(Recorded()) ==> Recorded()
    {
      DigitalWrite(GnssEn(false));
      ServiceDelay(750);
    }

    method AntennaToIridium()
      modifies `pins, `writes, `clock
      ensures writes == old(writes) + TO_IRIDIUM && pins == Apply(old(pins), GnssEn(true)) && clock >= old(clock)
      ensures old(Recorded()) ==> Recorded()
    {
      DigitalWrite(GnssEn(true));
      ServiceDelay(250);
    }

    method ModemPowerDown()
      modifies `pins, `writes
      ensures writes == old(writes) + POWER_DOWN
      ensures pins == old(pins).(iridiumSleep := false, iridiumPwr := false, supercapChg := false)
      ensures old(Recorded()) ==> Recorded()
    {
      DigitalWrite(IridiumSleep(false));
      DigitalWrite(IridiumPwr(false));
      DigitalWrite(SupercapChg(false));
    }

    /** Charging ends, whatever PGOOD reads and across counter rollover: well, at the first high
        reading and after the top-up, or by timeout when every reading was low. */
    method ChargeSupercaps(pgood: nat -> bool) returns (ok: bool, ghost taken: nat)
      modifies `pins, `writes, `clock
      ensures writes == old(writes) + ChargeWrites(ok) && pins == old(pins).(supercapChg := ok)
      ensures old(Recorded()) ==> Recorded()
      ensures taken > 0 && (forall i: nat | i < taken - 1 :: !pgood(i)) && ok == pgood(taken - 1)
      ensures !ok ==> !pgood(0)
      ensures !ok ==> clock - old(clock) >= 2000 + SUPERCAP_CHARGE_TIMEOUT_MS
      ensures ok ==> clock - old(clock) >= 2000 + SUPERCAP_TOPUP_MS
    {
      DigitalWrite(SupercapChg(true));
      ServiceDelay(2000);
      var startTime := clock;
      var pgoodReceived := false;
      var reading: nat := 0;
      assert Since(Millis(clock), Millis(startTime)) == 0;
      while !pgoodReceived && Since(Millis(clock), Millis(startTime)) < SUPERCAP_CHARGE_TIMEOUT_MS
        modifies `clock
        invariant startTime <= clock && (reading == 0 ==> clock == startTime)
        invariant forall i: nat | i < reading - 1 :: !pgood(i)
        invariant pgoodReceived == (reading > 0 && pgood(reading - 1))
        invariant clock - startTime < SUPERCAP_CHARGE_TIMEOUT_MS + 100 + LONGEST_OVERRUN
        decreases SUPERCAP_CHARGE_TIMEOUT_MS + 100 + LONGEST_OVERRUN - (clock - startTime)
      {
        SinceBound(startTime, clock);
        pgoodReceived := pgood(reading);
        reading := reading + 1;
        ServiceDelay(100);
      }
      SinceBound(startTime, clock);
      if !pgoodReceived {
        DigitalWrite(SupercapChg(false));
        assert writes == old(writes) + ([SupercapChg(true)] + [SupercapChg(false)]);
        return false, reading;
      }
      var topupStart := clock;
      while Since(Millis(clock), Millis(topupStart)) < SUPERCAP_TOPUP_MS
        modifies `clock
        invariant topupStart <= clock
        invariant clock - topupStart < SUPERCAP_TOPUP_MS + 100 + LONGEST_OVERRUN
        decreases SUPERCAP_TOPUP_MS + 100 + LONGEST_OVERRUN - (clock - topupStart)
      {
        SinceBound(topupStart, clock);
        ServiceDelay(100);
      }
      SinceBound(topupStart, clock);
      assert writes == old(writes) + ([SupercapChg(true)] + []);
      return true, reading;
    }

    /** The opening every session shares: antenna, charge, power, start. Unless it gets all the
        way, the pins are back as a session must leave them. */
    method Open(h: Hardware) returns (o: Outcome)
      requires !pins.iridiumPwr
      modifies `pins, `writes, `clock
      ensures Reaches(h, o) && pins.Powered() == o.Ran?
      ensures o.ChargeTimeout? ==> clock - old(clock) >= 2000 + SUPERCAP_CHARGE_TIMEOUT_MS
      ensures !o.Refused? && (old(Recorded()) ==> Recorded())
      ensures o.Ran? ==> writes == old(writes) + OPENED
      ensures !o.Ran? ==> writes == old(writes) + SessionWrites(o) && pins.ModemDown() && pins.GnssOn()
    {
      ghost var before := writes;
      AntennaToIridium();
      var charged, taken := ChargeSupercaps(h.pgood);
      if !charged {
        AntennaToGps();
        assert writes == before + SessionWrites(ChargeTimeout);
        return ChargeTimeout;
      }
      DigitalWrite(IridiumPwr(true));
      ServiceDelay(1000);
      assert writes == before + OPENED;
      var began := ModemCall(h.begins);
      if !began {
        ModemPowerDown();
        AntennaToGps();
        assert writes == before + SessionWrites(BeginFailed);
        return BeginFailed;
      }
      return Ran;
    }

    /** A call into the modem library, which needs the modem powered and the antenna its own. */
    method ModemCall(answer: bool) returns (ok: bool)
      requires pins.Powered()
      ensures ok == answer
    {
      ok := answer;
    }

    method Close(ghost before: seq<Write>)
      requires writes == before + OPENED
      modifies `pins, `writes, `clock
      ensures writes == before + SessionWrites(Ran) && (old(Recorded()) ==> Recorded())
      ensures pins.ModemDown() && pins.GnssOn() && clock >= old(clock)
    {
      ModemPowerDown();
      AntennaToGps();
      assert writes == before + SessionWrites(Ran);
    }

    /** A whole session keeps the history exclusive. */
    lemma SessionKeepsValid(before: seq<Write>, o: Outcome)
      requires ExclusiveThroughout(start, before) && !Replay(Apply, start, before).iridiumPwr
      ensures ExclusiveThroughout(start, before + SessionWrites(o))
      ensures !Replay(Apply, start, before + SessionWrites(o)).iridiumPwr
      ensures !o.Refused? ==> Replay(Apply, start, before + SessionWrites(o)).GnssOn()
                              && Replay(Apply, start, before + SessionWrites(o)).ModemDown()
    {
      ReplayAppend(Apply, Exclusive, start, before, SessionWrites(o));
      SessionIsExclusive(Replay(Apply, start, before), o);
    }

    /** Up to two tries to send, three seconds apart. */
    method TrySend(exchanges: nat -> bool) returns (sent: bool)
      requires pins.Powered()
      modifies `clock
      ensures clock >= old(clock) && sent == (exchanges(0) || exchanges(1))
    {
      sent := false;
      var attempt := 1;
      while attempt <= MAX_IRIDIUM_RETRY && !sent
        invariant 1 <= attempt <= MAX_IRIDIUM_RETRY + 1 && clock >= old(clock)
        invariant sent == exists i: nat :: i < attempt - 1 && exchanges(i)
      {
        sent := ModemCall(exchanges(attempt - 1));
        if !sent && attempt < MAX_IRIDIUM_RETRY { ServiceDelay(3000); }
        attempt := attempt + 1;
      }
    }

    /** What every session that is not refused leaves. */
    twostate predicate SessionDone(new h: Hardware, o: Outcome)
      reads this
    {
      && Valid() && writes == old(writes) + SessionWrites(o)
      && Reaches(h, o) && pins.ModemDown() && pins.GnssOn()
      && (o.ChargeTimeout? ==> clock - old(clock) >= 2000 + SUPERCAP_CHARGE_TIMEOUT_MS)
    }

    /** And what a refused one leaves alone. */
    twostate predicate Untouched()
      reads this
    {
      Valid() && writes == old(writes) && pins == old(pins) && clock == old(clock) && modemReady == old(modemReady)
    }

    /** `IridiumManager_init`. */
    method Init(h: Hardware) returns (ok: bool, ghost o: Outcome)
      requires Valid()
      modifies this
      ensures SessionDone(h, o) && modemPresent && modemConfigured
      ensures ok == o.Ran?
      ensures modemReady == match o { case Ran => true case BeginFailed => false case _ => old(modemReady) }
    {
      modemPresent := true;
      modemConfigured := true;
      ghost var before := writes;
      var reached := Open(h);
      SessionKeepsValid(before, reached);
      o := reached;
      if reached == BeginFailed { modemReady := false; }
      if reached != Ran { return false, reached; }
      Close(before);
      modemReady := true;
      ok := true;
    }

    /** `iridiumSendPayload`, under every report and text message. */
    method SendPayload(hasData: bool, length: nat, h: Hardware) returns (ok: bool, ghost o: Outcome)
      requires Valid()
      modifies this
      ensures o.Refused? <==> !old(modemPresent) || !old(modemConfigured) || !hasData || length == 0 || length > 340
      ensures if o.Refused? then Untouched() else SessionDone(h, o) && modemReady == (o.Ran? || old(modemReady))
      ensures ok <==> o.Ran? && (h.exchanges(0) || h.exchanges(1))
    {
      if !modemPresent || !modemConfigured || !hasData || length == 0 || length > 340 { return false, Refused; }
      ghost var before := writes;
      var reached := Open(h);
      SessionKeepsValid(before, reached);
      o := reached;
      if reached != Ran { return false, reached; }
      modemReady := true;
      ok := TrySend(h.exchanges);
      Close(before);
    }

    /** `IridiumManager_sendBinary`. */
    method SendBinary(length: nat, h: Hardware) returns (ok: bool, ghost o: Outcome)
      requires Valid()
      modifies this
      ensures o.Refused? <==> !old(modemPresent) || !old(modemConfigured) || length > 340
      ensures if o.Refused? then Untouched() else SessionDone(h, o) && modemReady == old(modemReady)
      ensures ok <==> o.Ran? && h.exchanges(0)
    {
      if !modemPresent || !modemConfigured || length > 340 { return false, Refused; }
      ghost var before := writes;
      var reached := Open(h);
      SessionKeepsValid(before, reached);
      o := reached;
      if reached != Ran { return false, reached; }
      ok := ModemCall(h.exchanges(0));
      Close(before);
    }

    /** `IridiumManager_sendDorisReport`. */
    method SendDorisReport(hasReport: bool, length: nat, h: Hardware) returns (ok: bool, ghost o: Outcome)
      requires Valid()
      modifies this
      ensures o.Refused? <==> !old(modemPresent) || !old(modemConfigured) || !hasReport || length == 0
      ensures if o.Refused? then Untouched() else SessionDone(h, o) && modemReady == (o.Ran? || old(modemReady))
      ensures ok <==> o.Ran? && (h.exchanges(0) || h.exchanges(1))
    {
      if !modemPresent || !modemConfigured || !hasReport || length == 0 { return false, Refused; }
      ghost var before := writes;
      var reached := Open(h);
      SessionKeepsValid(before, reached);
      o := reached;
      if reached != Ran { return false, reached; }
      modemReady := true;
      ok := TrySend(h.exchanges);
      Close(before);
    }

    /** `IridiumManager_checkMessages`, `checkMT` and `getSignalQuality`: one exchange. */
    method Exchange(h: Hardware) returns (ok: bool, ghost o: Outcome)
      requires Valid()
      modifies this
      ensures o.Refused? <==> !old(modemPresent) || !old(modemConfigured)
      ensures if o.Refused? then Untouched() else SessionDone(h, o) && modemReady == old(modemReady)
      ensures ok <==> o.Ran? && h.exchanges(0)
    {
      if !modemPresent || !modemConfigured { return false, Refused; }
      ghost var before := writes;
      var reached := Open(h);
      SessionKeepsValid(before, reached);
      o := reached;
      if reached != Ran { return false, reached; }
      ok := ModemCall(h.exchanges(0));
      Close(before);
    }
  }
}
