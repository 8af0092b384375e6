/** Setting the clock from GNSS time: src/main.cpp, include/rtc_time_guard.h, include/apollo_rtc_time.h. */
module RtcDiscipline {
  import opened Common
  import opened Calendar

  const RTC_MIN_VALID_YEAR: nat := 2025
  const RTC_HARDWARE_MAX_YEAR: nat := 2099
  const RTC_MAX_GPS_STEP_SECONDS: nat := 300

  datatype Validation = TimeValid | RejectInvalidCalendar | RejectYear | RejectStep

  function Distance(a: nat, b: nat): nat {
    if a > b then a - b else b - a
  }

  /** The verdict on a GNSS time, given whether the clock is synced and what it reads. */
  function Verdict(c: Time, synced: bool, current: nat, maxYear: nat): Validation {
    if c.year < RTC_MIN_VALID_YEAR || (!synced && c.year > maxYear) then RejectYear
    else if !Valid(c) then RejectInvalidCalendar
    else if synced && Distance(UnixSeconds(c), current) > RTC_MAX_GPS_STEP_SECONDS then RejectStep
    else TimeValid
  }

  method Validate(c: Time, synced: bool, current: nat, maxYear: nat) returns (v: Validation, seconds: nat)
    requires c.year < 0x1_0000 && c.month < 256
    ensures v == Verdict(c, synced, current, maxYear)
    ensures v.TimeValid? ==> seconds == UnixSeconds(c)
  {
    if c.year < RTC_MIN_VALID_YEAR || (!synced && c.year > maxYear) { return RejectYear, 0; }
    var ok, converted := ToUnixSeconds(c);
    if !ok { return RejectInvalidCalendar, 0; }
    if !synced { return TimeValid, converted; }
    var difference := if converted > current then converted - current else current - converted;
    if difference > RTC_MAX_GPS_STEP_SECONDS { return RejectStep, converted; }
    return TimeValid, converted;
  }

  /** The latest year an unsynced clock may be set to, from the year the firmware was built in. */
  function MaximumPlausibleYear(buildYear: nat): nat {
    var y := if buildYear < RTC_MIN_VALID_YEAR then RTC_MIN_VALID_YEAR else buildYear;
    if y >= RTC_HARDWARE_MAX_YEAR then RTC_HARDWARE_MAX_YEAR else y + 1
  }

  /** The registers of the hardware clock, as one read returns them. */
  datatype Registers = Registers(year: nat, month: nat, day: nat, hour: nat, minute: nat, second: nat)

  /** The calendar a read stands for, after the casts to the calendar's field widths. */
  function ReadCalendar(r: Registers): Time {
    var y := r.year % 0x1_0000;
    Time(if y < 100 then y + 2000 else y, r.month % 256, r.day % 256, r.hour % 256, r.minute % 256, r.second % 256)
  }

  /** What a read counts as in Unix seconds; zero stands for no usable time. */
  function ReadSeconds(r: Registers): nat {
    var c := ReadCalendar(r);
    if c.year < RTC_MIN_VALID_YEAR || c.year > RTC_HARDWARE_MAX_YEAR || !Valid(c) then 0
    else UnixSeconds(c)
  }

  /** The registers a calendar is written as. */
  function ToRegisters(c: Time): Registers
    requires c.year >= 2000
  {
    Registers(c.year - 2000, c.month, c.day, c.hour, c.minute, c.second)
  }

  predicate Writable(c: Time) {
    && 2000 <= c.year <= 2099 && 1 <= c.month <= 12 && 1 <= c.day <= 31
    && c.hour <= 23 && c.minute <= 59 && c.second <= 59
  }

  /** The statics of the discipline. */
  datatype Discipline = Discipline(synced: bool, lastSequence: int, lastAccepted: nat)

  const UNSYNCED: Discipline := Discipline(false, 0, 0)

  /** One call: what the receiver reports, and what two reads of the hardware clock return,
      the second after a write. Nothing ties either read to what was written before. */
  datatype Poll = Poll(sequence: int, hasTime: bool, gps: Time, read: Registers, readback: Registers)

  /** Whether the call looks at a GNSS time at all. */
  predicate Considers(d: Discipline, p: Poll) {
    p.sequence != d.lastSequence && p.hasTime
  }

  /** Synced for the decision: a clock that reads as nothing counts as never set. */
  predicate StillSynced(d: Discipline, p: Poll) {
    d.synced && ReadSeconds(p.read) != 0
  }

  predicate Accepts(d: Discipline, p: Poll, maxYear: nat) {
    && Considers(d, p)
    && Verdict(p.gps, StillSynced(d, p), ReadSeconds(p.read), maxYear) == TimeValid
    && UnixSeconds(p.gps) != d.lastAccepted
    && Writable(p.gps)
  }

  predicate Confirms(p: Poll) {
    p.gps.year >= 2000 && p.readback == ToRegisters(p.gps)
  }

  function Next(d: Discipline, p: Poll, maxYear: nat): Discipline {
    var e := d.(lastSequence := p.sequence);
    if !Considers(d, p) then e
    else if !Accepts(d, p, maxYear) then e.(synced := StillSynced(d, p))
    else if Confirms(p) then Discipline(true, p.sequence, UnixSeconds(p.gps))
    else e.(synced := false)
  }

  /** What the call writes to the hardware clock. */
  function WriteOf(d: Discipline, p: Poll, maxYear: nat): Option<Registers> {
    if Accepts(d, p, maxYear) then Some(ToRegisters(p.gps)) else None
  }

  /** What may be published on MAVLink at a read of the clock; zero is nothing. */
  function Published(d: Discipline, r: Registers): nat {
    if d.synced then ReadSeconds(r) * 1000000 else 0
  }

  class RtcSync {
    var rtcSyncedFromGps: bool
    var lastProcessedPvtSequence: int
    var lastAcceptedGpsUnixSeconds: nat
    const maxYear: nat

    function View(): Discipline
      reads this
    {
      Discipline(rtcSyncedFromGps, lastProcessedPvtSequence, lastAcceptedGpsUnixSeconds)
    }

    constructor (buildYear: nat)
      ensures View() == UNSYNCED && maxYear == MaximumPlausibleYear(buildYear)
    {
      rtcSyncedFromGps := false;
      lastProcessedPvtSequence := 0;
      lastAcceptedGpsUnixSeconds := 0;
      maxYear := MaximumPlausibleYear(buildYear);
    }

    /** `getRTCUnixUsec` on what the hardware returns. */
    method RtcUnixUsec(read: Registers) returns (usec: u64)
      ensures usec == Published(View(), read)
    {
      if !rtcSyncedFromGps { return 0; }
      var y := read.year % 0x1_0000;
      if y < 100 { y := y + 2000; }
      if y < RTC_MIN_VALID_YEAR || y > RTC_HARDWARE_MAX_YEAR { return 0; }
      var calendar := Time(y, read.month % 256, read.day % 256, read.hour % 256, read.minute % 256, read.second % 256);
      var ok, unixSeconds := ToUnixSeconds(calendar);
      if !ok { return 0; }
      CenturyBound(calendar);
      return unixSeconds * 1000000;
    }

    /** `syncRTCFromGPSIfValid`. */
    method SyncIfValid(p: Poll) returns (written: Option<Registers>)
      requires p.gps.year < 0x1_0000 && p.gps.month < 256
      modifies this
      ensures View() == Next(old(View()), p, maxYear)
      ensures written == WriteOf(old(View()), p, maxYear)
    {
      if p.sequence == lastProcessedPvtSequence { return None; }
      lastProcessedPvtSequence := p.sequence;
      if !p.hasTime { return None; }
      var usec := RtcUnixUsec(p.read);
      ReadScales(rtcSyncedFromGps, p.read);
      if rtcSyncedFromGps && usec == 0 { rtcSyncedFromGps := false; }
      var verdict, seconds := Validate(p.gps, rtcSyncedFromGps, usec / 1000000, maxYear);
      if verdict != TimeValid { return None; }
      if seconds == lastAcceptedGpsUnixSeconds { return None; }
      if !Writable(p.gps) { return None; }
      written := Some(ToRegisters(p.gps));
      if p.readback != ToRegisters(p.gps) {
        rtcSyncedFromGps := false;
        return;
      }
      lastAcceptedGpsUnixSeconds := seconds;
      rtcSyncedFromGps := true;
    }
  }

  lemma ReadScales(synced: bool, r: Registers)
    ensures ReadSeconds(r) * 1000000 / 1000000 == ReadSeconds(r)
  {
  }

  // ---------------------------------------------------------------- one call

  /** What is written, exactly: a new, valid time from 2025 to 2099, other than the one last accepted,
      that is within 300 s of the value just read while synced, and otherwise of a plausible year. */
  lemma WritesExactly(d: Discipline, p: Poll, buildYear: nat)
    ensures var written := WriteOf(d, p, MaximumPlausibleYear(buildYear));
      && (written.Some? <==>
            && p.sequence != d.lastSequence && p.hasTime
            && Valid(p.gps) && 2025 <= p.gps.year <= 2099 && UnixSeconds(p.gps) != d.lastAccepted
            && if d.synced && ReadSeconds(p.read) != 0
               then -300 <= UnixSeconds(p.gps) - ReadSeconds(p.read) <= 300
               else p.gps.year <= if buildYear < 2025 then 2026 else buildYear + 1)
      && (written.Some? ==> written.value == Registers(
            p.gps.year - 2000, p.gps.month, p.gps.day, p.gps.hour, p.gps.minute, p.gps.second))
  {
  }

  /** Registers that hold a calendar time, with or without the century. */
  predicate StandsFor(r: Registers, c: Time) {
    && Valid(c) && 2025 <= c.year <= 2099
    && (r.year % 0x1_0000 == c.year || r.year % 0x1_0000 == c.year - 2000)
    && r.month % 256 == c.month && r.day % 256 == c.day
    && r.hour % 256 == c.hour && r.minute % 256 == c.minute && r.second % 256 == c.second
  }

  /** What a read counts as: the seconds of the time its registers hold, and nothing without one. */
  lemma ReadSecondsExactly(r: Registers)
    ensures forall c | StandsFor(r, c) :: ReadSeconds(r) == UnixSeconds(c)
    ensures ReadSeconds(r) != 0 ==> exists c :: StandsFor(r, c)
  {
    forall c | StandsFor(r, c) ensures ReadSeconds(r) == UnixSeconds(c) {
      assert ReadCalendar(r) == c;
    }
    if ReadSeconds(r) != 0 { assert StandsFor(r, ReadCalendar(r)); }
  }

  /** A write that reads back as written reads as exactly the accepted second. */
  lemma WrittenTimeReadsBack(c: Time)
    requires Valid(c) && RTC_MIN_VALID_YEAR <= c.year <= RTC_HARDWARE_MAX_YEAR
    ensures ReadCalendar(ToRegisters(c)) == c && ReadSeconds(ToRegisters(c)) == UnixSeconds(c) > 0
  {
  }

  // ---------------------------------------------------------------- every run

  function After(ps: seq<Poll>, n: nat, maxYear: nat): Discipline
    requires n <= |ps|
  {
    if n == 0 then UNSYNCED else Next(After(ps, n - 1, maxYear), ps[n - 1], maxYear)
  }

  /** Call `j` set the clock, the hardware confirmed it, and from then on up to call `n` the clock
      was never seen unset. */
  ghost predicate SetAt(ps: seq<Poll>, n: nat, maxYear: nat, j: nat)
    requires n <= |ps|
  {
    && j < n && Accepts(After(ps, j, maxYear), ps[j], maxYear)
    && ps[j].readback == ToRegisters(ps[j].gps)
    && forall i | j < i <= n :: After(ps, i, maxYear).synced
  }

  lemma {:induction false} SyncedMeansSet(ps: seq<Poll>, n: nat, maxYear: nat) returns (j: nat)
    requires n <= |ps| && After(ps, n, maxYear).synced
    ensures SetAt(ps, n, maxYear, j)
    ensures After(ps, n, maxYear).lastAccepted == UnixSeconds(ps[j].gps) == ReadSeconds(ps[j].readback)
    decreases n
  {
    var d, p := After(ps, n - 1, maxYear), ps[n - 1];
    if Accepts(d, p, maxYear) {
      j := n - 1;
      WrittenTimeReadsBack(p.gps);
    } else {
      j := SyncedMeansSet(ps, n - 1, maxYear);
    }
  }

  /** Whatever the hardware returns, time is published only when some call set the clock, read
      its own write back in full, and the clock has not been seen unset since; the last accepted
      second is then the one that readback stood for. */
  lemma PublishedOnlyAfterReadback(ps: seq<Poll>, n: nat, maxYear: nat, r: Registers)
    requires n <= |ps| && Published(After(ps, n, maxYear), r) != 0
    ensures exists j: nat :: SetAt(ps, n, maxYear, j) &&
              After(ps, n, maxYear).lastAccepted == UnixSeconds(ps[j].gps) == ReadSeconds(ps[j].readback)
  {
    var j := SyncedMeansSet(ps, n, maxYear);
  }

  // ---------------------------------------------------------------- what the discipline remembers

  /** Call `i` wrote the clock and read its write back in full. */
  predicate Confirmed(ps: seq<Poll>, i: nat, maxYear: nat)
    requires i < |ps|
  {
    var written := WriteOf(After(ps, i, maxYear), ps[i], maxYear);
    written.Some? && ps[i].readback == written.value
  }

  /** Call `i` looked at a new time and found the clock unset, or wrote it and read back another. */
  predicate LosesSync(ps: seq<Poll>, i: nat, maxYear: nat)
    requires i < |ps|
  {
    && (i == 0 || ps[i].sequence != ps[i - 1].sequence) && (i == 0 ==> ps[i].sequence != 0) && ps[i].hasTime
    && !Confirmed(ps, i, maxYear)
    && (ReadSeconds(ps[i].read) == 0 || WriteOf(After(ps, i, maxYear), ps[i], maxYear).Some?)
  }

  /** The sequence number remembered is that of the call before. */
  lemma LastSequence(ps: seq<Poll>, n: nat, maxYear: nat)
    requires n <= |ps|
    ensures After(ps, n, maxYear).lastSequence == if n == 0 then 0 else ps[n - 1].sequence
  {
  }

  /** Some call set and confirmed the clock and none has lost it since. */
  ghost predicate KeptSince(ps: seq<Poll>, n: nat, maxYear: nat)
    requires n <= |ps|
  {
    exists j: nat :: j < n && Confirmed(ps, j, maxYear) && forall i | j < i < n :: !LosesSync(ps, i, maxYear)
  }

  lemma KeptExtends(ps: seq<Poll>, p: nat, maxYear: nat)
    requires p < |ps|
    ensures KeptSince(ps, p + 1, maxYear) <==>
              Confirmed(ps, p, maxYear) || (KeptSince(ps, p, maxYear) && !LosesSync(ps, p, maxYear))
  {
    if KeptSince(ps, p, maxYear) && !LosesSync(ps, p, maxYear) {
      var j: nat :| j < p && Confirmed(ps, j, maxYear) && forall i | j < i < p :: !LosesSync(ps, i, maxYear);
      assert forall i | j < i < p + 1 :: !LosesSync(ps, i, maxYear);
    }
  }

  lemma SyncStep(ps: seq<Poll>, p: nat, maxYear: nat)
    requires p < |ps|
    ensures After(ps, p + 1, maxYear).synced <==>
              Confirmed(ps, p, maxYear) || (After(ps, p, maxYear).synced && !LosesSync(ps, p, maxYear))
    ensures After(ps, p + 1, maxYear).lastAccepted ==
              if Confirmed(ps, p, maxYear) then UnixSeconds(ps[p].gps) else After(ps, p, maxYear).lastAccepted
  {
    LastSequence(ps, p, maxYear);
  }

  /** The clock is synced exactly when some call set it and confirmed it and none has lost it since. */
  lemma {:induction false} SyncedExactly(ps: seq<Poll>, n: nat, maxYear: nat)
    requires n <= |ps|
    ensures After(ps, n, maxYear).synced <==> KeptSince(ps, n, maxYear)
    decreases n
  {
    if n > 0 {
      SyncedExactly(ps, n - 1, maxYear);
      SyncStep(ps, n - 1, maxYear);
      KeptExtends(ps, n - 1, maxYear);
    }
  }

  /** The second remembered as accepted is that of the last confirmed call, or zero. */
  lemma {:induction false} LastAccepted(ps: seq<Poll>, n: nat, maxYear: nat) returns (j: nat)
    requires n <= |ps|
    ensures j <= n && forall i | j <= i < n :: !Confirmed(ps, i, maxYear)
    ensures j == 0 ==> After(ps, n, maxYear).lastAccepted == 0
    ensures j > 0 ==> Confirmed(ps, j - 1, maxYear)
                      && After(ps, n, maxYear).lastAccepted == UnixSeconds(ps[j - 1].gps)
    decreases n
  {
    j := 0;
    if n > 0 {
      SyncStep(ps, n - 1, maxYear);
      if Confirmed(ps, n - 1, maxYear) { j := n; } else { j := LastAccepted(ps, n - 1, maxYear); }
    }
  }

  /** What is published is exactly the time a read holds while synced, in microseconds. */
  lemma PublishedExactly(d: Discipline, r: Registers)
    ensures forall c | StandsFor(r, c) :: Published(d, r) == if d.synced then UnixSeconds(c) * 1000000 else 0
    ensures Published(d, r) != 0 ==> d.synced && exists c :: StandsFor(r, c)
  {
    ReadSecondsExactly(r);
  }
}
