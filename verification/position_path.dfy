/** The way of a position from the receiver's bytes to the printed report: src/modules/gps_manager.cpp
    and src/modules/iridium_manager.cpp. */
module PositionPath {
  import opened Common
  import opened UbxParser
  import opened UbxFrames
  import opened PvtDecode
  import P1 = P1Message

  /** The part of the receiver's data that a report uses, in degrees and metres per second. */
  datatype GpsData = GpsData(valid: bool, latitude: real, longitude: real, speed: real, course: real)

  function Scaled(f: Fix): GpsData {
    GpsData(f.Valid(), f.latitude as real / 10000000.0, f.longitude as real / 10000000.0,
            f.groundSpeed as real / 1000.0, f.heading as real / 100000.0)
  }

  const NO_DATA: GpsData := GpsData(false, 0.0, 0.0, 0.0, 0.0)

  /** What the receiver module holds after these payloads: the newest one, decoded. */
  function Held(payloads: seq<seq<byte>>): GpsData
    requires forall i | 0 <= i < |payloads| :: |payloads[i]| == NAV_PVT_LEN
  {
    if payloads == [] then NO_DATA else Scaled(Decode(payloads[|payloads| - 1]))
  }

  /** `IridiumManager_sendMissionReport` refuses without a valid position. */
  function MissionReport(g: GpsData, maxDepth: Float, battery: real, bus: Float): Option<P1.Fields> {
    if !g.valid then None
    else
      Some(P1.Fields(true, Finite(g.latitude), Finite(g.longitude), Finite(g.speed), Finite(g.course), maxDepth,
                     if battery > 0.0 then Finite(battery) else bus))
  }

  /** The report of a position is sent exactly when the fix is at least two-dimensional and uses four satellites. */
  lemma ReportNeedsFix(f: Fix, maxDepth: Float, battery: real, bus: Float)
    ensures MissionReport(Scaled(f), maxDepth, battery, bus).Some? <==> f.fixType >= 2 && f.satellites >= 4
  {
  }

  lemma {:induction false} PayloadLengths(fs: seq<seq<byte>>)
    ensures forall i | 0 <= i < |PvtPayloads(fs)| :: |PvtPayloads(fs)[i]| == NAV_PVT_LEN
    decreases |fs|
  {
    if fs != [] { PayloadLengths(fs[..|fs| - 1]); }
  }

  /** A printed report `r` tells the fix, brought into the range of each field and rounded to its last
      digit, with the mission's depth and voltage. */
  ghost predicate Tells(r: P1.Report, f: Fix, maxDepth: Float, battery: real, bus: Float) {
    && P1.Rounds(r.latitude, f.latitude as real / 10000000.0, -90.0, 90.0, 0.000005)
    && P1.Rounds(r.longitude, f.longitude as real / 10000000.0, -180.0, 180.0, 0.000005)
    && P1.Rounds(r.speedTenths as real / 10.0, f.groundSpeed as real / 1000.0, 0.0, 9.9, 0.05)
    && 0 <= r.course <= 359 && (exists k :: P1.SameHeading(r.course, Heading(f), k))
    && P1.Prints(r.depth as real, true, maxDepth, 0.0, 9999.0, 0.5)
    && (battery > 0.0 ==> P1.Rounds(r.voltage, battery, 0.0, 99.9, 0.05))
    && (battery <= 0.0 ==> P1.Prints(r.voltage, true, bus, 0.0, 99.9, 0.05))
  }

  /** In degrees. */
  function Heading(f: Fix): real {
    f.heading as real / 100000.0
  }

  lemma ReportTells(f: Fix, maxDepth: Float, battery: real, bus: Float)
    requires f.Valid()
    ensures var report := MissionReport(Scaled(f), maxDepth, battery, bus);
      && report.Some? && P1.FixedLayout(P1.Layout(report.value))
      && Tells(P1.ReadReport(P1.Layout(report.value)), f, maxDepth, battery, bus)
  {
    var fields := MissionReport(Scaled(f), maxDepth, battery, bus).value;
    P1.ReportReadsBack(fields);
    ShownTells(P1.ReadReport(P1.Layout(fields)), f, maxDepth, battery, bus);
  }

  lemma ShownTells(r: P1.Report, f: Fix, maxDepth: Float, battery: real, bus: Float)
    requires f.Valid() && P1.Shows(r, MissionReport(Scaled(f), maxDepth, battery, bus).value)
    ensures Tells(r, f, maxDepth, battery, bus)
  {
    assert P1.ShowsMotion(r, MissionReport(Scaled(f), maxDepth, battery, bus).value);
    var k :| P1.SameHeading(r.course, Scaled(f).course, k);
    assert P1.SameHeading(r.course, Heading(f), k);
  }

  /** Of any frames back to back, the newest position frame is the one that is held. */
  lemma NewestIsHeld(u: Parser, fs: seq<seq<byte>>, frame: seq<byte>, f: Fix) returns (payloads: seq<seq<byte>>)
    requires Idle(u) && IsPvtFrame(frame) && Encodes(Payload(frame), f)
    requires forall i | 0 <= i < |fs| :: IsFrame(fs[i])
    ensures payloads == Reports(u, Concat(fs) + frame, |Concat(fs) + frame|)
    ensures forall i | 0 <= i < |payloads| :: |payloads[i]| == NAV_PVT_LEN
    ensures Held(payloads) == Scaled(f)
  {
    var all := fs + [frame];
    assert all[..|fs|] == fs;
    FrameStreamIsDecoded(u, all);
    PayloadLengths(all);
    DecodeExact(Payload(frame), f);
    payloads := PvtPayloads(all);
    assert payloads[|payloads| - 1] == Payload(frame);
  }

  /** From wire to wire: when the newest position frame among any frames received carries a usable
      fix, the report printed from it reads back as that fix. */
  lemma PositionReachesReport(
    u: Parser, fs: seq<seq<byte>>, frame: seq<byte>, f: Fix, maxDepth: Float, battery: real, bus: Float)
    returns (payloads: seq<seq<byte>>)
    requires Idle(u) && IsPvtFrame(frame) && Encodes(Payload(frame), f) && f.Valid()
    requires forall i | 0 <= i < |fs| :: IsFrame(fs[i])
    ensures payloads == Reports(u, Concat(fs) + frame, |Concat(fs) + frame|)
    ensures forall i | 0 <= i < |payloads| :: |payloads[i]| == NAV_PVT_LEN
    ensures var report := MissionReport(Held(payloads), maxDepth, battery, bus);
      && report.Some? && P1.FixedLayout(P1.Layout(report.value))
      && Tells(P1.ReadReport(P1.Layout(report.value)), f, maxDepth, battery, bus)
  {
    payloads := NewestIsHeld(u, fs, frame, f);
    ReportTells(f, maxDepth, battery, bus);
  }
}
