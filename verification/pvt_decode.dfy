/** Reading a NAV-PVT payload: `processPVT` in src/modules/gps_manager.cpp. */
module PvtDecode {
  import opened Common
  import opened UbxParser

  type Buffer = b: seq<byte> | |b| == NAV_PVT_LEN witness seq(NAV_PVT_LEN, _ => 0)

  function U16(b: Buffer, off: nat): u16
    requires off + 2 <= |b|
  {
    b[off] as int + 256 * b[off + 1] as int
  }

  function U32(b: Buffer, off: nat): u32
    requires off + 4 <= |b|
  {
    b[off] as int + 0x100 * b[off + 1] as int + 0x1_0000 * b[off + 2] as int + 0x100_0000 * b[off + 3] as int
  }

  /** The cast of the assembled word to a signed one. */
  function I32(b: Buffer, off: nat): i32
    requires off + 4 <= |b|
  {
    var w := U32(b, off);
    if w < 0x8000_0000 then w else w - 0x1_0000_0000
  }

  predicate Bit(flags: byte, mask: int)
    requires mask > 0
  {
    flags / mask % 2 == 1
  }

  /** The fields kept of a position report, in the units of the payload. */
  datatype Fix = Fix(
    year: u16, month: byte, day: byte, hour: byte, minute: byte, second: byte,
    dateValid: bool, timeValid: bool, fullyResolved: bool,
    fixType: byte, satellites: byte,
    longitude: i32, latitude: i32, height: i32, heightMsl: i32,
    hAcc: u32, vAcc: u32, velN: i32, velE: i32, velD: i32,
    groundSpeed: i32, heading: i32, sAcc: u32, pdop: u16)
  {
    /** Whether the position may be used. */
    predicate Valid() {
      fixType >= 2 && satellites >= 4
    }
  }

  function Decode(b: Buffer): Fix {
    Fix(U16(b, 4), b[6], b[7], b[8], b[9], b[10],
        Bit(b[11], 1), Bit(b[11], 2), Bit(b[11], 4),
        b[20], b[23],
        I32(b, 24), I32(b, 28), I32(b, 32), I32(b, 36),
        U32(b, 40), U32(b, 44), I32(b, 48), I32(b, 52), I32(b, 56),
        I32(b, 60), I32(b, 64), U32(b, 68), U16(b, 76))
  }

  /** The little-endian digits of a word. */
  predicate Digits(b: Buffer, off: nat, w: u32)
    requires off + 4 <= |b|
  {
    && b[off] == w % 256 && b[off + 1] == w / 0x100 % 256
    && b[off + 2] == w / 0x1_0000 % 256 && b[off + 3] == w / 0x100_0000
  }

  lemma ByteOff(x: nat, q: nat, r: byte)
    requires x == 256 * q + r
    ensures x / 256 == q && x % 256 == r
  {
  }

  lemma DigitsChain(w: u32)
    ensures w / 0x1_0000 == w / 0x100 / 0x100 && w / 0x100_0000 == w / 0x1_0000 / 0x100
    ensures w / 0x100_0000 < 0x100
    ensures w == w % 256 + 0x100 * (w / 0x100 % 256) + 0x1_0000 * (w / 0x1_0000 % 256) + 0x100_0000 * (w / 0x100_0000)
  {
  }

  lemma DigitsOfWord(w: u32, b0: byte, b1: byte, b2: byte, b3: byte)
    requires w == b0 + 0x100 * b1 + 0x1_0000 * b2 + 0x100_0000 * b3
    ensures b0 == w % 256 && b1 == w / 0x100 % 256 && b2 == w / 0x1_0000 % 256 && b3 == w / 0x100_0000
  {
    var q2: nat := b2 + 0x100 * b3;
    var q1: nat := b1 + 0x100 * q2;
    DigitsChain(w);
    ByteOff(w, q1, b0);
    ByteOff(q1, q2, b1);
    ByteOff(q2, b3, b2);
  }

  lemma U32Exact(b: Buffer, off: nat, w: u32)
    requires off + 4 <= |b|
    ensures U32(b, off) == w <==> Digits(b, off, w)
  {
    DigitsChain(w);
    if U32(b, off) == w { DigitsOfWord(w, b[off], b[off + 1], b[off + 2], b[off + 3]); }
  }

  /** The two's complement of a signed value. */
  function Word(v: i32): u32 {
    if v >= 0 then v else v + 0x1_0000_0000
  }

  /** A signed field reads as `v` exactly when its bytes are the digits of v's two's complement. */
  lemma I32Exact(b: Buffer, off: nat, v: i32)
    requires off + 4 <= |b|
    ensures I32(b, off) == v <==> Digits(b, off, Word(v))
  {
    U32Exact(b, off, Word(v));
  }

  /** How the receiver lays a fix out in a payload, by the table of the protocol. */
  predicate Encodes(b: Buffer, f: Fix) {
    && b[4] == f.year % 256 && b[5] == f.year / 256
    && b[6..11] == [f.month, f.day, f.hour, f.minute, f.second]
    && (f.dateValid <==> b[11] % 2 == 1)
    && (f.timeValid <==> b[11] % 4 >= 2)
    && (f.fullyResolved <==> b[11] % 8 >= 4)
    && b[20] == f.fixType && b[23] == f.satellites
    && Digits(b, 24, Word(f.longitude)) && Digits(b, 28, Word(f.latitude))
    && Digits(b, 32, Word(f.height)) && Digits(b, 36, Word(f.heightMsl))
    && Digits(b, 40, f.hAcc) && Digits(b, 44, f.vAcc)
    && Digits(b, 48, Word(f.velN)) && Digits(b, 52, Word(f.velE)) && Digits(b, 56, Word(f.velD))
    && Digits(b, 60, Word(f.groundSpeed)) && Digits(b, 64, Word(f.heading))
    && Digits(b, 68, f.sAcc) && b[76] == f.pdop % 256 && b[77] == f.pdop / 256
  }

  lemma FlagsExact(x: byte)
    ensures Bit(x, 1) <==> x % 2 == 1
    ensures Bit(x, 2) <==> x % 4 >= 2
    ensures Bit(x, 4) <==> x % 8 >= 4
  {
  }

  lemma U16Exact(b: Buffer, off: nat, w: u16)
    requires off + 2 <= |b|
    ensures U16(b, off) == w <==> b[off] == w % 256 && b[off + 1] == w / 256
  {
  }

  /** Decoding inverts the layout: a payload reads as `f` exactly when it is laid out as `f`. */
  lemma DecodeExact(b: Buffer, f: Fix)
    ensures Decode(b) == f <==> Encodes(b, f)
  {
    U16Exact(b, 4, f.year);
    U16Exact(b, 76, f.pdop);
    FlagsExact(b[11]);
    var time := b[6..11];
    assert time[0] == b[6] && time[1] == b[7] && time[2] == b[8] && time[3] == b[9] && time[4] == b[10];
    I32Exact(b, 24, f.longitude);
    I32Exact(b, 28, f.latitude);
    I32Exact(b, 32, f.height);
    I32Exact(b, 36, f.heightMsl);
    U32Exact(b, 40, f.hAcc);
    U32Exact(b, 44, f.vAcc);
    I32Exact(b, 48, f.velN);
    I32Exact(b, 52, f.velE);
    I32Exact(b, 56, f.velD);
    I32Exact(b, 60, f.groundSpeed);
    I32Exact(b, 64, f.heading);
    U32Exact(b, 68, f.sAcc);
  }
}
