/** The streaming UBX parser of src/modules/gps_manager.cpp. */
module UbxParser {
  import opened Common

  const SYNC1: byte := 0xB5
  const SYNC2: byte := 0x62
  const NAV_CLASS: byte := 0x01
  const NAV_PVT_ID: byte := 0x07
  const NAV_PVT_LEN: nat := 92

  /** The parser's statics: automaton state, payload index, payload length, message class and
      id, running checksum and payload buffer. */
  datatype Parser = Parser(
    st: nat, idx: nat, len: nat, cls: byte, id: byte, ckA: byte, ckB: byte, buf: seq<byte>)

  /** Addition in eight bits. */
  function Add(a: byte, b: byte): byte {
    if a + b < 256 then a + b else a + b - 256
  }

  function Sum(u: Parser, b: byte): Parser {
    u.(ckA := Add(u.ckA, b), ckB := Add(u.ckB, Add(u.ckA, b)))
  }

  function Reset(u: Parser): Parser {
    u.(st := 0, idx := 0, ckA := 0, ckB := 0)
  }

  predicate IsPvt(u: Parser) {
    u.cls == NAV_CLASS && u.id == NAV_PVT_ID
  }

  /** The parser after one byte. The 16-bit index wraps like the source's; before the high length
      byte arrives the length holds just the low one. */
  function Step(u: Parser, b: byte): Parser
    requires |u.buf| == NAV_PVT_LEN
  {
    match u.st
    case 0 => if b == SYNC1 then u.(st := 1) else u
    case 1 => u.(st := if b == SYNC2 then 2 else 0)
    case 2 => u.(cls := b, ckA := b, ckB := b, st := 3)
    case 3 => Sum(u, b).(id := b, st := 4)
    case 4 => Sum(u, b).(len := b, st := 5)
    case 5 =>
      var len := u.len % 256 + 256 * b;
      Sum(u, b).(len := len, idx := 0, st := if len > 0 then 6 else 7)
    case 6 =>
      var idx := (u.idx + 1) % 0x1_0000;
      Sum(u, b).(idx := idx, st := if idx >= u.len then 7 else 6,
                 buf := if IsPvt(u) && u.idx < NAV_PVT_LEN then u.buf[u.idx := b] else u.buf)
    case 7 => if b == u.ckA then u.(st := 8) else Reset(u)
    case _ => Reset(u)
  }

  /** Whether this byte makes the parser hand its buffer on as a position report. */
  predicate Fires(u: Parser, b: byte) {
    u.st == 8 && b == u.ckB && IsPvt(u) && u.len == NAV_PVT_LEN
  }

  class Receiver {
    var state: nat
    var payloadIdx: nat
    var payloadLen: nat
    var cls: byte
    var id: byte
    var ckA: byte
    var ckB: byte
    const buf: array<byte>

    predicate Valid() {
      buf.Length == NAV_PVT_LEN
    }

    function View(): Parser
      reads this, buf
    {
      Parser(state, payloadIdx, payloadLen, cls, id, ckA, ckB, buf[..])
    }

    constructor ()
      ensures Valid() && fresh(buf) && View() == Parser(0, 0, 0, 0, 0, 0, 0, seq(NAV_PVT_LEN, _ => 0))
    {
      state, payloadIdx, payloadLen := 0, 0, 0;
      cls, id, ckA, ckB := 0, 0, 0, 0;
      buf := new byte[NAV_PVT_LEN](_ => 0);
    }

    method ResetParser()
      modifies this
      ensures View() == Reset(old(View()))
    {
      state := 0;
      payloadIdx := 0;
      ckA := 0;
      ckB := 0;
    }

    method Accumulate(b: byte)
      modifies this
      ensures View() == Sum(old(View()), b)
    {
      ckA := Add(ckA, b);
      ckB := Add(ckB, ckA);
    }

    /** No write leaves the buffer, and the new state is the automaton's. */
    method ParseByte(b: byte) returns (fired: bool)
      requires Valid()
      modifies this, buf
      ensures View() == Step(old(View()), b) && fired == Fires(old(View()), b)
    {
      fired := false;
      match state
      case 0 => if b == SYNC1 { state := 1; }
      case 1 => state := if b == SYNC2 then 2 else 0;
      case 2 =>
        cls := b;
        ckA := b;
        ckB := ckA;
        state := 3;
      case 3 =>
        id := b;
        Accumulate(b);
        state := 4;
      case 4 =>
        payloadLen := b;
        Accumulate(b);
        state := 5;
      case 5 =>
        payloadLen := payloadLen % 256 + 256 * b;
        Accumulate(b);
        payloadIdx := 0;
        state := if payloadLen > 0 then 6 else 7;
      case 6 =>
        Accumulate(b);
        if cls == NAV_CLASS && id == NAV_PVT_ID && payloadIdx < NAV_PVT_LEN {
          buf[payloadIdx] := b;
        }
        payloadIdx := (payloadIdx + 1) % 0x1_0000;
        if payloadIdx >= payloadLen { state := 7; }
      case 7 =>
        if b == ckA { state := 8; } else { ResetParser(); }
      case 8 =>
        fired := b == ckB && cls == NAV_CLASS && id == NAV_PVT_ID && payloadLen == NAV_PVT_LEN;
        ResetParser();
      case _ => ResetParser();
    }
  }

  // ---------------------------------------------------------------- streams

  /** The parser after the first `n` bytes of a stream. */
  function After(u: Parser, bs: seq<byte>, n: nat): (v: Parser)
    requires |u.buf| == NAV_PVT_LEN && n <= |bs|
    ensures |v.buf| == NAV_PVT_LEN
  {
    if n == 0 then u else Step(After(u, bs, n - 1), bs[n - 1])
  }

  predicate FiresAt(u: Parser, bs: seq<byte>, n: nat)
    requires |u.buf| == NAV_PVT_LEN && n < |bs|
  {
    Fires(After(u, bs, n), bs[n])
  }

  /** The buffers handed on during the first `n` bytes, in order. */
  function Reports(u: Parser, bs: seq<byte>, n: nat): seq<seq<byte>>
    requires |u.buf| == NAV_PVT_LEN && n <= |bs|
  {
    if n == 0 then []
    else Reports(u, bs, n - 1) + if FiresAt(u, bs, n - 1) then [After(u, bs, n - 1).buf] else []
  }

  /** The receiver fed a whole read of bytes, as `GPSManager_update` feeds it. */
  method Feed(r: Receiver, bs: seq<byte>) returns (reports: seq<seq<byte>>)
    requires r.Valid()
    modifies r, r.buf
    ensures r.View() == After(old(r.View()), bs, |bs|)
    ensures reports == Reports(old(r.View()), bs, |bs|)
  {
    ghost var u := r.View();
    reports := [];
    for i := 0 to |bs|
      invariant r.View() == After(u, bs, i) && reports == Reports(u, bs, i)
    {
      var before := r.buf[..];
      var fired := r.ParseByte(bs[i]);
      if fired { reports := reports + [before]; }
    }
  }

  // ---------------------------------------------------------------- frames

  /** The two Fletcher sums of RFC 1145 in 8-bit arithmetic over a frame's bytes from the class
      byte up to `hi`. */
  function CkA(f: seq<byte>, hi: nat): byte
    requires hi <= |f|
  {
    if hi <= 2 then 0 else Add(CkA(f, hi - 1), f[hi - 1])
  }

  function CkB(f: seq<byte>, hi: nat): byte
    requires hi <= |f|
  {
    if hi <= 2 then 0 else Add(CkB(f, hi - 1), CkA(f, hi))
  }

  /** The frame structure: two sync bytes, class, id, little-endian length, payload, checksum. */
  predicate IsFrame(f: seq<byte>) {
    && |f| >= 8 && f[0] == SYNC1 && f[1] == SYNC2
    && |f| - 8 == f[4] as int + 256 * f[5] as int
    && f[|f| - 2] == CkA(f, |f| - 2) && f[|f| - 1] == CkB(f, |f| - 2)
  }

  predicate IsPvtFrame(f: seq<byte>) {
    IsFrame(f) && f[2] == NAV_CLASS && f[3] == NAV_PVT_ID && |f| == 8 + NAV_PVT_LEN
  }

  function Payload(f: seq<byte>): seq<byte>
    requires |f| >= 8
  {
    f[6..|f| - 2]
  }
}
