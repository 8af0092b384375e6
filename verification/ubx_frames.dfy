/** Soundness, completeness, corruption and recovery of the UBX parser over every byte stream. */
module UbxFrames {
  import opened Common
  import opened UbxParser

  /** Little-endian length field of a partial frame. */
  function LengthOf(tail: seq<byte>): nat
    requires |tail| >= 6
  {
    tail[4] as int + 256 * tail[5] as int
  }

  /** The parser has just read `tail` as the beginning of a frame. */
  ghost predicate Matches(u: Parser, tail: seq<byte>) {
    && |u.buf| == NAV_PVT_LEN && u.st <= 8
    && (u.st <= 5 ==> |tail| == u.st)
    && (u.st >= 1 ==> |tail| >= 1 && tail[0] == SYNC1)
    && (u.st >= 2 ==> |tail| >= 2 && tail[1] == SYNC2)
    && (u.st >= 3 ==> |tail| >= 3 && tail[2] == u.cls)
    && (u.st >= 4 ==> |tail| >= 4 && tail[3] == u.id)
    && (u.st == 5 ==> tail[4] == u.len)
    && (3 <= u.st <= 6 ==> u.ckA == CkA(tail, |tail|) && u.ckB == CkB(tail, |tail|))
    && (u.st >= 6 ==> MatchesPayload(u, tail))
  }

  ghost predicate MatchesPayload(u: Parser, tail: seq<byte>)
    requires |u.buf| == NAV_PVT_LEN
  {
    && 6 <= |tail| && u.len == LengthOf(tail) && 6 + u.idx <= |tail|
    && (u.st == 6 ==> u.idx < u.len && |tail| == 6 + u.idx)
    && (u.st >= 7 ==> u.idx == u.len && |tail| == u.st - 1 + u.len
                      && u.ckA == CkA(tail, 6 + u.len) && u.ckB == CkB(tail, 6 + u.len))
    && (u.st == 8 ==> tail[6 + u.len] == u.ckA)
    && (IsPvt(u) ==> forall i | 0 <= i < u.idx && i < NAV_PVT_LEN :: u.buf[i] == tail[6 + i])
  }

  /** What remains of the frame in progress after one more byte. */
  function NextTail(u: Parser, tail: seq<byte>, b: byte): seq<byte>
    requires |u.buf| == NAV_PVT_LEN
  {
    if Step(u, b).st == 0 then [] else tail + [b]
  }

  /** The sums look only at the bytes they cover. */
  lemma {:induction false} SumsOfPrefix(s: seq<byte>, t: seq<byte>, hi: nat)
    requires hi <= |s| <= |t| && forall i | 0 <= i < hi :: s[i] == t[i]
    ensures CkA(s, hi) == CkA(t, hi) && CkB(s, hi) == CkB(t, hi)
    decreases hi
  {
    if hi > 2 { SumsOfPrefix(s, t, hi - 1); }
  }

  lemma SyncStep(u: Parser, tail: seq<byte>, b: byte)
    requires Matches(u, tail) && u.st <= 2
    ensures Matches(Step(u, b), NextTail(u, tail, b))
  {
  }

  lemma HeaderStep(u: Parser, tail: seq<byte>, b: byte)
    requires Matches(u, tail) && 3 <= u.st <= 5
    ensures Matches(Step(u, b), NextTail(u, tail, b))
  {
    SumsOfPrefix(tail, tail + [b], |tail|);
  }

  lemma PayloadStep(u: Parser, tail: seq<byte>, b: byte)
    requires Matches(u, tail) && u.st == 6
    ensures Matches(Step(u, b), NextTail(u, tail, b))
  {
    SumsOfPrefix(tail, tail + [b], |tail|);
    assert u.len < 0x1_0000;
    assert Step(u, b).idx == u.idx + 1;
  }

  lemma StepMatches(u: Parser, tail: seq<byte>, b: byte)
    requires Matches(u, tail)
    ensures Matches(Step(u, b), NextTail(u, tail, b))
  {
    if u.st <= 2 {
      SyncStep(u, tail, b);
    } else if u.st <= 5 {
      HeaderStep(u, tail, b);
    } else if u.st == 6 {
      PayloadStep(u, tail, b);
    } else if u.st == 7 && b == u.ckA {
      SumsOfPrefix(tail, tail + [b], |tail|);
    }
  }

  /** Given what it has read, the parser fires on exactly the byte that completes a well-formed
      position frame, and its buffer then holds that frame's payload. */
  lemma FiresOnFrame(u: Parser, tail: seq<byte>, b: byte)
    requires Matches(u, tail)
    ensures Fires(u, b) ==> |tail| == 99 && IsPvtFrame(tail + [b]) && u.buf == Payload(tail + [b])
    ensures u.st != 0 && IsPvtFrame(tail + [b]) ==> Fires(u, b)
  {
    var f := tail + [b];
    if u.st == 8 {
      SumsOfPrefix(tail, f, 6 + u.len);
      if Fires(u, b) { assert Payload(f) == u.buf; }
    }
    if u.st != 0 && IsPvtFrame(f) {
      assert u.st >= 6 && LengthOf(tail) == 92;
      assert u.st == 8;
    }
  }

  /** A parser between frames, as after reset, whatever its buffer holds. */
  ghost predicate Idle(u: Parser) {
    Matches(u, []) && u.st == 0
  }

  /** The bytes of the frame in progress after `n` bytes of a stream. */
  function Tail(u: Parser, bs: seq<byte>, n: nat): seq<byte>
    requires |u.buf| == NAV_PVT_LEN && n <= |bs|
  {
    if n == 0 then [] else NextTail(After(u, bs, n - 1), Tail(u, bs, n - 1), bs[n - 1])
  }

  /** The frame in progress is the stretch of the stream since the parser was last idle. */
  lemma {:induction false} TailIsSuffix(u: Parser, bs: seq<byte>, n: nat) returns (start: nat)
    requires |u.buf| == NAV_PVT_LEN && u.st == 0 && n <= |bs|
    ensures start <= n && Tail(u, bs, n) == bs[start..n] && After(u, bs, start).st == 0
    decreases n
  {
    start := n;
    if n > 0 && After(u, bs, n).st != 0 {
      start := TailIsSuffix(u, bs, n - 1);
      Grow(bs, start, n);
    }
  }

  lemma Grow(bs: seq<byte>, start: nat, n: nat)
    requires start < n <= |bs|
    ensures bs[start..n - 1] + [bs[n - 1]] == bs[start..n]
  {
  }

  /** And the parser's state is what that stretch makes it. */
  lemma {:induction false} TailMatches(u: Parser, bs: seq<byte>, n: nat)
    requires Idle(u) && n <= |bs|
    ensures Matches(After(u, bs, n), Tail(u, bs, n))
    decreases n
  {
    if n > 0 {
      TailMatches(u, bs, n - 1);
      StepMatches(After(u, bs, n - 1), Tail(u, bs, n - 1), bs[n - 1]);
    }
  }

  // ---------------------------------------------------------------- frames from an idle parser

  /** A byte that continues a well-formed frame keeps the parser inside it. */
  lemma FrameContinues(u: Parser, f: seq<byte>, j: nat)
    requires IsFrame(f) && j + 1 < |f| && Matches(u, f[..j]) && (j > 0 ==> u.st != 0)
    ensures Step(u, f[j]).st != 0 && NextTail(u, f[..j], f[j]) == f[..j + 1]
  {
    if u.st >= 6 { assert LengthOf(f[..j]) == |f| - 8; }
    if u.st == 7 { SumsOfPrefix(f[..j], f, 6 + u.len); }
  }

  /** A frame occupies bytes `k` up to `k + |f|` of the stream. */
  predicate Holds(bs: seq<byte>, k: nat, f: seq<byte>) {
    k + |f| <= |bs| && forall i | 0 <= i < |f| :: f[i] == bs[k + i]
  }

  lemma InsideStep(u: Parser, bs: seq<byte>, n: nat, f: seq<byte>, j: nat)
    requires |u.buf| == NAV_PVT_LEN && n < |bs|
    requires IsFrame(f) && j + 1 < |f| && bs[n] == f[j]
    requires Tail(u, bs, n) == f[..j] && Matches(After(u, bs, n), f[..j]) && (j > 0 ==> After(u, bs, n).st != 0)
    ensures Tail(u, bs, n + 1) == f[..j + 1] && Matches(After(u, bs, n + 1), f[..j + 1])
    ensures After(u, bs, n + 1).st != 0
  {
    var v := After(u, bs, n);
    FrameContinues(v, f, j);
    StepMatches(v, f[..j], f[j]);
  }

  /** Inside a frame that began while it was idle, the parser has read just that frame. */
  lemma {:induction false} InsideFrame(u: Parser, bs: seq<byte>, k: nat, f: seq<byte>, j: nat)
    requires Idle(u) && IsFrame(f) && Holds(bs, k, f) && After(u, bs, k).st == 0
    requires j < |f|
    ensures Tail(u, bs, k + j) == f[..j] && Matches(After(u, bs, k + j), f[..j])
    ensures j > 0 ==> After(u, bs, k + j).st != 0
    decreases j
  {
    if j == 0 {
      TailMatches(u, bs, k);
      assert f[..0] == [];
    } else {
      var i := j - 1;
      InsideFrame(u, bs, k, f, i);
      assert f[i] == bs[k + i];
      InsideStep(u, bs, k + i, f, i);
    }
  }

  // ---------------------------------------------------------------- main results

  /** The frame of 100 bytes that ends with byte `n` began while the parser was idle. */
  ghost predicate PvtFrameEndsAt(u: Parser, bs: seq<byte>, n: nat)
    requires |u.buf| == NAV_PVT_LEN && n < |bs|
  {
    n >= 99 && IsPvtFrame(bs[n - 99..n + 1]) && After(u, bs, n - 99).st == 0
  }

  lemma PayloadLies(bs: seq<byte>, n: nat)
    requires 99 <= n < |bs|
    ensures Payload(bs[n - 99..n + 1]) == bs[n - 93..n - 1]
  {
    var f := bs[n - 99..n + 1];
    forall i | 0 <= i < 92 ensures Payload(f)[i] == bs[n - 93..n - 1][i] {
      assert Payload(f)[i] == f[6 + i] == bs[n - 93 + i];
    }
  }

  lemma FiresOnlyOnFrames(u: Parser, bs: seq<byte>, n: nat)
    requires Idle(u) && n < |bs| && FiresAt(u, bs, n)
    ensures PvtFrameEndsAt(u, bs, n) && After(u, bs, n).buf == bs[n - 93..n - 1]
  {
    var tail := Tail(u, bs, n);
    var start := TailIsSuffix(u, bs, n);
    TailMatches(u, bs, n);
    FiresOnFrame(After(u, bs, n), tail, bs[n]);
    Grow(bs, start, n + 1);
    PayloadLies(bs, n);
  }

  lemma FiresOnEveryFrame(u: Parser, bs: seq<byte>, n: nat)
    requires Idle(u) && n < |bs| && PvtFrameEndsAt(u, bs, n)
    ensures FiresAt(u, bs, n)
  {
    var f := bs[n - 99..n + 1];
    InsideFrame(u, bs, n - 99, f, 99);
    assert f[..99] + [bs[n]] == f;
    FiresOnFrame(After(u, bs, n), f[..99], bs[n]);
  }

  /** Soundness and completeness over any stream: the parser fires at exactly the ends of
      well-formed position frames that began while it was idle, holding their payload. */
  lemma FiresExactly(u: Parser, bs: seq<byte>, n: nat)
    requires Idle(u) && n < |bs|
    ensures FiresAt(u, bs, n) <==> PvtFrameEndsAt(u, bs, n)
    ensures FiresAt(u, bs, n) ==> After(u, bs, n).buf == bs[n - 93..n - 1]
  {
    if FiresAt(u, bs, n) { FiresOnlyOnFrames(u, bs, n); }
    if PvtFrameEndsAt(u, bs, n) { FiresOnEveryFrame(u, bs, n); }
  }

  /** An idle parser takes in any well-formed frame whole: it is idle again at its end and has
      handed on the payload exactly when the frame is a position report. */
  lemma FrameIsTaken(u: Parser, bs: seq<byte>, k: nat, f: seq<byte>)
    requires Idle(u) && IsFrame(f) && Holds(bs, k, f) && After(u, bs, k).st == 0
    ensures After(u, bs, k + |f|).st == 0
    ensures Reports(u, bs, k + |f|) == Reports(u, bs, k) + if IsPvtFrame(f) then [Payload(f)] else []
  {
    var m := |f| - 1;
    NoReportInside(u, bs, k, f, m);
    InsideFrame(u, bs, k, f, m);
    assert bs[k + m] == f[m];
    LastStep(u, bs, k + m, k + |f|, f, m);
  }

  lemma LastStep(u: Parser, bs: seq<byte>, n: nat, e: nat, f: seq<byte>, m: nat)
    requires |u.buf| == NAV_PVT_LEN && n + 1 == e <= |bs| && IsFrame(f) && m == |f| - 1 && bs[n] == f[m]
    requires Matches(After(u, bs, n), f[..m]) && After(u, bs, n).st != 0
    ensures After(u, bs, e).st == 0
    ensures Reports(u, bs, e) == Reports(u, bs, n) + if IsPvtFrame(f) then [Payload(f)] else []
  {
    OneByte(u, bs, n, e);
    LastByte(After(u, bs, n), f, m);
  }

  lemma OneByte(u: Parser, bs: seq<byte>, n: nat, e: nat)
    requires |u.buf| == NAV_PVT_LEN && n + 1 == e <= |bs|
    ensures After(u, bs, e) == Step(After(u, bs, n), bs[n])
    ensures Reports(u, bs, e) ==
              Reports(u, bs, n) + if Fires(After(u, bs, n), bs[n]) then [After(u, bs, n).buf] else []
  {
  }

  /** What the last byte of a frame does. */
  lemma LastByte(u: Parser, f: seq<byte>, m: nat)
    requires IsFrame(f) && m == |f| - 1 && Matches(u, f[..m]) && u.st != 0
    ensures Step(u, f[m]).st == 0
    ensures Fires(u, f[m]) <==> IsPvtFrame(f)
    ensures Fires(u, f[m]) ==> u.buf == Payload(f)
  {
    var tail := f[..m];
    assert tail + [f[m]] == f;
    FiresOnFrame(u, tail, f[m]);
    if u.st >= 6 { assert LengthOf(tail) == |f| - 8; }
  }

  /** A byte inside a frame is never the end of a position report. */
  lemma InnerByte(u: Parser, f: seq<byte>, j: nat)
    requires IsFrame(f) && j + 1 < |f| && Matches(u, f[..j])
    ensures !Fires(u, f[j])
  {
  }

  lemma {:induction false} NoReportInside(u: Parser, bs: seq<byte>, k: nat, f: seq<byte>, j: nat)
    requires Idle(u) && IsFrame(f) && Holds(bs, k, f) && After(u, bs, k).st == 0 && j < |f|
    ensures Reports(u, bs, k + j) == Reports(u, bs, k)
    decreases j
  {
    if j > 0 {
      var i := j - 1;
      NoReportInside(u, bs, k, f, i);
      InsideFrame(u, bs, k, f, i);
      assert f[i] == bs[k + i];
      InnerByte(After(u, bs, k + i), f, i);
    }
  }

  function Concat(fs: seq<seq<byte>>): seq<byte> {
    if fs == [] then [] else Concat(fs[..|fs| - 1]) + fs[|fs| - 1]
  }

  /** The payloads of the position reports among the frames, in order. */
  function PvtPayloads(fs: seq<seq<byte>>): seq<seq<byte>> {
    if fs == [] then []
    else
      var f := fs[|fs| - 1];
      PvtPayloads(fs[..|fs| - 1]) + if IsPvtFrame(f) then [Payload(f)] else []
  }

  lemma {:induction false} PrefixReports(u: Parser, a: seq<byte>, b: seq<byte>, n: nat)
    requires |u.buf| == NAV_PVT_LEN && n <= |a|
    ensures After(u, a + b, n) == After(u, a, n) && Reports(u, a + b, n) == Reports(u, a, n)
    decreases n
  {
    if n > 0 { PrefixReports(u, a, b, n - 1); }
  }

  lemma OneMoreFrame(u: Parser, before: seq<byte>, f: seq<byte>)
    requires Idle(u) && IsFrame(f) && After(u, before, |before|).st == 0
    ensures After(u, before + f, |before + f|).st == 0
    ensures Reports(u, before + f, |before + f|) ==
              Reports(u, before, |before|) + if IsPvtFrame(f) then [Payload(f)] else []
  {
    PrefixReports(u, before, f, |before|);
    FrameIsTaken(u, before + f, |before|, f);
  }

  /** Frames of any class and length, back to back, yield exactly their position payloads. */
  lemma {:induction false} FrameStreamIsDecoded(u: Parser, fs: seq<seq<byte>>)
    requires Idle(u) && forall i | 0 <= i < |fs| :: IsFrame(fs[i])
    ensures Reports(u, Concat(fs), |Concat(fs)|) == PvtPayloads(fs)
    ensures After(u, Concat(fs), |Concat(fs)|).st == 0
    decreases |fs|
  {
    if fs != [] {
      FrameStreamIsDecoded(u, fs[..|fs| - 1]);
      OneMoreFrame(u, Concat(fs[..|fs| - 1]), fs[|fs| - 1]);
    }
  }

  /** A message as the receiver sends it. */
  function MakeFrame(cls: byte, id: byte, payload: seq<byte>): seq<byte>
    requires |payload| < 0x1_0000
  {
    var head := [SYNC1, SYNC2, cls, id, |payload| % 256, |payload| / 256] + payload;
    head + [CkA(head, |head|), CkB(head, |head|)]
  }

  /** Sending and parsing are inverse: position payloads of any content come out as they went in,
      and messages of another class, id or length come out as nothing. */
  lemma SentPayloadComesBack(u: Parser, cls: byte, id: byte, payload: seq<byte>)
    requires Idle(u) && |payload| < 0x1_0000
    ensures var f := MakeFrame(cls, id, payload);
      && IsFrame(f) && After(u, f, |f|).st == 0
      && Reports(u, f, |f|) ==
           if cls == NAV_CLASS && id == NAV_PVT_ID && |payload| == NAV_PVT_LEN then [payload] else []
  {
    var f := MakeFrame(cls, id, payload);
    SumsOfPrefix(f[..|f| - 2], f, |f| - 2);
    assert f[..|f| - 2] == [SYNC1, SYNC2, cls, id, |payload| % 256, |payload| / 256] + payload;
    assert IsFrame(f);
    assert Payload(f) == payload;
    FrameIsTaken(u, f, 0, f);
  }

  /** Completeness needs the parser to be idle when the frame begins: after a stray first sync
      byte it takes the frame's own for the second, drops both, and misses the frame. */
  lemma StraySyncLosesFrame(u: Parser, f: seq<byte>)
    requires Idle(u) && IsPvtFrame(f) && SYNC1 !in f[1..]
    ensures Reports(u, [SYNC1] + f, 101) == []
  {
    var bs := [SYNC1] + f;
    assert After(u, bs, 1).st == 1;
    assert After(u, bs, 2).st == 0;
    StaysIdle(u, bs, 2, 101);
    assert Reports(u, bs, 1) == [];
    assert Reports(u, bs, 2) == [];
  }

  lemma {:induction false} StaysIdle(u: Parser, bs: seq<byte>, k: nat, n: nat)
    requires |u.buf| == NAV_PVT_LEN && k <= n <= |bs| && After(u, bs, k).st == 0
    requires forall i | k <= i < n :: bs[i] != SYNC1
    ensures After(u, bs, n).st == 0 && Reports(u, bs, n) == Reports(u, bs, k)
    decreases n
  {
    if k < n { StaysIdle(u, bs, k, n - 1); }
  }

  // ---------------------------------------------------------------- corruption

  /** The sums without the reduction to eight bits. */
  function SumA(f: seq<byte>, hi: nat): int
    requires hi <= |f|
  {
    if hi <= 2 then 0 else SumA(f, hi - 1) + f[hi - 1] as int
  }

  function SumB(f: seq<byte>, hi: nat): int
    requires hi <= |f|
  {
    if hi <= 2 then 0 else SumB(f, hi - 1) + SumA(f, hi)
  }

  lemma AddIsMod(x: int, y: int)
    ensures Add(x % 256, y % 256) == (x + y) % 256
  {
  }

  lemma {:induction false} ChecksumsAreSums(f: seq<byte>, hi: nat)
    requires hi <= |f|
    ensures CkA(f, hi) == SumA(f, hi) % 256 && CkB(f, hi) == SumB(f, hi) % 256
    decreases hi
  {
    if hi > 2 {
      var b: byte := f[hi - 1];
      ChecksumsAreSums(f, hi - 1);
      AddIsMod(SumA(f, hi - 1), b);
      assert b % 256 == b;
      AddIsMod(SumB(f, hi - 1), SumA(f, hi));
    }
  }

  /** Changing one byte moves the first sum by the difference. */
  lemma {:induction false} SumAChanged(f: seq<byte>, hi: nat, i: nat, c: byte)
    requires hi <= |f| && i < |f|
    ensures SumA(f[i := c], hi) == SumA(f, hi) + if 2 <= i < hi then c as int - f[i] as int else 0
    decreases hi
  {
    if hi > 2 { SumAChanged(f, hi - 1, i, c); }
  }

  function Swapped(f: seq<byte>, i: nat): seq<byte>
    requires i + 1 < |f|
  {
    f[i := f[i + 1]][i + 1 := f[i]]
  }

  /** Swapping two neighbours keeps the first sum and moves the second by their difference. */
  lemma {:induction false} SumsSwapped(f: seq<byte>, hi: nat, i: nat)
    requires hi <= |f| && 2 <= i && i + 1 < |f|
    ensures var d := f[i + 1] as int - f[i] as int;
      && SumA(Swapped(f, i), hi) == SumA(f, hi) + (if hi == i + 1 then d else 0)
      && SumB(Swapped(f, i), hi) == SumB(f, hi) + if hi >= i + 1 then d else 0
    decreases hi
  {
    if hi > 2 { SumsSwapped(f, hi - 1, i); }
  }

  /** No byte sequence of a frame's length makes an idle parser fire unless it is itself a
      well-formed position frame. */
  lemma OnlyFramesFire(u: Parser, g: seq<byte>, n: nat)
    requires Idle(u) && |g| == 100 && !IsPvtFrame(g) && n < 100
    ensures !FiresAt(u, g, n)
  {
    FiresExactly(u, g, n);
    if n == 99 { assert g[0..100] == g; }
  }

  lemma ModDiffers(x: int, y: int)
    requires x != y && -256 < y - x < 256
    ensures x % 256 != y % 256
  {
  }

  /** A position frame with any one of its hundred bytes changed is never reported. */
  lemma AnyByteErrorIsRejected(u: Parser, f: seq<byte>, i: nat, c: byte, n: nat)
    requires Idle(u) && IsPvtFrame(f) && i < 100 && c != f[i] && n < 100
    ensures !FiresAt(u, f[i := c], n)
  {
    var g := f[i := c];
    if IsPvtFrame(g) {
      SumAChanged(f, 98, i, c);
      ChecksumsAreSums(f, 98);
      ChecksumsAreSums(g, 98);
      if i < 98 && SumA(f, 98) != SumA(g, 98) { ModDiffers(SumA(f, 98), SumA(g, 98)); }
      if i >= 98 { SumsOfPrefix(f, g, 98); }
    }
    OnlyFramesFire(u, g, n);
  }

  /** Nor is one with two differing neighbours of its payload swapped. */
  lemma SwapIsRejected(u: Parser, f: seq<byte>, i: nat, n: nat)
    requires Idle(u) && IsPvtFrame(f) && 6 <= i < 97 && f[i] != f[i + 1] && n < 100
    ensures !FiresAt(u, Swapped(f, i), n)
  {
    var g := Swapped(f, i);
    if IsPvtFrame(g) {
      SumsSwapped(f, 98, i);
      ChecksumsAreSums(f, 98);
      ChecksumsAreSums(g, 98);
      ModDiffers(SumB(f, 98), SumB(g, 98));
    }
    OnlyFramesFire(u, g, n);
  }

  // ---------------------------------------------------------------- a frame that is lost

  const NO_FIX: seq<byte> := seq(NAV_PVT_LEN, _ => 0)

  lemma {:induction false} SumsOfNoFix(f: seq<byte>, hi: nat)
    requires |f| == 98 && f[..6] == [SYNC1, SYNC2, NAV_CLASS, NAV_PVT_ID, 92, 0] && f[6..] == NO_FIX
    requires 6 <= hi <= 98
    ensures SumA(f, hi) == 100 && SumB(f, hi) == 209 + 100 * (hi - 6)
    decreases hi
  {
    if hi > 6 {
      SumsOfNoFix(f, hi - 1);
      assert f[hi - 1] == f[6..][hi - 7] == 0;
    } else {
      assert f[2] == f[..6][2] && f[3] == f[..6][3] && f[4] == f[..6][4] && f[5] == f[..6][5];
      assert SumA(f, 3) == 1 && SumB(f, 3) == 1;
      assert SumA(f, 4) == 8 && SumB(f, 4) == 9;
      assert SumA(f, 5) == 100 && SumB(f, 5) == 109;
    }
  }

  /** Such a frame exists: the report of a receiver without a fix, all fields zero. */
  lemma LostFrame(u: Parser) returns (f: seq<byte>)
    requires Idle(u)
    ensures f == MakeFrame(NAV_CLASS, NAV_PVT_ID, NO_FIX)
    ensures Reports(u, f, 100) == [NO_FIX] && Reports(u, [SYNC1] + f, 101) == []
  {
    f := MakeFrame(NAV_CLASS, NAV_PVT_ID, NO_FIX);
    SentPayloadComesBack(u, NAV_CLASS, NAV_PVT_ID, NO_FIX);
    var head := f[..98];
    assert head == [SYNC1, SYNC2, NAV_CLASS, NAV_PVT_ID, 92, 0] + NO_FIX;
    assert head[..6] == [SYNC1, SYNC2, NAV_CLASS, NAV_PVT_ID, 92, 0] && head[6..] == NO_FIX;
    SumsOfNoFix(head, 98);
    ChecksumsAreSums(head, 98);
    assert f == head + [100, 193];
    forall i | 1 <= i < 100 ensures f[i] != SYNC1 {
      if 6 <= i < 98 { assert f[i] == head[6..][i - 6]; } else if i < 6 { assert f[i] == head[..6][i]; }
    }
    StraySyncLosesFrame(u, f);
  }

  // ---------------------------------------------------------------- recovery

  /** Bytes after which the parser is idle again at the latest. */
  function Remaining(u: Parser): nat {
    match u.st
    case 0 => 0
    case 1 => 65543
    case 2 => 65542
    case 3 => 65541
    case 4 => 65540
    case 5 => 65539
    case 6 => 2 + if u.idx < u.len then u.len - u.idx else 0
    case 7 => 2
    case _ => 1
  }

  /** Every byte of a frame in progress brings the parser nearer to idle. */
  lemma RemainingShrinks(u: Parser, tail: seq<byte>, b: byte)
    requires Matches(u, tail) && u.st != 0
    ensures Remaining(Step(u, b)) < Remaining(u) <= 65543
    ensures u.st >= 2 ==> Remaining(u) <= 65535 + 7
  {
  }

  /** From any reachable state the parser is idle again within the remaining bytes, whatever
      they are. */
  lemma {:induction false} AlwaysRecovers(u: Parser, bs: seq<byte>, n: nat)
    requires Idle(u) && n <= |bs| && n + Remaining(After(u, bs, n)) <= |bs|
    ensures Remaining(After(u, bs, n)) <= 65543
    ensures exists m :: n <= m <= n + Remaining(After(u, bs, n)) && After(u, bs, m).st == 0
    decreases |bs| - n
  {
    TailMatches(u, bs, n);
    var v := After(u, bs, n);
    if v.st == 0 {
      assert n <= n <= n + Remaining(v) && After(u, bs, n).st == 0;
    } else {
      RemainingShrinks(v, Tail(u, bs, n), bs[n]);
      assert After(u, bs, n + 1) == Step(v, bs[n]);
      AlwaysRecovers(u, bs, n + 1);
    }
  }
}
