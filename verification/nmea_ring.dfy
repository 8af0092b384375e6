/** NMEA sentences and the ring that drains them: src/modules/meshtastic_interface.cpp. */
module NmeaRing {
  import opened Common

  /** A byte as the XOR of the checksum sees it. */
  type octet = bv8

  const TX_BUF_SIZE: nat := 320
  const CAPACITY: nat := 319
  const LINE_MAX: nat := 140
  const BYTES_PER_UPDATE: nat := 4

  function Min(a: nat, b: nat): nat {
    if a < b then a else b
  }

  /** A bounded queue takes the longest prefix that fits. */
  function Accepted(queue: seq<octet>, data: seq<octet>): seq<octet>
    requires |queue| <= CAPACITY
  {
    data[..Min(|data|, CAPACITY - |queue|)]
  }

  /** A body that the line buffer has room for. */
  predicate FitsLine(body: seq<octet>) {
    |body| + 1 < LINE_MAX - 6
  }

  /** Drained bytes per update. */
  function Drained(queue: seq<octet>): seq<octet> {
    queue[..Min(|queue|, BYTES_PER_UPDATE)]
  }

  /** Advancing an index of the ring. */
  lemma Wraps(i: nat)
    requires i < TX_BUF_SIZE
    ensures (i + 1) % TX_BUF_SIZE == if i + 1 == TX_BUF_SIZE then 0 else i + 1
  {
  }

  class TxRing {
    const buf: array<octet>
    var head: nat
    var tail: nat

    predicate Valid()
      reads this
    {
      buf.Length == TX_BUF_SIZE && head < TX_BUF_SIZE && tail < TX_BUF_SIZE
    }

    /** The bytes waiting, oldest first. */
    function Contents(): (s: seq<octet>)
      requires Valid()
      reads this, buf
      ensures |s| <= CAPACITY
    {
      if head >= tail then buf[tail..head] else buf[tail..] + buf[..head]
    }

    constructor ()
      ensures Valid() && fresh(buf) && Contents() == []
    {
      buf := new octet[TX_BUF_SIZE];
      head, tail := 0, 0;
    }

    method Put(b: octet) returns (stored: bool)
      requires Valid()
      modifies this, buf
      ensures Valid() && stored == (|old(Contents())| < CAPACITY)
      ensures Contents() == old(Contents()) + if stored then [b] else []
    {
      Wraps(head);
      var next := (head + 1) % TX_BUF_SIZE;
      if next == tail { return false; }
      buf[head] := b;
      head := next;
      return true;
    }

    method Enqueue(data: seq<octet>)
      requires Valid()
      modifies this, buf
      ensures Valid() && Contents() == old(Contents()) + Accepted(old(Contents()), data)
    {
      ghost var before := Contents();
      for i := 0 to |data|
        invariant Valid() && |before| + i <= CAPACITY && Contents() == before + data[..i]
      {
        var stored := Put(data[i]);
        if !stored { return; }
        assert before + data[..i] + [data[i]] == before + data[..i + 1];
      }
      assert data[..|data|] == data;
    }

    method Take() returns (b: octet)
      requires Valid() && tail != head
      modifies this
      ensures Valid() && old(Contents()) == [b] + Contents()
    {
      b := buf[tail];
      Wraps(tail);
      tail := (tail + 1) % TX_BUF_SIZE;
      if old(head) < old(tail) && old(tail) + 1 == TX_BUF_SIZE {
        assert old(Contents()) == [b] + buf[..head];
      }
    }

    method Update() returns (sent: seq<octet>)
      requires Valid()
      modifies this
      ensures Valid() && sent == Drained(old(Contents()))
      ensures Contents() == old(Contents())[|sent|..]
    {
      ghost var before := Contents();
      sent := [];
      var maxBytes := BYTES_PER_UPDATE;
      while maxBytes > 0 && tail != head
        invariant Valid() && 0 <= maxBytes <= BYTES_PER_UPDATE
        invariant |sent| == BYTES_PER_UPDATE - maxBytes <= |before|
        invariant sent == before[..|sent|] && Contents() == before[|sent|..]
        decreases maxBytes
      {
        maxBytes := maxBytes - 1;
        ghost var rest := Contents();
        var b := Take();
        assert before == sent + rest == sent + [b] + Contents();
        sent := sent + [b];
      }
    }

    /** Queue one sentence; a body that would not fit the line buffer is dropped. */
    method SendLine(body: seq<octet>)
      requires Valid()
      modifies this, buf
      ensures Valid()
      ensures Contents() == old(Contents()) +
                if !FitsLine(body) then [] else Accepted(old(Contents()), Sentence(body))
    {
      var cs: octet := 0;
      for i := 0 to |body|
        invariant cs == Checksum(body[..i])
      {
        assert body[..i + 1][..i] == body[..i];
        cs := cs ^ body[i];
      }
      assert body[..|body|] == body;
      if 1 + |body| >= LINE_MAX - 6 { return; }
      var line := [DOLLAR] + body + [STAR] + Hex(cs) + [13, 10];
      Enqueue(line);
    }
  }

  // ---------------------------------------------------------------- sentences

  const DOLLAR: octet := 36
  const STAR: octet := 42

  /** XOR of all bytes of a body. */
  function Checksum(body: seq<octet>): octet {
    if body == [] then 0 else Checksum(body[..|body| - 1]) ^ body[|body| - 1]
  }

  function HexDigit(n: octet): octet {
    if n < 10 then 48 + n else 55 + n
  }

  function Hex(b: octet): (s: seq<octet>)
    ensures |s| == 2
  {
    [HexDigit(b >> 4), HexDigit(b & 15)]
  }

  /** The number a hexadecimal digit in capitals stands for. */
  function HexValue(c: octet): Option<octet> {
    if 48 <= c <= 57 then Some(c - 48) else if 65 <= c <= 70 then Some(c - 55) else None
  }

  /** The two digits of a checksum are its high and low half, in capitals. */
  lemma HexReads(b: octet)
    ensures HexValue(Hex(b)[0]) == Some(b / 16) && HexValue(Hex(b)[1]) == Some(b % 16)
  {
  }

  /** The checksum is the XOR of the bytes. */
  lemma {:induction false} ChecksumIsXor(a: seq<octet>, b: seq<octet>)
    ensures Checksum([]) == 0 && (forall c: octet :: Checksum([c]) == c)
    ensures Checksum(a + b) == Checksum(a) ^ Checksum(b)
    decreases |b|
  {
    forall c: octet ensures Checksum([c]) == c {
      assert [c][..0] == [];
    }
    if b == [] {
      assert a + b == a;
    } else {
      var m := |b| - 1;
      assert (a + b)[..|a + b| - 1] == a + b[..m];
      ChecksumIsXor(a, b[..m]);
      XorGroups(Checksum(a), Checksum(b[..m]), b[m]);
    }
  }

  lemma XorGroups(x: octet, y: octet, z: octet)
    ensures (x ^ y) ^ z == x ^ (y ^ z)
  {
  }

  function Sentence(body: seq<octet>): (s: seq<octet>)
    ensures |s| == |body| + 6
  {
    [DOLLAR] + body + [STAR] + Hex(Checksum(body)) + [13, 10]
  }

  /** The length of the text before the first star. */
  function UpToStar(s: seq<octet>): nat {
    if s == [] || s[0] == STAR then 0 else 1 + UpToStar(s[1..])
  }

  lemma {:induction false} UpToStarBound(s: seq<octet>)
    ensures UpToStar(s) <= |s|
    decreases |s|
  {
    if s != [] && s[0] != STAR { UpToStarBound(s[1..]); }
  }

  /** What a receiver takes from a line: the body, if the line is framed and the checksum agrees. */
  function ReadSentence(line: seq<octet>): Option<seq<octet>> {
    if line == [] || line[0] != DOLLAR then None
    else
      var n := UpToStar(line[1..]);
      if |line| != n + 6 || line[n + 4..] != [13, 10] then None
      else
        var body := line[1..n + 1];
        if line[n + 2..n + 4] == Hex(Checksum(body)) then Some(body) else None
  }

  lemma {:induction false} StarEndsBody(body: seq<octet>, rest: seq<octet>)
    requires STAR !in body
    ensures UpToStar(body + [STAR] + rest) == |body|
    decreases |body|
  {
    var s := body + [STAR] + rest;
    if body != [] {
      assert s[1..] == body[1..] + [STAR] + rest;
      assert s[0] == body[0];
      StarEndsBody(body[1..], rest);
    }
  }

  /** A line carrying `body` and a checksum `cs` is read as `body` exactly when `cs` is its XOR. */
  lemma LineReadsBack(body: seq<octet>, cs: octet)
    requires STAR !in body
    ensures var line := [DOLLAR] + body + [STAR] + Hex(cs) + [13, 10];
      ReadSentence(line) == if cs == Checksum(body) then Some(body) else None
  {
    var line := [DOLLAR] + body + [STAR] + Hex(cs) + [13, 10];
    var n := |body|;
    assert line[1..] == body + [STAR] + (Hex(cs) + [13, 10]);
    StarEndsBody(body, Hex(cs) + [13, 10]);
    assert line[1..n + 1] == body;
    assert line[n + 2..n + 4] == Hex(cs);
    assert line[n + 4..] == [13, 10];
    HexIsInjective(cs, Checksum(body));
  }

  lemma HexIsInjective(a: octet, b: octet)
    ensures Hex(a) == Hex(b) <==> a == b
  {
  }

  /** Every sentence is read back as its body. */
  lemma SentenceReadsBack(body: seq<octet>)
    requires STAR !in body
    ensures ReadSentence(Sentence(body)) == Some(body)
  {
    LineReadsBack(body, Checksum(body));
  }

  lemma {:induction false} ChecksumChanged(body: seq<octet>, i: nat, c: octet)
    requires i < |body|
    ensures Checksum(body[i := c]) == Checksum(body) ^ body[i] ^ c
    decreases |body|
  {
    var m := |body| - 1;
    if i == m {
      assert body[i := c][..m] == body[..m];
      XorUndo(Checksum(body[..m]), body[m], c);
    } else {
      assert body[i := c][..m] == body[..m][i := c];
      ChecksumChanged(body[..m], i, c);
      XorSwap(Checksum(body[..m]), body[i], c, body[m]);
    }
  }

  lemma XorUndo(x: octet, y: octet, c: octet)
    ensures x ^ c == x ^ y ^ y ^ c
  {
  }

  lemma XorSwap(x: octet, y: octet, c: octet, z: octet)
    ensures (x ^ y ^ c) ^ z == (x ^ z) ^ y ^ c
  {
  }

  lemma XorDiffers(x: octet, y: octet, c: octet)
    requires y != c
    ensures x ^ y ^ c != x
  {
  }

  /** A sentence with one body byte changed to another that is no star is rejected. */
  lemma ByteErrorIsRejected(body: seq<octet>, i: nat, c: octet)
    requires STAR !in body && i < |body| && c != body[i] && c != STAR
    ensures ReadSentence(Sentence(body)[i + 1 := c]) == None
  {
    var bad := body[i := c];
    assert Sentence(body)[i + 1 := c] == [DOLLAR] + bad + [STAR] + Hex(Checksum(body)) + [13, 10];
    assert STAR !in bad;
    ChecksumChanged(body, i, c);
    XorDiffers(Checksum(body), body[i], c);
    LineReadsBack(bad, Checksum(body));
  }

  // ---------------------------------------------------------------- every interleaving

  datatype Op = Line(body: seq<octet>) | Drain

  /** What is waiting, what has been sent, and what has been accepted so far. */
  datatype Link = Link(queue: seq<octet>, sent: seq<octet>, accepted: seq<octet>)

  function Offered(op: Op): seq<octet> {
    if op.Drain? || !FitsLine(op.body) then [] else Sentence(op.body)
  }

  function Apply(l: Link, op: Op): (r: Link)
    requires |l.queue| <= CAPACITY
    ensures |r.queue| <= CAPACITY
  {
    match op
    case Line(_) =>
      var a := Accepted(l.queue, Offered(op));
      Link(l.queue + a, l.sent, l.accepted + a)
    case Drain =>
      Link(l.queue[|Drained(l.queue)|..], l.sent + Drained(l.queue), l.accepted)
  }

  function After(ops: seq<Op>, n: nat): (l: Link)
    requires n <= |ops|
    ensures |l.queue| <= CAPACITY
  {
    if n == 0 then Link([], [], []) else Apply(After(ops, n - 1), ops[n - 1])
  }

  /** The ring run through any interleaving of sentences and updates. */
  method RunLink(ops: seq<Op>) returns (ring: TxRing, sent: seq<octet>)
    ensures ring.Valid() && ring.Contents() == After(ops, |ops|).queue && sent == After(ops, |ops|).sent
  {
    ring := new TxRing();
    sent := [];
    for i := 0 to |ops|
      invariant ring.Valid() && fresh(ring) && fresh(ring.buf)
      invariant ring.Contents() == After(ops, i).queue && sent == After(ops, i).sent
    {
      match ops[i]
      case Line(body) =>
        ring.SendLine(body);
      case Drain =>
        var out := ring.Update();
        sent := sent + out;
    }
  }

  lemma Regroup(sent: seq<octet>, queue: seq<octet>, more: seq<octet>, n: nat)
    requires n <= |queue|
    ensures sent + (queue + more) == (sent + queue) + more
    ensures (sent + queue[..n]) + queue[n..] == sent + queue
  {
  }

  lemma ApplyConserves(l: Link, op: Op)
    requires |l.queue| <= CAPACITY && l.sent + l.queue == l.accepted
    ensures var r := Apply(l, op); r.sent + r.queue == r.accepted
  {
  }

  /** Nothing is lost, repeated or reordered: what was sent followed by what waits is what was
      accepted, in order. */
  lemma {:induction false} SentIsPrefixOfAccepted(ops: seq<Op>, n: nat)
    requires n <= |ops|
    ensures var l := After(ops, n); l.sent + l.queue == l.accepted
    decreases n
  {
    if n > 0 {
      SentIsPrefixOfAccepted(ops, n - 1);
      ApplyConserves(After(ops, n - 1), ops[n - 1]);
    }
  }

  /** An operation offers its bytes in order until the ring is full: what enters is a prefix of the
      sentence, and falls short of it only when 319 bytes wait. */
  lemma AcceptedIsLongestPrefix(l: Link, op: Op)
    requires |l.queue| <= CAPACITY && op.Line? && |op.body| <= 132
    ensures var a := Apply(l, op).queue[|l.queue|..];
      && Apply(l, op).queue == l.queue + a && Apply(l, op).accepted == l.accepted + a
      && |a| <= |Sentence(op.body)| && a == Sentence(op.body)[..|a|]
      && (|a| < |Sentence(op.body)| ==> |Apply(l, op).queue| == 319)
  {
  }

  /** A sentence enters the stream whole exactly when it fits beside what is waiting. */
  lemma AcceptedWholeExactly(l: Link, op: Op)
    requires |l.queue| <= CAPACITY
    ensures Apply(l, op).accepted == l.accepted + Offered(op) <==> |l.queue| + |Offered(op)| <= CAPACITY
  {
  }

  // ---------------------------------------------------------------- what a receiver recovers

  /** The place of the last dollar, or the length if there is none. */
  function LastDollar(s: seq<octet>): (i: nat)
    ensures i <= |s| && (i < |s| ==> s[i] == DOLLAR)
  {
    if s == [] then 0
    else
      var m := |s| - 1;
      if s[m] == DOLLAR then m
      else
        var i := LastDollar(s[..m]);
        if i == m then |s| else i
  }

  /** A receiver that starts a new line at every dollar, and keeps the lines it can read. */
  function ReadStream(s: seq<octet>): seq<seq<octet>>
    decreases |s|
  {
    var i := LastDollar(s);
    if i == |s| then []
    else ReadStream(s[..i]) + match ReadSentence(s[i..]) { case Some(body) => [body] case None => [] }
  }

  lemma {:induction false} DollarStarts(s: seq<octet>, c: seq<octet>)
    requires DOLLAR !in c
    ensures LastDollar(s + [DOLLAR] + c) == |s|
    decreases |c|
  {
    var all := s + [DOLLAR] + c;
    if c == [] {
      assert all[|all| - 1] == DOLLAR;
    } else {
      var m := |c| - 1;
      assert all[..|all| - 1] == s + [DOLLAR] + c[..m];
      assert all[|all| - 1] == c[m];
      DollarStarts(s, c[..m]);
    }
  }

  /** One more line, whole or cut short, adds what it reads as. */
  lemma LineAdds(s: seq<octet>, line: seq<octet>)
    requires line != [] && line[0] == DOLLAR && DOLLAR !in line[1..]
    ensures ReadStream(s + line) ==
              ReadStream(s) + match ReadSentence(line) { case Some(body) => [body] case None => [] }
  {
    assert line == [DOLLAR] + line[1..];
    assert s + line == s + [DOLLAR] + line[1..];
    DollarStarts(s, line[1..]);
    assert (s + line)[..|s|] == s && (s + line)[|s|..] == line;
  }

  predicate Clean(body: seq<octet>) {
    STAR !in body && DOLLAR !in body
  }

  lemma {:induction false} NoStarNoEnd(s: seq<octet>)
    requires STAR !in s
    ensures UpToStar(s) == |s|
    decreases |s|
  {
    if s != [] {
      assert forall x | x in s[1..] :: x in s;
      assert s[0] in s;
      NoStarNoEnd(s[1..]);
    }
  }

  lemma PrefixOfTail(body: seq<octet>, rest: seq<octet>, k: nat)
    requires k <= |body| + 1 + |rest|
    ensures (body + [STAR] + rest)[..k] ==
              if k <= |body| then body[..k] else body + [STAR] + rest[..k - |body| - 1]
  {
  }

  /** A sentence cut short is never read. */
  lemma CutShortIsRejected(body: seq<octet>, n: nat)
    requires Clean(body) && n < |Sentence(body)|
    ensures ReadSentence(Sentence(body)[..n]) == None
  {
    var line := Sentence(body)[..n];
    if n > 0 {
      var rest := Hex(Checksum(body)) + [13, 10];
      assert Sentence(body) == [DOLLAR] + (body + [STAR] + rest);
      assert line[1..] == (body + [STAR] + rest)[..n - 1];
      PrefixOfTail(body, rest, n - 1);
      if n <= |body| + 1 {
        NoStarNoEnd(line[1..]);
      } else {
        StarEndsBody(body, rest[..n - |body| - 2]);
      }
    }
  }

  lemma HexHasNoDollar(b: octet)
    ensures DOLLAR !in Hex(b)
  {
  }

  lemma SentenceHasOneDollar(body: seq<octet>, n: nat)
    requires Clean(body) && 0 < n <= |Sentence(body)|
    ensures var line := Sentence(body)[..n]; line[0] == DOLLAR && DOLLAR !in line[1..]
  {
    HexHasNoDollar(Checksum(body));
    var line := Sentence(body)[..n];
    var tail := body + [STAR] + Hex(Checksum(body)) + [13, 10];
    assert Sentence(body) == [DOLLAR] + tail;
    assert line[1..] == tail[..n - 1];
    assert DOLLAR !in tail;
  }

  /** The sentence that an operation gets into the ring whole, if any. */
  function Whole(l: Link, op: Op): seq<seq<octet>> {
    if op.Line? && |op.body| <= 132 && |l.queue| + |op.body| + 6 <= 319 then [op.body] else []
  }

  /** The sentences that the first `n` operations got into the ring whole, in order. */
  function Delivered(ops: seq<Op>, n: nat): seq<seq<octet>>
    requires n <= |ops|
  {
    if n == 0 then [] else Delivered(ops, n - 1) + Whole(After(ops, n - 1), ops[n - 1])
  }

  lemma OneMoreLine(s: seq<octet>, queue: seq<octet>, body: seq<octet>)
    requires Clean(body) && |queue| <= CAPACITY
    ensures ReadStream(s + Accepted(queue, Sentence(body))) ==
              ReadStream(s) + if |queue| + |Sentence(body)| <= CAPACITY then [body] else []
  {
    var line := Accepted(queue, Sentence(body));
    var n := |line|;
    if n == 0 {
      assert s + line == s;
    } else {
      SentenceHasOneDollar(body, n);
      LineAdds(s, line);
      if n < |Sentence(body)| {
        CutShortIsRejected(body, n);
      } else {
        assert line == Sentence(body);
        SentenceReadsBack(body);
      }
    }
  }

  predicate Legal(l: Link, op: Op) {
    |l.queue| <= CAPACITY && (op.Line? ==> Clean(op.body))
  }

  lemma OneMoreOp(l: Link, op: Op)
    requires Legal(l, op)
    ensures ReadStream(Apply(l, op).accepted) == ReadStream(l.accepted) + Whole(l, op)
  {
    if op.Line? && FitsLine(op.body) {
      OneMoreLine(l.accepted, l.queue, op.body);
    } else {
      assert Apply(l, op).accepted == l.accepted;
    }
  }

  predicate CleanUpTo(ops: seq<Op>, n: nat) {
    n <= |ops| && forall i | 0 <= i < n :: ops[i].Line? ==> Clean(ops[i].body)
  }

  predicate ReadsAs(s: seq<octet>, lines: seq<seq<octet>>) {
    ReadStream(s) == lines
  }

  lemma NothingIsRead()
    ensures ReadsAs([], [])
  {
    assert LastDollar([]) == 0;
  }

  lemma OpIsRead(ops: seq<Op>, i: nat)
    requires CleanUpTo(ops, i + 1) && ReadsAs(After(ops, i).accepted, Delivered(ops, i))
    ensures ReadsAs(After(ops, i + 1).accepted, Delivered(ops, i + 1))
  {
    OneMoreOp(After(ops, i), ops[i]);
  }

  lemma {:induction false} AcceptedIsRead(ops: seq<Op>, n: nat)
    requires CleanUpTo(ops, n)
    ensures ReadsAs(After(ops, n).accepted, Delivered(ops, n))
    decreases n
  {
    if n == 0 {
      NothingIsRead();
    } else {
      var i := n - 1;
      AcceptedIsRead(ops, i);
      OpIsRead(ops, i);
    }
  }

  /** End to end, over any interleaving: a receiver that starts anew at every dollar recovers from
      the stream exactly the sentences that entered the ring whole, in their order, and nothing
      from those that a full ring cut short. */
  lemma ReceiverRecovers(ops: seq<Op>, n: nat)
    requires CleanUpTo(ops, n)
    ensures var l := After(ops, n);
      ReadStream(l.sent + l.queue) == Delivered(ops, n) && (l.queue == [] ==> ReadStream(l.sent) == Delivered(ops, n))
  {
    var l := After(ops, n);
    SentIsPrefixOfAccepted(ops, n);
    AcceptedIsRead(ops, n);
    assert l.sent + [] == l.sent;
  }

  /** The link after `k` more updates. */
  function Drains(l: Link, k: nat): (r: Link)
    requires |l.queue| <= CAPACITY
    ensures |r.queue| <= CAPACITY
  {
    if k == 0 then l else Apply(Drains(l, k - 1), Drain)
  }

  /** The link after `n` of its waiting bytes have been sent. */
  function Sent(l: Link, n: nat): Link
    requires n <= |l.queue|
  {
    Link(l.queue[n..], l.sent + l.queue[..n], l.accepted)
  }

  lemma DrainOnce(l: Link, n: nat)
    requires n <= |l.queue| <= CAPACITY
    ensures Apply(Sent(l, n), Drain) == Sent(l, if |l.queue| - n < 4 then |l.queue| else n + 4)
  {
    var m := if |l.queue| - n < 4 then |l.queue| - n else 4;
    assert l.queue[n..][m..] == l.queue[n + m..];
    assert l.sent + l.queue[..n] + l.queue[n..][..m] == l.sent + l.queue[..n + m];
  }

  /** `k` updates send exactly the first four bytes each of what waits. */
  lemma {:induction false} DrainsSend(l: Link, k: nat)
    requires |l.queue| <= CAPACITY
    ensures Drains(l, k) == Sent(l, if 4 * k < |l.queue| then 4 * k else |l.queue|)
    decreases k
  {
    if k > 0 {
      DrainsSend(l, k - 1);
      DrainOnce(l, if 4 * (k - 1) < |l.queue| then 4 * (k - 1) else |l.queue|);
    } else {
      assert l.sent + l.queue[..0] == l.sent;
    }
  }

  /** What all the operations leave. */
  function Final(ops: seq<Op>): (l: Link)
    ensures |l.queue| <= CAPACITY
  {
    After(ops, |ops|)
  }

  function Updates(k: nat): seq<Op> {
    if k == 0 then [] else Updates(k - 1) + [Drain]
  }

  lemma {:induction false} PrefixAfter(ops: seq<Op>, all: seq<Op>, n: nat)
    requires n <= |ops| <= |all| && forall i | 0 <= i < |ops| :: ops[i] == all[i]
    ensures After(all, n) == After(ops, n)
    decreases n
  {
    if n > 0 { PrefixAfter(ops, all, n - 1); }
  }

  lemma FinalOneMore(ops: seq<Op>, op: Op)
    ensures Final(ops + [op]) == Apply(Final(ops), op)
  {
    PrefixAfter(ops, ops + [op], |ops|);
  }

  lemma {:induction false} FinalDrains(ops: seq<Op>, k: nat)
    ensures Final(ops + Updates(k)) == Drains(Final(ops), k)
    decreases k
  {
    if k == 0 {
      assert ops + Updates(k) == ops;
    } else {
      FinalDrains(ops, k - 1);
      assert ops + Updates(k) == (ops + Updates(k - 1)) + [Drain];
      FinalOneMore(ops + Updates(k - 1), Drain);
    }
  }

  lemma DrainsAll(l: Link, k: nat)
    requires |l.queue| <= CAPACITY && k >= 80
    ensures Drains(l, k) == Link([], l.sent + l.queue, l.accepted)
  {
    DrainsSend(l, k);
    assert l.queue[..|l.queue|] == l.queue;
  }

  /** Eighty updates send all that ever waits, so that every sentence the ring took whole reaches the
      receiver. */
  lemma EverySentenceArrives(ops: seq<Op>, k: nat)
    requires CleanUpTo(ops, |ops|) && k >= 80
    ensures Final(ops + Updates(k)).queue == []
    ensures ReadStream(Final(ops + Updates(k)).sent) == Delivered(ops, |ops|)
  {
    FinalDrains(ops, k);
    DrainsAll(Final(ops), k);
    ReceiverRecovers(ops, |ops|);
  }
}
