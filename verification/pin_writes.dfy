/** Runs of writes to output pins, and what holds at every moment of them. */
module PinWrites {

  /** What the writes make of a state. */
  function Replay<S, W>(apply: (S, W) -> S, s: S, ws: seq<W>): S
    decreases |ws|
  {
    if ws == [] then s else Replay(apply, apply(s, ws[0]), ws[1..])
  }

  /** Something holds before, between and after all the writes. */
  predicate Throughout<S, W>(apply: (S, W) -> S, holds: S -> bool, s: S, ws: seq<W>)
    decreases |ws|
  {
    holds(s) && (ws != [] ==> Throughout(apply, holds, apply(s, ws[0]), ws[1..]))
  }

  lemma {:induction false} ReplayAppend<S, W>(apply: (S, W) -> S, holds: S -> bool, s: S, a: seq<W>, b: seq<W>)
    ensures Replay(apply, s, a + b) == Replay(apply, Replay(apply, s, a), b)
    ensures Throughout(apply, holds, s, a + b) <==>
              Throughout(apply, holds, s, a) && Throughout(apply, holds, Replay(apply, s, a), b)
    decreases |a|
  {
    if a == [] {
      assert a + b == b;
    } else {
      assert (a + b)[1..] == a[1..] + b;
      ReplayAppend(apply, holds, apply(s, a[0]), a[1..], b);
    }
  }

  lemma Two<S, W>(apply: (S, W) -> S, holds: S -> bool, s: S, ws: seq<W>)
    requires |ws| == 2
    ensures Replay(apply, s, ws) == apply(apply(s, ws[0]), ws[1])
    ensures Throughout(apply, holds, s, ws) <==>
              holds(s) && holds(apply(s, ws[0])) && holds(apply(apply(s, ws[0]), ws[1]))
  {
    var q, r := apply(s, ws[0]), ws[1..];
    assert r[0] == ws[1] && r[1..] == [];
    assert Replay(apply, q, r) == Replay(apply, apply(q, r[0]), []);
    assert Throughout(apply, holds, q, r) <==> holds(q) && Throughout(apply, holds, apply(q, r[0]), []);
  }
}
