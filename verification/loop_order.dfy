/** The order in which a pass of `loop()` makes its calls: src/main.cpp. */
module LoopOrder {
  import opened Common
  import opened MainLoop

  /** Where in a pass the loop is. */
  datatype Phase =
    Started | Updated | Polled | Followed | Watched | BeforeTest | BeforeReport | Done

  predicate IsTick(e: Event) {
    e.Receive? && e.input.Tick?
  }

  /** The order of calls that `loop()` fixes; time may pass anywhere, and any number of inputs
      arrive between the polls and the follower. */
  function Next(ph: Phase, e: Event): Option<Phase> {
    if IsTick(e) then Some(ph)
    else
      match ph
      case Done => if e.BeginPass? then Some(Started) else None
      case Started => if e.PollUpdate? then Some(Updated) else None
      case Updated => if e.PollSurfacePower? then Some(Polled) else None
      case Polled => if e.Receive? then Some(Polled) else if e.FollowLua? then Some(Followed) else None
      case Followed => if e.PollBackstop? then Some(Watched) else None
      case Watched => if e.WatchState? then Some(BeforeTest) else None
      case BeforeTest => if e.ManualTest? then Some(BeforeReport) else None
      case BeforeReport => if e.AutoReport? then Some(Done) else None
  }

  /** The phase after `n` events that begin in phase `ph`, if they keep the order. */
  function PhaseAfter(ph: Phase, es: seq<Event>, n: nat): Option<Phase>
    requires n <= |es|
  {
    if n == 0 then Some(ph)
    else
      match PhaseAfter(ph, es, n - 1)
      case None => None
      case Some(q) => Next(q, es[n - 1])
  }

  lemma {:induction false} PhasePrefix(es: seq<Event>, j: nat, n: nat)
    requires j <= n <= |es| && PhaseAfter(Done, es, n).Some?
    ensures PhaseAfter(Done, es, j).Some?
    decreases n
  {
    if j < n { PhasePrefix(es, j, n - 1); }
  }

  lemma {:induction false} PhaseAppend(ph: Phase, es: seq<Event>, fs: seq<Event>, n: nat)
    requires n <= |es| + |fs|
    ensures PhaseAfter(ph, es + fs, n) ==
              if n <= |es| then PhaseAfter(ph, es, n)
              else match PhaseAfter(ph, es, |es|)
                   case None => None
                   case Some(q) => PhaseAfter(q, fs, n - |es|)
    decreases n
  {
    if n > 0 { PhaseAppend(ph, es, fs, n - 1); }
  }

  lemma {:induction false} InboxKeepsPolled(inbox: seq<Input>, n: nat)
    requires n <= |inbox|
    ensures PhaseAfter(Polled, Inbox(inbox), n) == Some(Polled)
    decreases n
  {
    if n > 0 { InboxKeepsPolled(inbox, n - 1); }
  }

  /** Stretches of events that keep the order can be put one after another. */
  lemma PhaseJoin(ph: Phase, es: seq<Event>, fs: seq<Event>, q: Phase)
    requires PhaseAfter(ph, es, |es|) == Some(q)
    ensures PhaseAfter(ph, es + fs, |es + fs|) == PhaseAfter(q, fs, |fs|)
  {
    PhaseAppend(ph, es, fs, |es| + |fs|);
  }

  lemma SectionPhases(p: Pass)
    ensures PhaseAfter(Done, HeadEvents(p), 5) == Some(Polled)
    ensures PhaseAfter(Polled, FollowEvents(p), 5) == Some(BeforeTest)
    ensures PhaseAfter(BeforeTest, TailEvents(p), 5) == Some(Done)
  {
    FivePhases(Done, HeadEvents(p));
    FivePhases(Polled, FollowEvents(p));
    FivePhases(BeforeTest, TailEvents(p));
  }

  lemma PassKeepsOrder(p: Pass)
    ensures PhaseAfter(Done, PassEvents(p), |PassEvents(p)|) == Some(Done)
  {
    var head, inbox, follow := HeadEvents(p), Inbox(p.inbox), FollowEvents(p);
    SectionPhases(p);
    InboxKeepsPolled(p.inbox, |p.inbox|);
    PhaseJoin(Done, head, inbox, Polled);
    PhaseJoin(Done, head + inbox, follow, Polled);
    PhaseJoin(Done, head + inbox + follow, TailEvents(p), BeforeTest);
  }

  lemma FivePhases(ph: Phase, es: seq<Event>)
    requires |es| == 5
    ensures PhaseAfter(ph, es, 5) ==
              match PhaseAfter(ph, es, 2)
              case None => None
              case Some(q) =>
                match Next(q, es[2])
                case None => None
                case Some(r) => match Next(r, es[3]) case None => None case Some(u) => Next(u, es[4])
    ensures PhaseAfter(ph, es, 2) ==
              match Next(ph, es[0]) case None => None case Some(q) => Next(q, es[1])
  {
    assert PhaseAfter(ph, es, 1) == Next(ph, es[0]);
    assert PhaseAfter(ph, es, 3) == match PhaseAfter(ph, es, 2) case None => None case Some(q) => Next(q, es[2]);
    assert PhaseAfter(ph, es, 4) == match PhaseAfter(ph, es, 3) case None => None case Some(q) => Next(q, es[3]);
  }

  /** All events of a run of passes. */
  function LoopEvents(ps: seq<Pass>): seq<Event> {
    if ps == [] then [] else LoopEvents(ps[..|ps| - 1]) + PassEvents(ps[|ps| - 1])
  }

  /** Any number of passes keeps the order. */
  lemma {:induction false} LoopKeepsOrder(ps: seq<Pass>)
    ensures PhaseAfter(Done, LoopEvents(ps), |LoopEvents(ps)|) == Some(Done)
    decreases |ps|
  {
    if ps != [] {
      var before, last := LoopEvents(ps[..|ps| - 1]), PassEvents(ps[|ps| - 1]);
      LoopKeepsOrder(ps[..|ps| - 1]);
      PassKeepsOrder(ps[|ps| - 1]);
      PhaseJoin(Done, before, last, Done);
    }
  }

  /** The firmware run for any number of passes after boot. */
  method RunFirmware(t: nat, ps: seq<Pass>) returns (f: Firmware)
    ensures fresh(f) && f.Valid() && f.View() == Run(Boot(t), LoopEvents(ps))
    ensures PhaseAfter(Done, LoopEvents(ps), |LoopEvents(ps)|) == Some(Done)
  {
    f := new Firmware(t);
    for i := 0 to |ps|
      invariant f.Valid() && fresh(f) && fresh(f.mission) && fresh(f.machine) && fresh(f.machine.relay) && fresh(f.schedule)
      invariant f.View() == Run(Boot(t), LoopEvents(ps[..i]))
    {
      f.Loop(ps[i]);
      RunAppend(Boot(t), LoopEvents(ps[..i]), PassEvents(ps[i]));
      assert ps[..i + 1][..i] == ps[..i];
    }
    assert ps[..|ps|] == ps;
    LoopKeepsOrder(ps);
  }
}
