/** Back-pressure on EP2-IN does not stop the receive side: what one call of midi_rx_pump leaves behind,
    and how often the main loop must come round so that nothing is dropped. */
module RxProgress {
  import opened Bytes
  import opened Rings
  import opened RxPipeline
  import opened RxInvariant
  import opened RxTheorems

  /** The two tests that stop the draining of a port. */
  predicate Empty(d: Rx, p: nat)
    requires p < |d.fifo|
  {
    d.fifo[p].head == d.fifo[p].tail
  }

  predicate Full(d: Rx)
    requires d.ring.Sized()
  {
    d.ring.Count() > RX_RING_SIZE - 1 - 4
  }

  // ---- One call --------------------------------------------------------------------------

  /** How far a call has come: the number of ports passed. */
  function Passed(pc: Pc): nat {
    match pc case Ship => PORTS + 1 case _ => pc.port
  }

  /** The ports already drained are empty, or the shared ring has no room for a packet. */
  ghost predicate Drained(s: System)
    requires Shape(s)
  {
    match s.pc
    case Poll(p) => forall q :: 0 <= q < p ==> Empty(s.dev, q) || Full(s.dev)
    case Ship => forall q :: 0 <= q < PORTS ==> Empty(s.dev, q) || Full(s.dev)
    case _ => forall q :: 0 <= q < s.pc.port ==> Empty(s.dev, q)
  }

  lemma DrainStep(s: System, a: Action)
    requires Shape(s) && Drained(s) && !a.Timer?
    ensures Drained(Next(s, a))
  {
    hide Ring.PutAll, Ring.Contents, Ring.Count, ShipLoop, AllDropped;
    var r := Next(s, a);
    forall q | 0 <= q < PORTS && q < Passed(s.pc) && q < Passed(r.pc)
      ensures Empty(r.dev, q) || Full(r.dev)
      ensures !s.pc.Poll? && !s.pc.Ship? ==> Empty(r.dev, q)
    {
      assert Empty(s.dev, q) || Full(s.dev);
    }
  }

  /** As long as no tick falls in it, a call of midi_rx_pump leaves every port it has passed empty, or
      the shared ring full; whether the endpoint is busy makes no difference. */
  lemma {:induction false} PumpDrains(s: System, acts: seq<Action>)
    requires Shape(s) && Drained(s) && forall a :: a in acts ==> !a.Timer?
    ensures Drained(Run(s, acts))
    decreases |acts|
  {
    hide Next, Drained, Shape;
    if acts == [] {
    } else {
      DrainStep(s, acts[0]);
      PumpDrains(Next(s, acts[0]), acts[1..]);
    }
  }

  /** Step k of a run leaves port p. */
  ghost predicate Leaves(s: System, acts: seq<Action>, k: nat, p: nat)
    requires Shape(s)
  {
    && k < |acts| && acts[k] == MainStep
    && Run(s, acts[..k]).pc == Poll(p) && Run(s, acts[..k + 1]).pc == Poll(p + 1)
  }

  lemma PassStep(s: System, a: Action, p: nat)
    requires Shape(s) && p < PORTS && Passed(s.pc) <= p < Passed(Next(s, a).pc)
    ensures a == MainStep && s.pc == Poll(p) && Next(s, a).pc == Poll(p + 1)
    ensures Empty(s.dev, p) || Full(s.dev)
  {
    hide Ring.PutAll, Ring.Contents, Ring.Count, ShipLoop, Sweep;
  }

  /** A run that starts before port p and ends beyond it leaves the port, and only empty or with the
      ring full at that moment, whatever ticks fall in between. */
  lemma {:induction false} PortLeft(s: System, acts: seq<Action>, p: nat) returns (k: nat)
    requires Shape(s) && p < PORTS && Passed(s.pc) <= p < Passed(Run(s, acts).pc)
    ensures Leaves(s, acts, k, p)
    ensures Empty(Run(s, acts[..k]).dev, p) || Full(Run(s, acts[..k]).dev)
    decreases |acts|
  {
    hide Next, Shape, Passed, Empty, Full;
    assert acts != [] by { RunNone(s); }
    k := |acts| - 1;
    var before, a := acts[..k], acts[k];
    assert acts == before + [a] && acts[..k + 1] == acts;
    RunSnoc(s, before, a);
    if Passed(Run(s, before).pc) <= p {
      hide Run;
      PassStep(Run(s, before), a, p);
    } else {
      k := PortLeft(s, before, p);
      assert before[..k] == acts[..k] && before[..k + 1] == acts[..k + 1];
    }
  }

  lemma RunNone(s: System)
    requires Shape(s)
    ensures Run(s, []) == s
  {
  }

  // ---- Many calls ------------------------------------------------------------------------

  /** Sweeps among some actions, when n ticks came before them. */
  function Captures(n: nat, acts: seq<Action>): nat {
    if acts == [] then 0
    else
      var before := acts[..|acts| - 1];
      Captures(n, before) + if acts[|acts| - 1].Timer? && Sweeps(n + Timers(before)) then 1 else 0
  }

  /** Sweeps since the main loop last left port p with room in the shared ring. */
  function Neglected(s: System, acts: seq<Action>, p: nat): nat
    requires Shape(s)
    decreases |acts|
  {
    if acts == [] then 0
    else
      var before, a := acts[..|acts| - 1], acts[|acts| - 1];
      var m := Run(s, before);
      if a == MainStep && m.pc == Poll(p) && Next(m, a).pc == Poll(p + 1) && !Full(m.dev) then 0
      else Neglected(s, before, p) + if a.Timer? && Sweeps(Timers(before)) then 1 else 0
  }

  lemma NeglectedSnoc(s: System, before: seq<Action>, a: Action, p: nat)
    requires Shape(s)
    ensures var m := Run(s, before);
            Neglected(s, before + [a], p) ==
              if a == MainStep && m.pc == Poll(p) && Next(m, a).pc == Poll(p + 1) && !Full(m.dev) then 0
              else Neglected(s, before, p) + if a.Timer? && Sweeps(Timers(before)) then 1 else 0
  {
    hide Run, Next, Shape, Full, Timers, Sweeps;
    assert (before + [a])[..|before|] == before;
  }

  lemma LeftIsEmpty(m: System, p: nat)
    requires Shape(m) && p < PORTS && m.pc == Poll(p) && Next(m, MainStep).pc == Poll(p + 1) && !Full(m.dev)
    ensures Empty(Next(m, MainStep).dev, p)
  {
    hide Ring.Count, Ring.Contents;
  }

  lemma {:induction false} UnservedIsNeglected(s: System, acts: seq<Action>, p: nat)
    requires Shape(s) && p < PORTS
    ensures Unserved(s, acts, p) <= Neglected(s, acts, p)
    decreases |acts|
  {
    if acts == [] {
    } else {
      hide Run, Next, Shape, Full, Timers, Sweeps, Unserved, Neglected;
      var before, a := acts[..|acts| - 1], acts[|acts| - 1];
      var m := Run(s, before);
      assert acts == before + [a];
      UnservedIsNeglected(s, before, p);
      UnservedSnoc(s, before, a, p);
      NeglectedSnoc(s, before, a, p);
      RunSnoc(s, before, a);
      if a == MainStep && m.pc == Poll(p) && Next(m, a).pc == Poll(p + 1) && !Full(m.dev) {
        LeftIsEmpty(m, p);
      }
    }
  }

  lemma {:induction false} TimersConcat(a: seq<Action>, b: seq<Action>)
    ensures Timers(a + b) == Timers(a) + Timers(b)
    decreases |b|
  {
    if b == [] {
      assert a + b == a;
    } else {
      hide Timers;
      var before, x := b[..|b| - 1], b[|b| - 1];
      TimersConcat(a, before);
      TimersSnoc(a + before, x);
      TimersSnoc(before, x);
      assert b == before + [x] && a + b == a + before + [x];
    }
  }

  lemma CapturesSnoc(n: nat, before: seq<Action>, a: Action)
    ensures Captures(n, before + [a]) == Captures(n, before) + if a.Timer? && Sweeps(n + Timers(before)) then 1 else 0
    ensures Captures(n, []) == 0
  {
    hide Timers, Sweeps;
    assert (before + [a])[..|before|] == before;
  }

  /** A port is neglected by at most the sweeps that pass, and only by those of the last stretch if
      the main loop left it with room there. */
  lemma {:induction false} NeglectedGrows(s: System, before: seq<Action>, acts: seq<Action>, p: nat)
    requires Shape(s) && p < PORTS
    ensures Neglected(s, before + acts, p) <= Neglected(s, before, p) + Captures(Timers(before), acts)
    ensures (exists k: nat :: Leaves(Run(s, before), acts, k, p) && !Full(Run(s, before + acts[..k]).dev))
            ==> Neglected(s, before + acts, p) <= Captures(Timers(before), acts)
    decreases |acts|
  {
    hide Run, Next, Full, Timers, Sweeps, Neglected, Captures;
    if acts == [] {
      assert before + acts == before;
      CapturesSnoc(0, [], MainStep);
    } else {
      var init, a := acts[..|acts| - 1], acts[|acts| - 1];
      assert acts == init + [a] && before + acts == before + init + [a];
      NeglectedGrows(s, before, init, p);
      NeglectedSnoc(s, before + init, a, p);
      CapturesSnoc(Timers(before), init, a);
      TimersConcat(before, init);
      RunConcat(s, before, init);
      if k: nat :| Leaves(Run(s, before), acts, k, p) && !Full(Run(s, before + acts[..k]).dev) {
        if k == |init| {
          assert acts[..k] == init && acts[..k + 1] == acts;
          RunSnoc(Run(s, before), init, a);
        } else {
          assert acts[..k] == init[..k] && acts[..k + 1] == init[..k + 1];
          assert Leaves(Run(s, before), init, k, p);
        }
      }
    }
  }

  /** If the main loop leaves every port with room in the ring at least once in any 15 sweeps, no byte
      is ever dropped and the overflow counter stays zero. */
  lemma ServedInTime(s: System, acts: seq<Action>)
    requires Initial(s)
    requires forall p, k :: 0 <= p < PORTS && 0 <= k <= |acts| ==> Neglected(s, acts[..k], p) <= 15
    ensures Run(s, acts).dev.overflows == 0
    ensures forall p :: 0 <= p < PORTS ==> Dropped(Run(s, acts).trace.log[p]) == 0
  {
    hide Run, Unserved, Neglected, Dropped;
    forall p, k | 0 <= p < PORTS && 0 <= k <= |acts|
      ensures Unserved(s, acts[..k], p) <= 15
    {
      UnservedIsNeglected(s, acts[..k], p);
    }
    NoOverflow(s, acts);
  }

  /** The actions of several calls, one after the other. */
  function Join(calls: seq<seq<Action>>): seq<Action> {
    if calls == [] then [] else Join(calls[..|calls| - 1]) + calls[|calls| - 1]
  }

  /** One call of midi_rx_pump, from its start through its shipping step, with the ticks of one turn of the
      main loop: at most seven sweeps, and the ring is never full. */
  ghost predicate Turn(s: System, before: seq<Action>, call: seq<Action>)
    requires Shape(s)
  {
    && Run(s, before).pc == Poll(0)
    && call != [] && call[|call| - 1] == MainStep && Run(s, before + call[..|call| - 1]).pc == Ship
    && Captures(Timers(before), call) <= 7
    && forall k :: 0 <= k <= |call| ==> !Full(Run(s, before + call[..k]).dev)
  }

  lemma TurnServes(s: System, before: seq<Action>, call: seq<Action>, p: nat)
    requires Shape(s) && p < PORTS && Turn(s, before, call)
    ensures Neglected(s, before + call, p) <= 7
  {
    hide Run, Neglected, Captures, Timers, Full, Empty, Next;
    var pass := call[..|call| - 1];
    var m := Run(s, before);
    RunConcat(s, before, pass);
    var k := PortLeft(m, pass, p);
    assert pass[..k] == call[..k] && pass[..k + 1] == call[..k + 1];
    assert Leaves(m, call, k, p);
    NeglectedGrows(s, before, call, p);
  }

  lemma {:induction false} CapturesPrefix(n: nat, acts: seq<Action>, k: nat)
    requires k <= |acts|
    ensures Captures(n, acts[..k]) <= Captures(n, acts)
    decreases |acts|
  {
    if k == |acts| {
      assert acts[..k] == acts;
    } else {
      hide Captures, Timers, Sweeps;
      var before, a := acts[..|acts| - 1], acts[|acts| - 1];
      assert acts == before + [a] && before[..k] == acts[..k];
      CapturesPrefix(n, before, k);
      CapturesSnoc(n, before, a);
    }
  }

  /** During a turn the sweeps of the turn before may still count. */
  lemma TurnPrefix(s: System, before: seq<Action>, call: seq<Action>, j: nat, p: nat)
    requires Shape(s) && p < PORTS && Turn(s, before, call) && j <= |call|
    requires Neglected(s, before, p) <= 7
    ensures Neglected(s, before + call[..j], p) <= 14
  {
    hide Run, Neglected, Captures, Timers, Full;
    NeglectedGrows(s, before, call[..j], p);
    CapturesPrefix(Timers(before), call, j);
  }

  lemma JoinLast(calls: seq<seq<Action>>)
    requires calls != []
    ensures Join(calls) == Join(calls[..|calls| - 1]) + calls[|calls| - 1]
  {
  }

  /** Nothing but such turns. */
  ghost predicate Turns(s: System, calls: seq<seq<Action>>)
    requires Shape(s)
  {
    calls == [] || (Turns(s, calls[..|calls| - 1]) && Turn(s, Join(calls[..|calls| - 1]), calls[|calls| - 1]))
  }

  lemma {:induction false} NeverNeglected(s: System, calls: seq<seq<Action>>, k: nat, p: nat)
    requires Shape(s) && p < PORTS && k <= |Join(calls)| && Turns(s, calls)
    ensures Neglected(s, Join(calls)[..k], p) <= 14
    ensures Neglected(s, Join(calls), p) <= 7
    decreases |calls|
  {
    if calls == [] {
      assert Join(calls)[..k] == [];
    } else {
      hide Turn, Neglected, Join, Shape, Run, Next;
      var init, call := calls[..|calls| - 1], calls[|calls| - 1];
      var before := Join(init);
      JoinLast(calls);
      TurnServes(s, before, call, p);
      NeverNeglected(s, init, if k <= |before| then k else 0, p);
      if k <= |before| {
        assert Join(calls)[..k] == before[..k];
      } else {
        var j := k - |before|;
        assert Join(calls)[..k] == before + call[..j];
        TurnPrefix(s, before, call, j, p);
      }
    }
  }

  /** The main loop keeps up: if every turn of it takes at most seven sweeps and the host keeps the shared
      ring from filling, then no byte is ever dropped, however the bytes arrive. */
  lemma MainLoopKeepsUp(s: System, calls: seq<seq<Action>>)
    requires Initial(s)
    requires Turns(s, calls)
    ensures Run(s, Join(calls)).dev.overflows == 0
    ensures forall p :: 0 <= p < PORTS ==> Dropped(Run(s, Join(calls)).trace.log[p]) == 0
  {
    hide Turns, Run, Neglected, Dropped, Join;
    forall p, k | 0 <= p < PORTS && 0 <= k <= |Join(calls)|
      ensures Neglected(s, Join(calls)[..k], p) <= 15
    {
      NeverNeglected(s, calls, k, p);
    }
    ServedInTime(s, Join(calls));
  }
}
