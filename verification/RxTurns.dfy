/** The turns of the main loop on the receive side, and that they bring everything to the host. */
module RxTurns {
  import opened Bytes
  import opened Rings
  import opened MidiParser
  import opened Packets
  import opened RxPipeline
  import opened RxInvariant
  import opened RxTheorems
  import opened RxProgress
  import opened RxDelivery

  /** Timer ticks, in order; each says what the UARTs show. */
  type Ticks = seq<seq<Option<byte>>>

  /** The timer ticks among some actions. */
  function Fired(acts: seq<Action>): Ticks {
    if acts == [] then [] else (if acts[0].Timer? then [acts[0].lines] else []) + Fired(acts[1..])
  }

  /** No packets are shipped. */
  ghost predicate NoShipping(s: System, acts: seq<Action>)
    requires Shape(s)
    decreases |acts|
  {
    acts == [] || (!(acts[0] == MainStep && s.pc == Ship) && NoShipping(Next(s, acts[0]), acts[1..]))
  }

  lemma {:induction false} FiredNone(acts: seq<Action>)
    requires Fired(acts) == []
    ensures forall a :: a in acts ==> !a.Timer?
    decreases |acts|
  {
    if acts == [] {
    } else {
      FiredNone(acts[1..]);
      assert acts == [acts[0]] + acts[1..];
    }
  }

  // ---- Turns -----------------------------------------------------------------------------

  /** One turn: whether the host reads EP2-IN before it, and what midi_rx_pump and the timer do up to the
      shipping step. */
  datatype Call = Call(poll: bool, acts: seq<Action>)

  function Begun(s: System, c: Call): (r: System)
    requires Shape(s)
    ensures Shape(r)
  {
    if c.poll then Next(s, HostRead) else s
  }

  function Pumped(s: System, c: Call): (r: System)
    requires Shape(s)
    ensures Shape(r)
  {
    Run(Begun(s, c), c.acts)
  }

  function AfterCall(s: System, c: Call): (r: System)
    requires Shape(s)
    ensures Shape(r)
  {
    Next(Pumped(s, c), MainStep)
  }

  /** The actions of a turn are those of one call of midi_rx_pump, from its start to its shipping step, and
      of ticks that fall in it. */
  ghost predicate IsCall(s: System, c: Call)
    requires Shape(s)
  {
    && s.pc == Poll(0)
    && (forall a :: a in c.acts ==> a.MainStep? || a.Timer?)
    && NoShipping(Begun(s, c), c.acts) && Pumped(s, c).pc == Ship
  }

  function AfterCalls(s: System, calls: seq<Call>): (r: System)
    requires Shape(s)
    ensures Shape(r)
    decreases |calls|
  {
    if calls == [] then s else AfterCall(AfterCalls(s, calls[..|calls| - 1]), calls[|calls| - 1])
  }

  /** Each element is a turn, from where those before it end. */
  ghost predicate AreCalls(s: System, calls: seq<Call>)
    requires Shape(s)
    decreases |calls|
  {
    var n := |calls| - 1;
    calls == [] || (AreCalls(s, calls[..n]) && IsCall(AfterCalls(s, calls[..n]), calls[n]))
  }

  /** The ticks that fall in some turns. */
  function FiredIn(calls: seq<Call>): Ticks {
    if calls == [] then [] else FiredIn(calls[..|calls| - 1]) + Fired(calls[|calls| - 1].acts)
  }

  lemma CallsSnoc(s: System, calls: seq<Call>, c: Call)
    requires Shape(s)
    ensures AfterCalls(s, calls + [c]) == AfterCall(AfterCalls(s, calls), c)
    ensures AreCalls(s, calls) && IsCall(AfterCalls(s, calls), c) ==> AreCalls(s, calls + [c])
    ensures FiredIn(calls + [c]) == FiredIn(calls) + Fired(c.acts)
  {
    hide AfterCall, IsCall, Fired, Shape;
    assert (calls + [c])[..|calls|] == calls;
  }

  lemma CallInv(s: System, boot: seq<Parser>, c: Call)
    requires Inv(s, boot)
    ensures Shape(s) && Inv(Begun(s, c), boot) && Inv(Pumped(s, c), boot) && Inv(AfterCall(s, c), boot)
  {
    hide Inv, Run, Next;
    InvShape(s, boot);
    NextInv(s, boot, HostRead);
    RunInv(Begun(s, c), boot, c.acts);
    NextInv(Pumped(s, c), boot, MainStep);
  }

  lemma InvShape(s: System, boot: seq<Parser>)
    requires Inv(s, boot)
    ensures Shape(s)
  {
  }

  // ---- What is still on the way to the host ------------------------------------------------

  /** The bytes in the queues from port p on. */
  ghost function Queued(d: Rx, p: nat): nat
    requires DevShape(d) && p <= PORTS
    decreases PORTS - p
  {
    if p == PORTS then 0 else |d.fifo[p].Contents()| + Queued(d, p + 1)
  }

  /** The most that can still come into the endpoint: the ring, and four bytes for each byte not yet parsed. */
  ghost function Load(s: System): nat
    requires Shape(s)
  {
    4 * Queued(s.dev, 0) + (if s.pc.Parse? then 4 else 0) + |s.dev.ring.Contents()|
  }

  lemma {:induction false} QueuedSame(d: Rx, e: Rx, p: nat)
    requires DevShape(d) && DevShape(e) && p <= PORTS
    requires forall q :: p <= q < PORTS ==> e.fifo[q] == d.fifo[q]
    ensures Queued(e, p) == Queued(d, p)
    decreases PORTS - p
  {
    hide Ring.Contents, Ring.Count;
    if p < PORTS {
      QueuedSame(d, e, p + 1);
    }
  }

  lemma {:induction false} QueuedPop(d: Rx, e: Rx, p: nat, o: nat)
    requires DevShape(d) && DevShape(e) && p <= o < PORTS
    requires e.fifo == d.fifo[o := e.fifo[o]] && |e.fifo[o].Contents()| == |d.fifo[o].Contents()| - 1
    ensures Queued(e, p) == Queued(d, p) - 1
    decreases PORTS - p
  {
    hide Ring.Contents, Ring.Count;
    if p == o {
      QueuedSame(d, e, p + 1);
    } else {
      QueuedPop(d, e, p + 1, o);
    }
  }

  lemma {:induction false} QueuedBound(d: Rx, p: nat)
    requires DevShape(d) && p <= PORTS
    ensures Queued(d, p) <= 15 * (PORTS - p)
    decreases PORTS - p
  {
    if p < PORTS {
      CountValue(d.fifo[p]);
      hide Ring.Contents;
      QueuedBound(d, p + 1);
    }
  }

  lemma {:induction false} QueuedNone(d: Rx, p: nat)
    requires DevShape(d) && p <= PORTS
    ensures Queued(d, p) == 0 <==> forall q :: p <= q < PORTS ==> d.fifo[q].Contents() == []
    decreases PORTS - p
  {
    hide Ring.Contents, Ring.Count;
    if p < PORTS {
      QueuedNone(d, p + 1);
    }
  }

  lemma AdvanceLoad(s: System, boot: seq<Parser>)
    requires Inv(s, boot) && s.pc.Advance?
    ensures Load(Next(s, MainStep)) == Load(s)
  {
    hide Ring.Contents, Ring.Count, Ring.Pop, Queued, After, Out, Kept, Cable, Unpack, RingInv, CountInv;
    var p, r := s.pc.port, Next(s, MainStep);
    assert PortInv(s, boot, p);
    PopContents(s.dev.fifo[p]);
    QueuedPop(s.dev, r.dev, 0, p);
  }

  lemma ParseLoad(s: System, boot: seq<Parser>)
    requires Inv(s, boot) && s.pc.Parse?
    ensures Load(Next(s, MainStep)) <= Load(s)
  {
    hide Ring.Contents, Ring.Count, Ring.PutAll, Queued, PortInv, CountInv, Step, At;
    var p, r := s.pc.port, Next(s, MainStep);
    var bytes := EmitBytes(p, Step(s.dev.parser[p], s.pc.b).out);
    RingCount(s);
    PutAllContents(s.dev.ring, bytes);
    QueuedSame(s.dev, r.dev, 0);
  }

  /** No step of the main loop up to shipping adds to what is on the way, or to the history of the interrupt
      and the host. */
  lemma StepLoad(s: System, boot: seq<Parser>)
    requires Inv(s, boot) && s.pc != Ship
    ensures Shape(s)
    ensures var r := Next(s, MainStep);
            && Load(r) <= Load(s) && r.trace.log == s.trace.log
            && r.dev.busy == s.dev.busy
  {
    if s.pc.Advance? {
      AdvanceLoad(s, boot);
    } else if s.pc.Parse? {
      ParseLoad(s, boot);
    }
    hide PortInv, CountInv, RingInv, Load, Ring.PutAll, Step;
    if s.pc.Poll? || s.pc.Read? {
      SameLoad(s, Next(s, MainStep));
    }
  }

  lemma SameLoad(s: System, r: System)
    requires Shape(s) && Shape(r) && r.dev == s.dev && !s.pc.Parse? && !r.pc.Parse?
    ensures Load(r) == Load(s)
  {
  }

  lemma {:induction false} QuietLoad(s: System, boot: seq<Parser>, acts: seq<Action>)
    requires Inv(s, boot) && NoShipping(s, acts) && forall a :: a in acts ==> a == MainStep
    ensures Shape(s)
    ensures var r := Run(s, acts);
            && Load(r) <= Load(s) && r.trace.log == s.trace.log
            && r.dev.busy == s.dev.busy
    decreases |acts|
  {
    hide Inv, Next, Load, Shape;
    InvShape(s, boot);
    if acts == [] {
    } else {
      assert acts[0] in acts && acts[0] == MainStep;
      StepLoad(s, boot);
      NextInv(s, boot, MainStep);
      assert forall a :: a in acts[1..] ==> a in acts;
      QuietLoad(Next(s, MainStep), boot, acts[1..]);
    }
  }

  /** A call in which no tick falls, after the host has freed the endpoint: up to its shipping step. */
  lemma QuietPump(s: System, boot: seq<Parser>, c: Call)
    requires Inv(s, boot) && c.poll && Fired(c.acts) == []
    requires Shape(s) && IsCall(s, c)
    ensures var m := Pumped(s, c);
            && Inv(m, boot) && m.pc == Ship && Drained(m) && !m.dev.busy
            && Load(m) <= Load(s) && m.trace.log == s.trace.log
  {
    hide Inv, Next, Load, Shape, Run, NoShipping, Fired;
    CallInv(s, boot, c);
    FiredNone(c.acts);
    ReadLoad(s);
    assert forall a :: a in c.acts ==> a == MainStep;
    QuietLoad(Begun(s, c), boot, c.acts);
    PumpDrains(Begun(s, c), c.acts);
  }

  lemma ReadLoad(s: System)
    requires Shape(s)
    ensures var r := Next(s, HostRead);
            Load(r) == Load(s) && r.trace.log == s.trace.log && r.pc == s.pc && !r.dev.busy
  {
    hide Ring.Contents;
    QueuedSame(s.dev, Next(s, HostRead).dev, 0);
  }

  /** The shipping step takes 64 bytes off what is on the way, or all that is left. */
  lemma ShipLoad(m: System, boot: seq<Parser>)
    requires Inv(m, boot) && m.pc == Ship && !m.dev.busy && Shape(m) && Drained(m)
    ensures var r := Next(m, MainStep);
            && r.pc == Poll(0) && r.trace.log == m.trace.log
            && Load(r) <= (if Load(m) > 64 then Load(m) - 64 else 0)
            && (Load(m) == 0 ==> !r.dev.busy)
  {
    hide Ring.Contents, Ring.Count, ShipLoop, PortInv, RingInv, CountInv, Queued;
    ShipStep(m, boot);
    var r := Next(m, MainStep);
    QueuedSame(m.dev, r.dev, 0);
    if |m.dev.ring.Contents()| < 64 {
      assert !Full(m.dev);
      forall p | 0 <= p < PORTS ensures m.dev.fifo[p].Contents() == [] {
        assert Empty(m.dev, p);
        IndexTests(m.dev.fifo[p]);
      }
      QueuedNone(m.dev, 0);
    }
  }

  lemma QuietCall(s: System, boot: seq<Parser>, c: Call)
    requires Inv(s, boot) && c.poll && Fired(c.acts) == []
    requires Shape(s) && IsCall(s, c)
    ensures var r := AfterCall(s, c);
            && Inv(r, boot) && r.pc == Poll(0) && r.trace.log == s.trace.log
            && Load(r) <= (if Load(s) > 64 then Load(s) - 64 else 0)
            && (Load(s) == 0 ==> !r.dev.busy)
  {
    hide Inv, Next, Load, Pumped, IsCall, Fired, Drained;
    QuietPump(s, boot, c);
    ShipLoad(Pumped(s, c), boot);
    CallInv(s, boot, c);
  }

  /** The host reads before each of the turns and the UARTs are silent. */
  predicate Quiet(calls: seq<Call>) {
    forall c :: c in calls ==> c.poll && Fired(c.acts) == []
  }

  lemma {:induction false} QuietCalls(s: System, boot: seq<Parser>, calls: seq<Call>)
    requires Inv(s, boot) && Shape(s) && s.pc == Poll(0) && AreCalls(s, calls) && Quiet(calls)
    ensures var e := AfterCalls(s, calls);
            && Inv(e, boot) && e.pc == Poll(0) && e.trace.log == s.trace.log
            && Load(e) <= (if Load(s) > 64 * |calls| then Load(s) - 64 * |calls| else 0)
            && (Load(s) + 64 <= 64 * |calls| ==> !e.dev.busy)
    decreases |calls|
  {
    hide Inv, Load, AfterCall, IsCall, Fired;
    if calls == [] {
    } else {
      var n := |calls| - 1;
      assert calls[n] in calls;
      QuietCalls(s, boot, calls[..n]);
      QuietCall(AfterCalls(s, calls[..n]), boot, calls[n]);
    }
  }

  lemma LoadBound(s: System, boot: seq<Parser>)
    requires Inv(s, boot) && s.pc == Poll(0)
    ensures Shape(s) && Load(s) <= 732
  {
    hide PortInv, CountInv, Ring.Contents, Ring.Count, Queued, At;
    QueuedBound(s.dev, 0);
    RingCount(s);
  }

  /** Nothing is left on the way: everything the interrupt kept has been parsed, and the host has read all
      the packets. */
  lemma NothingLeft(e: System, boot: seq<Parser>, p: nat)
    requires Inv(e, boot) && Shape(e) && e.pc == Poll(0) && Load(e) == 0 && !e.dev.busy && p < PORTS
    ensures e.trace.taken[p] == Kept(e.trace.log[p])
    ensures Cable(Unpack(e.trace.read), p) == Out(boot[p], Kept(e.trace.log[p]))
  {
    hide Inv, Ring.Contents, Ring.Count, Queued, Kept, Cable, Unpack, Out;
    QueuedNone(e.dev, 0);
    InvDelivers(e, boot, p);
    assert e.trace.taken[p] + [] == e.trace.taken[p];
    assert e.dev.ring.Contents() == [];
    assert Upstream(e) == e.trace.read;
    assert Parsed(e, p) == e.trace.taken[p];
  }

  lemma {:induction false} CallsInv(s: System, boot: seq<Parser>, calls: seq<Call>)
    requires Inv(s, boot) && Shape(s) && s.pc == Poll(0) && AreCalls(s, calls)
    ensures Inv(AfterCalls(s, calls), boot) && AfterCalls(s, calls).pc == Poll(0)
    decreases |calls|
  {
    hide Inv, AfterCall, IsCall;
    if calls == [] {
    } else {
      var n := |calls| - 1;
      CallsInv(s, boot, calls[..n]);
      CallInv(AfterCalls(s, calls[..n]), boot, calls[n]);
      CallEnds(AfterCalls(s, calls[..n]), calls[n]);
    }
  }

  lemma CallEnds(s: System, c: Call)
    requires Shape(s) && IsCall(s, c)
    ensures AfterCall(s, c).pc == Poll(0)
  {
    hide Run, NoShipping, ShipLoop;
  }

  lemma {:induction false} CallsConcat(s: System, a: seq<Call>, b: seq<Call>)
    requires Shape(s)
    ensures AfterCalls(s, a + b) == AfterCalls(AfterCalls(s, a), b)
    decreases |b|
  {
    hide AfterCall;
    if b == [] {
      assert a + b == a;
    } else {
      var n := |b| - 1;
      CallsConcat(s, a, b[..n]);
      assert (a + b)[..|a + b| - 1] == a + b[..n] && (a + b)[|a + b| - 1] == b[n];
    }
  }

  lemma {:induction false} CallsSplit(s: System, a: seq<Call>, b: seq<Call>)
    requires Shape(s) && AreCalls(s, a + b)
    ensures AreCalls(s, a) && AreCalls(AfterCalls(s, a), b)
    decreases |b|
  {
    hide AfterCalls, IsCall;
    if b == [] {
      assert a + b == a;
    } else {
      var n := |b| - 1;
      assert (a + b)[..|a + b| - 1] == a + b[..n] && (a + b)[|a + b| - 1] == b[n];
      CallsSplit(s, a, b[..n]);
      CallsConcat(s, a, b[..n]);
    }
  }

  /** Everything arrives.  The main loop makes any turns from start-up, whatever ticks fall in them; then the
      UARTs are silent and the host reads EP2-IN before each of 13 more turns.  It has then read, for each
      port, all packets that the parser makes of all the bytes the interrupt ever kept. */
  lemma HostGetsEverything(s: System, calls: seq<Call>, quiet: seq<Call>, p: nat)
    requires Initial(s) && p < PORTS
    requires AreCalls(s, calls + quiet) && Quiet(quiet) && |quiet| >= 13
    ensures var m, e := AfterCalls(s, calls), AfterCalls(s, calls + quiet);
            && e.trace.log == m.trace.log && e.trace.taken[p] == Kept(m.trace.log[p])
            && Cable(Unpack(e.trace.read), p) == Out(s.dev.parser[p], Kept(m.trace.log[p]))
  {
    hide Inv, Load, AfterCalls, AreCalls, Quiet, Kept, Cable, Unpack, Out, Reset;
    InitialInv(s);
    var m := AfterCalls(s, calls);
    CallsSplit(s, calls, quiet);
    CallsInv(s, s.dev.parser, calls);
    CallsConcat(s, calls, quiet);
    QuietCalls(m, s.dev.parser, quiet);
    LoadBound(m, s.dev.parser);
    NothingLeft(AfterCalls(m, quiet), s.dev.parser, p);
  }
}
