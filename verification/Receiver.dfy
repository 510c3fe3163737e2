/** uart.c and midi_parser.c as they are written: the capture interrupt, the queues and midi_rx_pump
    over arrays and byte indices.  Every interruptible method is shown to make a run of the receive
    system, whatever timer ticks fall between its steps. */
module Receiver {
  import opened Bytes
  import opened Rings
  import opened MidiParser
  import opened Packets
  import opened PortRings
  import opened PortParser
  import opened RxPipeline
  import opened RxInvariant
  import opened RxTheorems
  import opened RxProgress
  import opened RxTurns

  /** The interrupts that fall at one point of the main loop. */
  function Due(ticks: Ticks): (acts: seq<Action>)
    ensures |acts| == |ticks|
  {
    seq(|ticks|, i requires 0 <= i < |ticks| => Timer(ticks[i]))
  }

  /** All ticks still to come, in order. */
  function Flat(arrivals: seq<Ticks>): Ticks {
    if arrivals == [] then [] else arrivals[0] + Flat(arrivals[1..])
  }

  lemma {:induction false} NoShippingConcat(s: System, a: seq<Action>, b: seq<Action>)
    requires Shape(s) && NoShipping(s, a) && NoShipping(Run(s, a), b)
    ensures NoShipping(s, a + b)
    decreases |a|
  {
    hide Next, Shape;
    if a == [] {
      assert a + b == b;
    } else {
      NoShippingConcat(Next(s, a[0]), a[1..], b);
      assert (a + b)[1..] == a[1..] + b;
    }
  }

  lemma {:induction false} TicksShipNothing(s: System, acts: seq<Action>)
    requires Shape(s) && forall a :: a in acts ==> a.Timer?
    ensures NoShipping(s, acts)
    decreases |acts|
  {
    hide Next, Shape;
    if acts == [] {
    } else {
      assert acts[0] in acts;
      TicksShipNothing(Next(s, acts[0]), acts[1..]);
    }
  }

  /** A stretch of the main loop without shipping: a run of its own steps and of the ticks that came
      due meanwhile. */
  ghost predicate Leads(s: System, before: seq<Ticks>, acts: seq<Action>, r: System, after: seq<Ticks>) {
    && Shape(s) && r == Run(s, acts) && NoShipping(s, acts)
    && (forall a :: a in acts ==> a.MainStep? || a.Timer?)
    && Flat(before) == Fired(acts) + Flat(after)
  }

  lemma {:induction false} FiredConcat(a: seq<Action>, b: seq<Action>)
    ensures Fired(a + b) == Fired(a) + Fired(b)
    decreases |a|
  {
    hide Fired;
    FiredFirst(a);
    if a == [] {
      assert a + b == b;
      assert [] + Fired(b) == Fired(b);
    } else {
      FiredConcat(a[1..], b);
      FiredFirst(a + b);
      assert (a + b)[1..] == a[1..] + b;
    }
  }

  lemma FiredFirst(acts: seq<Action>)
    ensures Fired(acts) == if acts == [] then []
                           else (if acts[0].Timer? then [acts[0].lines] else []) + Fired(acts[1..])
  {
  }

  lemma {:induction false} FiredTimers(ticks: Ticks)
    ensures Fired(Due(ticks)) == ticks
    decreases |ticks|
  {
    if ticks == [] {
    } else {
      FiredTimers(ticks[1..]);
      assert Due(ticks)[1..] == Due(ticks[1..]);
      assert [ticks[0]] + ticks[1..] == ticks;
    }
  }

  lemma LeadsOn(s: System, t0: seq<Ticks>, a: seq<Action>, r: System, t1: seq<Ticks>,
                b: seq<Action>, e: System, t2: seq<Ticks>)
    requires Leads(s, t0, a, r, t1) && Leads(r, t1, b, e, t2)
    ensures Leads(s, t0, a + b, e, t2)
  {
    hide Shape, Run, NoShipping;
    RunConcat(s, a, b);
    FiredConcat(a, b);
    NoShippingConcat(s, a, b);
    assert Fired(a) + (Fired(b) + Flat(t2)) == Fired(a) + Fired(b) + Flat(t2);
  }

  lemma LeadsNowhere(s: System, t: seq<Ticks>)
    requires Shape(s)
    ensures Leads(s, t, [], s, t)
  {
    hide Shape;
  }

  lemma LeadsStep(s: System, t: seq<Ticks>)
    requires Shape(s) && s.pc != Ship
    ensures Leads(s, t, [MainStep], Main(s), t)
  {
    hide Shape, Main;
    RunOne(s, MainStep);
    assert [MainStep][1..] == [];
  }

  lemma LeadsTicks(s: System, ticks: Ticks, after: seq<Ticks>)
    requires Shape(s)
    ensures Leads(s, [ticks] + after, Due(ticks), Run(s, Due(ticks)), after)
  {
    hide Shape, Run, NoShipping;
    FiredTimers(ticks);
    TicksShipNothing(s, Due(ticks));
    assert ([ticks] + after)[1..] == after;
  }

  class Receiver {
    const fifo: PortRings
    var overflows: byte
    var prescale: byte
    const parser: seq<PortParser>
    const ring: RxRing
    var busy: bool
    const inBuf: array<byte>
    var inCount: byte
    ghost var trace: Trace

    /** What is still to come: the ticks at each further point where the main loop can be interrupted. */
    var arrivals: seq<Ticks>

    /** The parser and ring buffers are all different memory. */
    ghost predicate Apart() {
      && |parser| == PORTS && inBuf.Length == MAXPKT && ring.Valid()
      && fifo.Sized() && fifo.slots.Length1 == FIFO_SIZE
      && (forall p :: 0 <= p < PORTS ==>
            parser[p].sx.Length == 3 && parser[p].sx !in {fifo.head, fifo.tail, ring.buf, inBuf})
      && (forall p, q :: 0 <= p < q < PORTS ==> parser[p] != parser[q] && parser[p].sx != parser[q].sx)
      && fifo.head !in {ring.buf, inBuf} && fifo.tail !in {ring.buf, inBuf} && ring.buf != inBuf
    }

    ghost predicate Valid()
      reads this, fifo.head, fifo.tail, parser
    {
      && Apart() && fifo.Valid()
      && (forall p :: 0 <= p < PORTS ==> parser[p].sxn <= 2)
      && inCount <= MAXPKT
      && |trace.log| == |trace.taken| == PORTS
    }

    ghost function Cells(): set<object> {
      set p | 0 <= p < |parser| :: parser[p].sx
    }

    ghost function Parsers(): (r: seq<Parser>)
      requires Apart()
      reads parser, Cells()
      ensures |r| == PORTS && forall p :: 0 <= p < PORTS ==> r[p] == parser[p].Value()
    {
      seq(PORTS, p requires Apart() && 0 <= p < PORTS reads parser, Cells() => parser[p].Value())
    }

    /** The state of the receive system, with midi_rx_pump at the given point. */
    ghost function Sys(pc: Pc): (s: System)
      requires Valid() && InRange(pc)
      reads this, fifo.slots, fifo.head, fifo.tail, parser, Cells(), ring, ring.buf, inBuf
      ensures Shape(s)
    {
      System(Rx(fifo.All(), overflows, prescale, Parsers(), ring.Value(), busy, inBuf[..inCount]), pc, trace)
    }

    /** Memory before any reset: anything at all, apart from the indices, which are in range. */
    constructor (arrivals: seq<Ticks>)
      ensures fresh(fifo) && fresh(fifo.Repr()) && fresh(ring) && fresh(ring.buf) && fresh(inBuf)
      ensures Apart() && fresh(parser) && fresh(Cells())
      ensures this.arrivals == arrivals
    {
      var ps: seq<PortParser> := [];
      while |ps| < PORTS
        invariant |ps| <= PORTS && fresh(ps)
        invariant forall i :: 0 <= i < |ps| ==> ps[i].sx.Length == 3 && fresh(ps[i].sx)
        invariant forall i, j :: 0 <= i < j < |ps| ==> ps[i] != ps[j] && ps[i].sx != ps[j].sx
      {
        var q := new PortParser();
        ps := ps + [q];
      }
      parser := ps;
      fifo := new PortRings(FIFO_SIZE);
      ring := new RxRing();
      inBuf := new byte[MAXPKT];
      this.arrivals := arrivals;
    }

    // ---- Start-up ------------------------------------------------------------------------

    /** midi_parser_reset. */
    method MidiParserReset()
      requires Apart()
      modifies parser, ring
      ensures forall p :: 0 <= p < PORTS ==>
                && parser[p].status == 0 && parser[p].have == 0 && !parser[p].inSysex && parser[p].sxn == 0
                && parser[p].Value() == Reset(old(parser[p].Value()))
      ensures ring.head == ring.tail == 0
    {
      hide Reset;
      for p := 0 to PORTS
        invariant forall q :: 0 <= q < p ==>
                    && parser[q].status == 0 && parser[q].have == 0 && !parser[q].inSysex && parser[q].sxn == 0
                    && parser[q].Value() == Reset(old(parser[q].Value()))
        invariant forall q :: p <= q < PORTS ==> parser[q].Value() == old(parser[q].Value())
      {
        parser[p].Clear();
      }
      ring.head := 0;
      ring.tail := 0;
    }

    /** uart_rx_reset. */
    method UartRxReset()
      requires Apart()
      modifies this`overflows, fifo.head, fifo.tail
      ensures fifo.Valid() && overflows == 0
      ensures forall p :: 0 <= p < PORTS ==> fifo.head[p] == fifo.tail[p] == 0
    {
      fifo.Clear();
      overflows := 0;
    }

    /** The start-up calls of main, with uart_rx_start, which sets the prescaler. */
    method Start()
      requires Apart()
      modifies this, fifo.head, fifo.tail, parser, ring
      ensures Valid() && Initial(Sys(Poll(0)))
    {
      hide Reset;
      MidiParserReset();
      UartRxReset();
      prescale := 1;
      inCount := 0;
      trace := Trace(seq(PORTS, _ => []), seq(PORTS, _ => []), [], [], [], 0);
      forall p | 0 <= p < PORTS ensures Reset(parser[p].Value()) == parser[p].Value() {
        ResetTwice(old(parser[p].Value()));
      }
    }

    // ---- The interrupt -------------------------------------------------------------------

    /** RX_STORE. */
    method RxStore(p: nat, b: byte, ghost pc: Pc)
      requires Valid() && InRange(pc) && p < PORTS
      modifies this`overflows, this`trace, fifo.slots, fifo.head
      ensures Valid() && Sys(pc) == Store(old(Sys(pc)), p, b)
    {
      hide Ring.Put, Ring.Contents, Shape, DevShape, InRange;
      ghost var s := Sys(pc);
      var head := fifo.NextHead(p);
      var full := head == fifo.tail[p];
      trace := trace.(log := trace.log[p := trace.log[p] + [Capture(b, !full)]]);
      if full {
        if overflows != 0xFF {
          overflows := overflows + 1;
        }
        assert Sys(pc) == System(s.dev.(overflows := overflows), pc, trace);
      } else {
        fifo.Put(p, b);
        assert Sys(pc) == System(s.dev.(fifo := s.dev.fifo[p := s.dev.fifo[p].Put(b)]), pc, trace);
      }
    }

    /** The loop of uart_rx_isr over the UARTs. */
    method SweepPorts(lines: seq<Option<byte>>, ghost pc: Pc)
      requires Valid() && InRange(pc)
      modifies this`overflows, this`trace, fifo.slots, fifo.head
      ensures Valid() && Sys(pc) == Sweep(old(Sys(pc)), lines, 0)
    {
      hide Store, Shape, InRange, Ring.Contents;
      for port := 0 to PORTS
        invariant Valid()
        invariant Sweep(Sys(pc), lines, port) == Sweep(old(Sys(pc)), lines, 0)
      {
        var line := Line(lines, port);
        if line.Some? {
          RxStore(port, line.value, pc);
        }
      }
    }

    /** uart_rx_isr; lines is what the line status and data registers show. */
    method UartRxIsr(lines: seq<Option<byte>>, ghost pc: Pc)
      requires Valid() && InRange(pc)
      modifies this`overflows, this`prescale, this`trace, fifo.slots, fifo.head
      ensures Valid() && Sys(pc) == Tick(old(Sys(pc)), lines)
    {
      hide Sweep, Shape, InRange, Ring.Contents;
      ghost var s := Sys(pc);
      prescale := U8(prescale as int - 1);
      assert Sys(pc) == s.(dev := s.dev.(prescale := prescale));
      if prescale != 0 {
        return;
      }
      prescale := PRESCALE;
      assert Sys(pc) == s.(dev := s.dev.(prescale := prescale));
      SweepPorts(lines, pc);
    }

    // ---- The steps of the main loop ------------------------------------------------------

    /** uart_rx_dequeue, second half: advance the read index. */
    method Advance(p: nat, b: byte)
      requires Valid() && p < PORTS
      modifies this`trace, fifo.tail
      ensures Valid() && Sys(Pc.Parse(p, b)) == Main(old(Sys(Pc.Advance(p, b))))
    {
      hide Ring.Pop;
      fifo.Pop(p);
      trace := trace.(taken := trace.taken[p := trace.taken[p] + [b]]);
    }

    /** The call of parse_byte. */
    method Parse(p: nat, b: byte)
      requires Valid() && p < PORTS
      modifies this`trace, parser[p], parser[p].sx, ring`head, ring.buf
      ensures Valid() && Sys(Poll(p)) == Main(old(Sys(Pc.Parse(p, b))))
    {
      hide Step, Ring.PutAll;
      ghost var s := Sys(Pc.Parse(p, b));
      parser[p].ParseByte(p, b, ring);
      trace := trace.(emitted := trace.emitted + EmitBytes(p, Step(s.dev.parser[p], b).out));
      assert Parsers() == s.dev.parser[p := Step(s.dev.parser[p], b).next];
    }

    /** The ticks that come due at this point of the main loop. */
    method Interrupts(ghost pc: Pc) returns (ghost acts: seq<Action>)
      requires Valid() && InRange(pc)
      modifies this`overflows, this`prescale, this`trace, this`arrivals, fifo.slots, fifo.head
      ensures Valid() && Leads(old(Sys(pc)), old(arrivals), acts, Sys(pc), arrivals)
      ensures arrivals == if old(arrivals) == [] then [] else old(arrivals)[1..]
      ensures old(arrivals) == [] ==> fifo.All() == old(fifo.All())
    {
      hide Leads, Shape, InRange, Run, Tick, Ring.Contents;
      acts := [];
      if arrivals == [] {
        LeadsNowhere(Sys(pc), []);
        return;
      }
      var ticks := arrivals[0];
      LeadsTicks(Sys(pc), ticks, arrivals[1..]);
      assert [ticks] + arrivals[1..] == arrivals;
      arrivals := arrivals[1..];
      ghost var s := Sys(pc);
      assert s == old(Sys(pc));
      RunNone(s);
      for i := 0 to |ticks|
        invariant Valid() && arrivals == old(arrivals)[1..]
        invariant acts == Due(ticks)[..i] && Sys(pc) == Run(s, acts)
      {
        RunSnoc(s, acts, Timer(ticks[i]));
        UartRxIsr(ticks[i], pc);
        acts := acts + [Timer(ticks[i])];
      }
      assert Due(ticks)[..|ticks|] == Due(ticks);
    }

    /** uart_rx_dequeue: interrupts may push between the read of the slot and the new read index. */
    method UartRxDequeue(p: nat) returns (b: byte, ghost acts: seq<Action>)
      requires Valid() && p < PORTS
      modifies this`overflows, this`prescale, this`trace, this`arrivals, fifo.slots, fifo.head, fifo.tail
      ensures Valid() && Leads(old(Sys(Read(p))), old(arrivals), acts, Sys(Pc.Parse(p, b)), arrivals)
      ensures arrivals == if old(arrivals) == [] then [] else old(arrivals)[1..]
      ensures old(arrivals) == [] && old(fifo.Available(p)) ==> fifo.Count(p) == old(fifo.Count(p)) - 1
    {
      hide Leads, Shape, Run, Ring.Contents, Ring.Count;
      ghost var s, was := Sys(Read(p)), arrivals;
      b := fifo.Peek(p);
      LeadsStep(s, arrivals);
      acts := Interrupts(Pc.Advance(p, b));
      LeadsOn(s, was, [MainStep], Main(s), was, acts, Sys(Pc.Advance(p, b)), arrivals);
      ghost var mid := Sys(Pc.Advance(p, b));
      CountAfterPop(fifo.At(p));
      Advance(p, b);
      LeadsStep(mid, arrivals);
      LeadsOn(s, was, [MainStep] + acts, mid, arrivals, [MainStep], Main(mid), arrivals);
      acts := [MainStep] + acts + [MainStep];
    }

    /** The body of that loop: parse_byte(p, uart_rx_dequeue(p)). */
    method ParseNext(p: nat) returns (ghost acts: seq<Action>)
      requires Valid() && p < PORTS
      modifies this, fifo.slots, fifo.head, fifo.tail, parser[p], parser[p].sx, ring, ring.buf
      ensures Valid() && Leads(old(Sys(Read(p))), old(arrivals), acts, Sys(Poll(p)), arrivals)
      ensures |arrivals| <= |old(arrivals)| && (old(arrivals) != [] ==> |arrivals| < |old(arrivals)|)
      ensures old(arrivals) == [] && old(fifo.Available(p)) ==> fifo.Count(p) == old(fifo.Count(p)) - 1
    {
      hide Leads, Shape, Run, Main, Ring.Contents, Ring.Count;
      ghost var s, was := Sys(Read(p)), arrivals;
      acts := Interrupts(Read(p));
      ghost var r, t := Sys(Read(p)), arrivals;
      ghost var more: seq<Action>;
      var b;
      b, more := UartRxDequeue(p);
      LeadsOn(s, was, acts, r, t, more, Sys(Pc.Parse(p, b)), arrivals);
      acts := acts + more;
      r, t := Sys(Pc.Parse(p, b)), arrivals;
      more := Interrupts(Pc.Parse(p, b));
      LeadsOn(s, was, acts, r, t, more, Sys(Pc.Parse(p, b)), arrivals);
      acts := acts + more;
      r := Sys(Pc.Parse(p, b));
      LeadsStep(r, arrivals);
      Parse(p, b);
      LeadsOn(s, was, acts, r, arrivals, [MainStep], Sys(Poll(p)), arrivals);
      acts := acts + [MainStep];
    }

    /** The inner loop of midi_rx_pump: everything queued for port p, as long as the ring has room. */
    method DrainPort(p: nat) returns (ghost acts: seq<Action>)
      requires Valid() && p < PORTS
      modifies this, fifo.slots, fifo.head, fifo.tail, parser, Cells(), ring, ring.buf
      ensures Valid() && Leads(old(Sys(Poll(p))), old(arrivals), acts, Sys(Poll(p + 1)), arrivals)
      ensures !fifo.Available(p) || ring.Count() > RX_RING_SIZE - 1 - 4
    {
      hide Leads, Shape, Run, Main, Ring.Contents, Ring.Count;
      ghost var s, was := Sys(Poll(p)), arrivals;
      acts := [];
      LeadsNowhere(s, was);
      while true
        invariant Valid() && Leads(s, was, acts, Sys(Poll(p)), arrivals)
        decreases |arrivals|, fifo.Count(p)
      {
        ghost var r, t := Sys(Poll(p)), arrivals;
        ghost var more := Interrupts(Poll(p));
        LeadsOn(s, was, acts, r, t, more, Sys(Poll(p)), arrivals);
        acts := acts + more;
        r, t := Sys(Poll(p)), arrivals;
        LeadsStep(r, t);
        LeadsOn(s, was, acts, r, t, [MainStep], Main(r), t);
        acts := acts + [MainStep];
        PollStep(r, p);
        if !fifo.Available(p) || ring.Count() > RX_RING_SIZE - 1 - 4 {
          return;
        }
        r := Sys(Read(p));
        more := ParseNext(p);
        LeadsOn(s, was, acts, r, t, more, Sys(Poll(p)), arrivals);
        acts := acts + more;
      }
    }

    /** Four bytes from the ring to the endpoint buffer. */
    method TakePacket(n: nat)
      requires Apart() && n + 4 <= MAXPKT
      modifies ring`tail, inBuf
      ensures var r := old(ring.Value());
              && ring.Value() == r.Pop().Pop().Pop().Pop()
              && inBuf[..n + 4] == old(inBuf[..n]) + [r.Peek(), r.Pop().Peek(), r.Pop().Pop().Peek(), r.Pop().Pop().Pop().Peek()]
    {
      hide Ring.Pop, Ring.Peek;
      inBuf[n] := ring.Take();
      inBuf[n + 1] := ring.Take();
      inBuf[n + 2] := ring.Take();
      inBuf[n + 3] := ring.Take();
    }

    /** The shipping loop of midi_rx_pump: how many bytes went into the endpoint buffer. */
    method FillBuffer() returns (n: nat)
      requires Apart()
      modifies ring`tail, inBuf
      ensures n <= MAXPKT && ShipLoop(old(ring.Value()), 0) == Shipment(ring.Value(), inBuf[..n])
      ensures n == 0 ==> inBuf[..] == old(inBuf[..])
    {
      hide Ring.Pop, Ring.Peek, Ring.Count, ShipLoop;
      ghost var r := ring.Value();
      n := 0;
      ghost var rest := ShipLoop(r, 0);
      while ring.Count() >= 4 && n <= MAXPKT - 4
        invariant n % 4 == 0 && n <= MAXPKT && (n == 0 ==> inBuf[..] == old(inBuf[..]))
        invariant rest == ShipLoop(ring.Value(), n)
        invariant ShipLoop(r, 0).ring == rest.ring && ShipLoop(r, 0).data == inBuf[..n] + rest.data
        decreases MAXPKT - n
      {
        ShipTurn(ring.Value(), n);
        rest := ShipLoop(PopFour(ring.Value()), n + 4);
        TakePacket(n);
        n := n + 4;
      }
      ShipLoopStops(ring.Value(), n);
    }

    /** The shipping half of midi_rx_pump. */
    method ShipPackets()
      requires Valid()
      modifies this`busy, this`inCount, this`trace, ring`tail, inBuf
      ensures Valid() && Sys(Poll(0)) == Main(old(Sys(Ship)))
    {
      hide Ring.Pop, Ring.Peek, Ring.Count, ShipLoop, Shape;
      if busy {
        return;
      }
      ghost var r := ring.Value();
      var n := FillBuffer();
      if n > 0 {
        inCount := n;
        busy := true;
        trace := trace.(shipped := trace.shipped + inBuf[..n]);
      } else {
        ShipNone(r);
      }
    }

    /** The loop of midi_rx_pump over the ports. */
    method DrainPorts() returns (ghost acts: seq<Action>)
      requires Valid()
      modifies this, fifo.slots, fifo.head, fifo.tail, parser, Cells(), ring, ring.buf
      ensures Valid() && Leads(old(Sys(Poll(0))), old(arrivals), acts, Sys(Ship), arrivals)
    {
      hide Leads, Shape, Run, Main, Ring.Contents, Ring.Count;
      ghost var s, was := Sys(Poll(0)), arrivals;
      acts := [];
      LeadsNowhere(s, was);
      for p := 0 to PORTS
        invariant Valid() && Leads(s, was, acts, Sys(Poll(p)), arrivals)
      {
        ghost var r, t := Sys(Poll(p)), arrivals;
        ghost var more := DrainPort(p);
        LeadsOn(s, was, acts, r, t, more, Sys(Poll(p + 1)), arrivals);
        acts := acts + more;
      }
      ghost var r := Sys(Poll(PORTS));
      LeadsStep(r, arrivals);
      PollEnd(r);
      LeadsOn(s, was, acts, r, arrivals, [MainStep], Sys(Ship), arrivals);
      acts := acts + [MainStep];
    }

    /** midi_rx_pump: a run of the receive system from its start, then one shipping step.  If no tick
        falls in it, every queue has been emptied unless the shared ring filled up first, whether or
        not the endpoint is busy. */
    method MidiRxPump() returns (ghost acts: seq<Action>, ghost mid: System)
      requires Valid()
      modifies this, fifo.slots, fifo.head, fifo.tail, parser, Cells(), ring, ring.buf, inBuf
      ensures Valid() && Leads(old(Sys(Poll(0))), old(arrivals), acts, mid, arrivals)
      ensures Shape(mid) && mid.pc == Ship && Sys(Poll(0)) == Next(mid, MainStep)
      ensures Flat(old(arrivals)) == [] ==> forall p :: 0 <= p < PORTS ==> !fifo.Available(p) || Full(mid.dev)
    {
      hide Leads, Shape, Run, Main, Ring.Contents, Ring.Count, Full;
      ghost var s, was := Sys(Poll(0)), arrivals;
      acts := DrainPorts();
      ghost var r, t := Sys(Ship), arrivals;
      ghost var more := Interrupts(Ship);
      LeadsOn(s, was, acts, r, t, more, Sys(Ship), arrivals);
      acts := acts + more;
      mid := Sys(Ship);
      LeadsQuiet(s, was, acts, mid, arrivals);
      forall p | 0 <= p < PORTS && Flat(was) == []
        ensures !fifo.Available(p) || Full(mid.dev)
      {
        assert Empty(mid.dev, p) || Full(mid.dev);
        assert mid.dev.fifo[p] == fifo.At(p);
      }
      ShipPackets();
    }

    /** The host has read EP2-IN, which is free again. */
    method EndpointRead(ghost pc: Pc)
      requires Valid() && InRange(pc)
      modifies this`busy, this`trace
      ensures Valid() && Sys(pc) == Next(old(Sys(pc)), HostRead)
    {
      hide Shape, InRange, Main, Tick;
      if busy {
        trace := trace.(read := trace.read + inBuf[..inCount]);
        busy := false;
      }
    }

    /** The vendor request that clears the overflow counter. */
    method ClearOverflowCount(ghost pc: Pc)
      requires Valid() && InRange(pc)
      modifies this`overflows, this`trace
      ensures Valid() && Sys(pc) == Next(old(Sys(pc)), ClearOverflows)
    {
      hide Shape, InRange, Main, Tick;
      overflows := 0;
      trace := trace.(forgiven := AllDropped(trace.log));
    }

    /** The main loop from start-up: a turn for each element of polls, which says whether the host
        reads EP2-IN before it.  It makes exactly these turns, in order, and no tick is missed.  Whatever
        ticks fall where, each port's packets read by the host, in the endpoint or still in the ring are
        what its parser makes of the bytes taken from its queue, and those with the bytes still queued
        are the ones the interrupt kept. */
    method Serve(polls: seq<bool>) returns (ghost calls: seq<Call>)
      requires Valid() && Initial(Sys(Poll(0)))
      modifies this, fifo.slots, fifo.head, fifo.tail, parser, Cells(), ring, ring.buf, inBuf
      ensures Valid() && Inv(Sys(Poll(0)), old(Parsers()))
      ensures |calls| == |polls| && forall k :: 0 <= k < |calls| ==> calls[k].poll == polls[k]
      ensures AreCalls(old(Sys(Poll(0))), calls) && Sys(Poll(0)) == AfterCalls(old(Sys(Poll(0))), calls)
      ensures Flat(old(arrivals)) == FiredIn(calls) + Flat(arrivals)
      ensures forall p :: 0 <= p < PORTS ==>
                && Kept(trace.log[p]) == trace.taken[p] + fifo.At(p).Contents()
                && Cable(Unpack(Upstream(Sys(Poll(0)))), p) == Out(old(Parsers())[p], trace.taken[p])
    {
      hide Inv, Initial, Leads, Next, Shape, Kept, Cable, Unpack, Out, Ring.Contents, Ring.Count, AfterCall, IsCall,
        AfterCalls, AreCalls, FiredIn, Fired, Flat;
      ghost var boot, start, was := Parsers(), Sys(Poll(0)), arrivals;
      InitialInv(start);
      calls := [];
      NoCalls(start, arrivals);
      for k := 0 to |polls|
        invariant Valid() && Inv(Sys(Poll(0)), boot)
        invariant |calls| == k && forall i :: 0 <= i < k ==> calls[i].poll == polls[i]
        invariant AreCalls(start, calls) && Sys(Poll(0)) == AfterCalls(start, calls)
        invariant Flat(was) == FiredIn(calls) + Flat(arrivals)
      {
        ghost var s, due := Sys(Poll(0)), arrivals;
        if polls[k] {
          NextInv(s, boot, HostRead);
          EndpointRead(Poll(0));
        }
        ghost var begun := Sys(Poll(0));
        ghost var acts, mid := MidiRxPump();
        LeadsInv(begun, due, acts, mid, arrivals, boot);
        NextInv(mid, boot, MainStep);
        ghost var c := Call(polls[k], acts);
        LeadsCall(s, c, due, mid, arrivals);
        CallsSnoc(start, calls, c);
        Regroup(FiredIn(calls), Fired(acts), Flat(arrivals));
        calls := calls + [c];
      }
      Delivered(Sys(Poll(0)), boot);
    }
  }

  lemma NoCalls(s: System, ticks: seq<Ticks>)
    requires Shape(s)
    ensures AreCalls(s, []) && AfterCalls(s, []) == s && Flat(ticks) == FiredIn([]) + Flat(ticks)
  {
  }

  lemma Regroup(a: Ticks, b: Ticks, c: Ticks)
    ensures a + (b + c) == a + b + c
  {
  }

  lemma LeadsCall(s: System, c: Call, before: seq<Ticks>, mid: System, after: seq<Ticks>)
    requires Shape(s) && s.pc == Poll(0) && mid.pc == Ship
    requires Leads(Begun(s, c), before, c.acts, mid, after)
    ensures Shape(mid) && IsCall(s, c) && AfterCall(s, c) == Next(mid, MainStep)
    ensures Flat(before) == Fired(c.acts) + Flat(after)
  {
    hide Shape, Run, NoShipping, Next, Flat, Fired;
  }

  lemma LeadsInv(s: System, before: seq<Ticks>, acts: seq<Action>, r: System, after: seq<Ticks>, boot: seq<Parser>)
    requires Leads(s, before, acts, r, after) && Inv(s, boot)
    ensures Inv(r, boot)
  {
    hide Inv, Run, Shape;
    RunInv(s, boot, acts);
  }

  lemma Delivered(s: System, boot: seq<Parser>)
    requires Inv(s, boot) && s.pc == Poll(0)
    ensures forall p :: 0 <= p < PORTS ==>
              && Kept(s.trace.log[p]) == s.trace.taken[p] + s.dev.fifo[p].Contents()
              && Cable(Unpack(Upstream(s)), p) == Out(boot[p], s.trace.taken[p])
  {
    hide Kept, Cable, Unpack, Out, After, Ring.Contents, Ring.Count;
    forall p | 0 <= p < PORTS
      ensures Kept(s.trace.log[p]) == s.trace.taken[p] + s.dev.fifo[p].Contents()
      ensures Cable(Unpack(Upstream(s)), p) == Out(boot[p], s.trace.taken[p])
    {
      assert PortInv(s, boot, p);
    }
  }

  lemma ShipTurn(r: Ring, n: nat)
    requires r.Valid() && |r.buf| == RX_RING_SIZE && r.Count() >= 4 && n <= MAXPKT - 4
    ensures r.Pop().Valid() && r.Pop().Pop().Valid() && r.Pop().Pop().Pop().Valid()
    ensures PopFour(r).Valid() && |PopFour(r).buf| == RX_RING_SIZE
    ensures var rest := ShipLoop(PopFour(r), n + 4);
            && ShipLoop(r, n).ring == rest.ring
            && ShipLoop(r, n).data ==
               [r.Peek(), r.Pop().Peek(), r.Pop().Pop().Peek(), r.Pop().Pop().Pop().Peek()] + rest.data
  {
    PopFourContents(r);
    hide Ring.Contents, Ring.Count, Ring.Peek, Ring.Pop;
  }

  lemma ShipNone(r: Ring)
    requires r.Valid() && |r.buf| == RX_RING_SIZE
    ensures ShipLoop(r, 0).data == [] ==> ShipLoop(r, 0).ring == r
  {
    hide Ring.Contents, Ring.Count, Ring.Peek, Ring.Pop;
  }

  lemma PollEnd(s: System)
    requires Shape(s) && s.pc == Poll(PORTS)
    ensures Main(s) == s.(pc := Ship)
  {
  }

  lemma LeadsQuiet(s: System, before: seq<Ticks>, acts: seq<Action>, r: System, after: seq<Ticks>)
    requires Leads(s, before, acts, r, after) && s.pc == Poll(0) && r.pc == Ship
    ensures Shape(r)
    ensures Flat(before) == [] ==> forall p :: 0 <= p < PORTS ==> Empty(r.dev, p) || Full(r.dev)
  {
    hide Run, NoShipping, Full, Empty;
    if Flat(before) == [] {
      FiredNone(acts);
      PumpDrains(s, acts);
    }
  }

  /** The two tests of the inner loop, as one step. */
  lemma PollStep(s: System, p: nat)
    requires Shape(s) && s.pc == Poll(p) && p < PORTS
    ensures var done := s.dev.fifo[p].head == s.dev.fifo[p].tail || s.dev.ring.Count() > RX_RING_SIZE - 1 - 4;
            Main(s) == s.(pc := if done then Poll(p + 1) else Read(p))
  {
  }

  lemma CountAfterPop(r: Ring)
    requires r.Valid()
    ensures r.head != r.tail ==> r.Pop().Valid() && r.Count() > 0 && r.Pop().Count() == r.Count() - 1
  {
    if r.head != r.tail {
      IndexTests(r);
      PopContents(r);
    }
  }

  lemma ResetTwice(ps: Parser)
    ensures Reset(Reset(ps)) == Reset(ps)
  {
  }
}
