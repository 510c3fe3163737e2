/** The receive pipeline's invariant holds after every step, so in every reachable state. */
module RxInvariant {
  import opened Bytes
  import opened Rings
  import opened MidiParser
  import opened Packets
  import opened RxPipeline

  // ---- The interrupt side ----------------------------------------------------------------

  lemma KeptSnoc(log: seq<Capture>, c: Capture)
    ensures Kept(log + [c]) == Kept(log) + if c.kept then [c.b] else []
  {
    assert (log + [c])[..|log|] == log;
  }

  lemma DroppedSnoc(log: seq<Capture>, c: Capture)
    ensures Dropped(log + [c]) == Dropped(log) + if c.kept then 0 else 1
  {
    assert (log + [c])[..|log|] == log;
  }

  lemma {:induction false} AllDroppedUpdate(logs: seq<seq<Capture>>, p: nat, c: Capture)
    requires p < |logs|
    ensures AllDropped(logs[p := logs[p] + [c]]) == AllDropped(logs) + if c.kept then 0 else 1
    decreases p
  {
    hide Dropped;
    if p == 0 {
      DroppedSnoc(logs[0], c);
    } else {
      AllDroppedUpdate(logs[1..], p - 1, c);
      assert logs[p := logs[p] + [c]][1..] == logs[1..][p - 1 := logs[p] + [c]];
    }
  }

  /** A capture is an enqueue on a queue of capacity 15: it appends, or the queue held 15
      bytes and the byte is dropped and counted. */
  lemma StoreEnqueues(s: System, p: nat, b: byte)
    requires Shape(s) && p < PORTS
    ensures var q, r := s.dev.fifo[p].Contents(), Store(s, p, b);
            && |q| <= 15
            && r.trace == s.trace.(log := s.trace.log[p := s.trace.log[p] + [Capture(b, |q| < 15)]])
            && (|q| < 15 ==> r.dev == s.dev.(fifo := s.dev.fifo[p := s.dev.fifo[p].Put(b)])
                             && r.dev.fifo[p].Contents() == q + [b])
            && (|q| == 15 ==> r.dev == s.dev.(overflows := if s.dev.overflows == 255 then 255 else s.dev.overflows + 1))
            && r.pc == s.pc
  {
    var ring := s.dev.fifo[p];
    IndexTests(ring);
    CountValue(ring);
    if |ring.Contents()| < 15 {
      PutContents(ring, b);
    }
  }

  lemma StorePort(s: System, boot: seq<Parser>, p: nat, b: byte, o: nat)
    requires Inv(s, boot) && p < PORTS && o < PORTS
    ensures PortInv(Store(s, p, b), boot, o)
  {
    hide Store, After, Out, Kept, Cable, Unpack, Ring.Contents, RingHolds;
    StoreEnqueues(s, p, b);
    assert PortInv(s, boot, o) && Parsed(Store(s, p, b), o) == Parsed(s, o);
    var q, taken := s.dev.fifo[p].Contents(), s.trace.taken[p];
    if o == p {
      KeptSnoc(s.trace.log[p], Capture(b, |q| < 15));
      assert taken + q + [b] == taken + (q + [b]);
      assert q != [] ==> (q + [b])[0] == q[0];
    }
  }

  lemma StoreInv(s: System, boot: seq<Parser>, p: nat, b: byte)
    requires Inv(s, boot) && p < PORTS
    ensures Inv(Store(s, p, b), boot)
  {
    hide Store, PortInv, RingHolds, Ring.Contents, AllDropped;
    StoreEnqueues(s, p, b);
    AllDroppedUpdate(s.trace.log, p, Capture(b, |s.dev.fifo[p].Contents()| < 15));
    forall o | 0 <= o < PORTS
      ensures PortInv(Store(s, p, b), boot, o)
    {
      StorePort(s, boot, p, b, o);
    }
  }

  lemma SweepInv(s: System, boot: seq<Parser>, lines: seq<Option<byte>>, p: nat)
    requires Inv(s, boot) && p <= PORTS
    ensures Inv(Sweep(s, lines, p), boot)
    decreases PORTS - p
  {
    assert Shape(s);
    hide Store, Inv;
    if p == PORTS {
    } else {
      match Line(lines, p) {
        case None =>
          SweepInv(s, boot, lines, p + 1);
        case Some(b) =>
          StoreInv(s, boot, p, b);
          SweepInv(Store(s, p, b), boot, lines, p + 1);
      }
    }
  }

  lemma PrescaleInv(s: System, boot: seq<Parser>, c: byte)
    requires Inv(s, boot)
    ensures Inv(s.(dev := s.dev.(prescale := c)), boot)
  {
    hide After, Out, Kept, Cable, Unpack, RingHolds, AllDropped, Ring.Contents;
    var r := s.(dev := s.dev.(prescale := c));
    forall o | 0 <= o < PORTS
      ensures PortInv(r, boot, o)
    {
      assert PortInv(s, boot, o);
    }
  }

  lemma TickInv(s: System, boot: seq<Parser>, lines: seq<Option<byte>>)
    requires Inv(s, boot)
    ensures Inv(RxPipeline.Tick(s, lines), boot)
  {
    hide Inv, Sweep;
    var c := U8(s.dev.prescale - 1);
    PrescaleInv(s, boot, c);
    PrescaleInv(s, boot, PRESCALE);
    if c == 0 {
      SweepInv(s.(dev := s.dev.(prescale := PRESCALE)), boot, lines, 0);
    }
  }

  // ---- The main loop ---------------------------------------------------------------------

  lemma RingCount(s: System)
    requires Shape(s) && RingInv(s)
    ensures s.dev.ring.Count() == |s.trace.emitted| - |s.trace.shipped|
    ensures s.dev.ring.Count() % 4 == 0
  {
    hide Ring.Count, Ring.Contents;
    assert |s.dev.ring.Contents()| == s.dev.ring.Count();
  }

  /** Moving the program counter between ports and up to a non-empty port's slot. */
  lemma PollInv(s: System, boot: seq<Parser>)
    requires Inv(s, boot) && s.pc.Poll?
    ensures Inv(Main(s), boot)
  {
    hide After, Out, Kept, Cable, Unpack, RingHolds, AllDropped, Ring.Contents;
    var r := Main(s);
    if r.pc.Read? {
      IndexTests(s.dev.fifo[r.pc.port]);
      RingCount(s);
    }
    forall o | 0 <= o < PORTS
      ensures PortInv(r, boot, o)
    {
      assert PortInv(s, boot, o);
      assert Parsed(r, o) == Parsed(s, o);
    }
  }

  lemma ReadInv(s: System, boot: seq<Parser>)
    requires Inv(s, boot) && s.pc.Read?
    ensures Inv(Main(s), boot)
  {
    hide After, Out, Kept, Cable, Unpack, RingHolds, AllDropped, Ring.Contents;
    var r, ring := Main(s), s.dev.fifo[s.pc.port];
    assert PortInv(s, boot, s.pc.port);
    PopContents(ring);
    forall o | 0 <= o < PORTS
      ensures PortInv(r, boot, o)
    {
      assert PortInv(s, boot, o);
      assert Parsed(r, o) == Parsed(s, o);
    }
  }

  lemma AdvanceInv(s: System, boot: seq<Parser>)
    requires Inv(s, boot) && s.pc.Advance?
    ensures Inv(Main(s), boot)
  {
    hide After, Out, Kept, Cable, Unpack, RingHolds, AllDropped, Ring.Contents;
    var p, b := s.pc.port, s.pc.b;
    var r, q, taken := Main(s), s.dev.fifo[p].Contents(), s.trace.taken[p];
    assert PortInv(s, boot, p);
    PopContents(s.dev.fifo[p]);
    assert taken + q == taken + [b] + q[1..];
    assert (taken + [b])[..|taken|] == taken;
    forall o | 0 <= o < PORTS
      ensures PortInv(r, boot, o)
    {
      assert PortInv(s, boot, o);
      assert Parsed(r, o) == Parsed(s, o);
    }
  }

  lemma EmittedCin(ps: Parser, b: byte)
    requires ps.Inv()
    ensures Step(ps, b).out.Some? ==> Step(ps, b).out.value.cin < 16
  {
  }

  lemma ForwardForward(i: byte, j: nat, k: nat)
    ensures Forward(Forward(i, j), k) == Forward(i, j + k)
  {
  }

  lemma PutHead(r: Ring, x: byte)
    requires r.Valid() && |r.buf| == RX_RING_SIZE
    ensures r.Put(x).Valid() && |r.Put(x).buf| == RX_RING_SIZE && r.Put(x).head == Forward(r.head, 1)
    ensures Forward(r.head, 0) == r.head
  {
  }

  lemma {:induction false} PutAllHead(r: Ring, xs: seq<byte>)
    requires r.Valid() && |r.buf| == RX_RING_SIZE && |xs| <= 4
    ensures r.PutAll(xs).head == Forward(r.head, |xs|)
    decreases |xs|
  {
    hide Ring.Put, Forward, Ring.Count, Ring.Contents;
    PutHead(r, 0);
    if xs == [] {
    } else {
      PutHead(r, xs[0]);
      ForwardForward(r.head, 1, |xs| - 1);
      PutAllHead(r.Put(xs[0]), xs[1..]);
    }
  }

  lemma EmittedWhole(s: System)
    requires RingInv(s)
    ensures |s.trace.emitted| % 4 == 0
  {
    hide Ring.Contents, At;
  }

  lemma ParsePort(s: System, boot: seq<Parser>, o: nat)
    requires Inv(s, boot) && s.pc.Parse? && o < PORTS
    ensures Shape(Main(s)) && PortInv(Main(s), boot, o)
  {
    hide After, Out, Kept, Cable, Unpack, RingHolds, AllDropped, Ring.Contents, Ring.Count, Step, Ring.PutAll;
    MainShape(s);
    var p, b := s.pc.port, s.pc.b;
    var r, out := Main(s), Step(s.dev.parser[p], b).out;
    assert PortInv(s, boot, o) && PortInv(s, boot, p);
    AfterInv(boot[p], Parsed(s, p));
    EmittedCin(s.dev.parser[p], b);
    EmittedWhole(s);
    if out.Some? {
      AppendPacket(s.trace.emitted, p, out.value, o);
    } else {
      assert r.trace.emitted == s.trace.emitted;
    }
    if o == p {
      Snoc(boot[p], Parsed(s, p), b);
      assert Parsed(r, p) == Parsed(s, p) + [b];
    } else {
      assert Parsed(r, o) == Parsed(s, o);
      assert Cable(Unpack(s.trace.emitted), o) + [] == Cable(Unpack(s.trace.emitted), o);
    }
  }

  lemma AtAdd(count: nat, k: nat)
    ensures At(count + k) == Forward(At(count), k)
  {
  }

  lemma PutHolds(r: Ring, emitted: seq<byte>, shipped: seq<byte>, bytes: seq<byte>)
    requires RingHolds(r, emitted, shipped) && (bytes == [] || |bytes| == 4)
    requires |emitted| - |shipped| <= RX_RING_SIZE - 8
    ensures RingHolds(r.PutAll(bytes), emitted + bytes, shipped)
  {
    hide Ring.PutAll, Ring.Contents, Ring.Count, At, Forward;
    PutAllContents(r, bytes);
    PutAllHead(r, bytes);
    AtAdd(|emitted|, |bytes|);
    WholePackets(|emitted|, |bytes|);
    assert emitted + bytes == shipped + (r.Contents() + bytes);
  }

  lemma WholePackets(a: nat, b: nat)
    requires a % 4 == 0 && (b == 0 || b == 4)
    ensures (a + b) % 4 == 0
  {
  }

  lemma ParseInv(s: System, boot: seq<Parser>)
    requires Inv(s, boot) && s.pc.Parse?
    ensures Inv(Main(s), boot)
  {
    var p, b := s.pc.port, s.pc.b;
    MainShape(s);
    hide Step, PortInv, RingHolds, Ring.PutAll;
    PutHolds(s.dev.ring, s.trace.emitted, s.trace.shipped, EmitBytes(p, Step(s.dev.parser[p], b).out));
    forall o | 0 <= o < PORTS
      ensures PortInv(Main(s), boot, o)
    {
      ParsePort(s, boot, o);
    }
  }

  function PopFour(r: Ring): Ring
    requires r.Valid()
  {
    r.Pop().Pop().Pop().Pop()
  }

  lemma PopFourTail(r: Ring)
    requires r.Valid() && |r.buf| == RX_RING_SIZE
    ensures PopFour(r).tail == Forward(r.tail, 4)
  {
    hide Ring.Contents, Ring.Count;
  }

  lemma PopFourContents(r: Ring)
    requires r.Valid() && |r.buf| == RX_RING_SIZE && r.Count() >= 4
    ensures var r1 := r.Pop();
            var r2 := r1.Pop();
            var r3 := r2.Pop();
            && r3.Valid() && PopFour(r).Valid()
            && r.Contents() == [r.Peek(), r1.Peek(), r2.Peek(), r3.Peek()] + PopFour(r).Contents()
    ensures |PopFour(r).buf| == RX_RING_SIZE && PopFour(r).head == r.head
  {
    hide Ring.Contents, Ring.Count, Ring.Peek;
    var r1 := r.Pop();
    PopContents(r);
    var r2 := r1.Pop();
    PopContents(r1);
    var r3 := r2.Pop();
    PopContents(r2);
    PopContents(r3);
    hide Ring.Pop;
  }

  lemma ShipLoopOnce(r: Ring, n: nat)
    requires r.Valid() && |r.buf| == RX_RING_SIZE && r.Count() >= 4 && n <= MAXPKT - 4
    ensures PopFour(r).Valid() && |PopFour(r).buf| == RX_RING_SIZE && PopFour(r).head == r.head
    ensures var sh, rest := ShipLoop(r, n), ShipLoop(PopFour(r), n + 4);
            && sh.ring == rest.ring && |sh.data| == |rest.data| + 4
            && sh.data[4..] == rest.data && r.Contents() == sh.data[..4] + PopFour(r).Contents()
  {
    PopFourContents(r);
    hide Ring.Contents, Ring.Count, Ring.Peek, Ring.Pop;
  }

  lemma ShipLoopStops(r: Ring, n: nat)
    requires r.Valid() && |r.buf| == RX_RING_SIZE && !(r.Count() >= 4 && n <= MAXPKT - 4)
    ensures ShipLoop(r, n) == Shipment(r, []) && Forward(r.tail, 0) == r.tail
  {
  }

  /** The shipping loop takes whole packets off the front of the queue, as many as fit. */
  lemma {:induction false} ShipLoopContents(r: Ring, n: nat)
    requires r.Valid() && |r.buf| == RX_RING_SIZE && n % 4 == 0 && n <= MAXPKT
    ensures var sh := ShipLoop(r, n);
            && sh.ring.Valid() && |sh.ring.buf| == RX_RING_SIZE && sh.ring.head == r.head
            && r.Contents() == sh.data + sh.ring.Contents()
            && |sh.data| % 4 == 0 && |sh.data| <= MAXPKT - n
            && (|sh.ring.Contents()| >= 4 ==> |sh.data| == MAXPKT - n)
            && sh.ring.tail == Forward(r.tail, |sh.data|)
    decreases MAXPKT - n
  {
    hide Ring.Contents, Ring.Count, ShipLoop, PopFour, Forward;
    var sh := ShipLoop(r, n);
    if r.Count() >= 4 && n <= MAXPKT - 4 {
      ShipLoopOnce(r, n);
      PopFourTail(r);
      ShipLoopContents(PopFour(r), n + 4);
      var rest := ShipLoop(PopFour(r), n + 4);
      ForwardForward(r.tail, 4, |rest.data|);
      assert sh.data == sh.data[..4] + rest.data;
      assert sh.data[..4] + (rest.data + rest.ring.Contents()) == sh.data + sh.ring.Contents();
    } else {
      ShipLoopStops(r, n);
      assert r.Contents() == [] + r.Contents();
    }
  }

  lemma ShipHolds(r: Ring, emitted: seq<byte>, shipped: seq<byte>)
    requires RingHolds(r, emitted, shipped)
    ensures RingHolds(ShipLoop(r, 0).ring, emitted, shipped + ShipLoop(r, 0).data)
    ensures |ShipLoop(r, 0).data| <= MAXPKT && |ShipLoop(r, 0).data| % 4 == 0
  {
    hide ShipLoop, Ring.Contents, Ring.Count, At, Forward;
    var sh := ShipLoop(r, 0);
    ShipLoopContents(r, 0);
    AtAdd(|shipped|, |sh.data|);
    assert shipped + (sh.data + sh.ring.Contents()) == shipped + sh.data + sh.ring.Contents();
  }

  lemma ShipInv(s: System, boot: seq<Parser>)
    requires Inv(s, boot) && s.pc.Ship?
    ensures Inv(Main(s), boot)
  {
    hide After, Out, Kept, Cable, Unpack, RingHolds, AllDropped, Ring.Contents, Ring.Count, ShipLoop;
    MainShape(s);
    ShipHolds(s.dev.ring, s.trace.emitted, s.trace.shipped);
    var r := Main(s);
    assert !s.dev.busy ==> s.trace.read + InEndpoint(s.dev) == s.trace.read;
    forall o | 0 <= o < PORTS
      ensures PortInv(r, boot, o)
    {
      assert PortInv(s, boot, o);
      assert Parsed(r, o) == Parsed(s, o);
    }
  }

  lemma HostReadInv(s: System, boot: seq<Parser>)
    requires Inv(s, boot)
    ensures Inv(Next(s, HostRead), boot)
  {
    hide After, Out, Kept, Cable, Unpack, RingHolds, AllDropped, Ring.Contents;
    var r := Next(s, HostRead);
    assert r.trace.read + InEndpoint(r.dev) == r.trace.read;
    forall o | 0 <= o < PORTS
      ensures PortInv(r, boot, o)
    {
      assert PortInv(s, boot, o);
    }
  }

  // ---- All runs --------------------------------------------------------------------------

  lemma NextInv(s: System, boot: seq<Parser>, a: Action)
    requires Inv(s, boot)
    ensures Inv(Next(s, a), boot)
  {
    match a {
      case Timer(lines) =>
        TickInv(s, boot, lines);
      case MainStep =>
        match s.pc {
          case Poll(_) => PollInv(s, boot);
          case Read(_) => ReadInv(s, boot);
          case Advance(_, _) => AdvanceInv(s, boot);
          case Parse(_, _) => ParseInv(s, boot);
          case Ship => ShipInv(s, boot);
        }
      case HostRead =>
        HostReadInv(s, boot);
      case ClearOverflows =>
        hide After, Out, Kept, Cable, Unpack, RingHolds, AllDropped, Ring.Contents;
        forall o | 0 <= o < PORTS
          ensures PortInv(Next(s, a), boot, o)
        {
          assert PortInv(s, boot, o);
        }
    }
  }

  lemma {:induction false} RunInv(s: System, boot: seq<Parser>, acts: seq<Action>)
    requires Inv(s, boot)
    ensures Inv(Run(s, acts), boot)
    decreases |acts|
  {
    if acts == [] {
    } else {
      hide Inv, Next;
      NextInv(s, boot, acts[0]);
      RunInv(Next(s, acts[0]), boot, acts[1..]);
    }
  }

  lemma {:induction false} NoneDropped(logs: seq<seq<Capture>>)
    requires forall p :: 0 <= p < |logs| ==> Dropped(logs[p]) == 0
    ensures AllDropped(logs) == 0
  {
    if logs == [] {
    } else {
      NoneDropped(logs[1..]);
    }
  }

  lemma InitialInv(s: System)
    requires Initial(s)
    ensures Inv(s, s.dev.parser)
  {
    CountValue(s.dev.ring);
    NoneDropped(s.trace.log);
    forall o | 0 <= o < PORTS
      ensures s.dev.parser[o].Inv() && PortInv(s, s.dev.parser, o)
    {
      CountValue(s.dev.fifo[o]);
    }
  }
}
