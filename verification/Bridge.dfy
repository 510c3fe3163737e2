/** main.c as it is written: bridge_out and uart_tx_pump over the transmit rings, and the EP2-OUT
    interrupt, each shown to make the step of the transmit system. */
module Bridge {
  import opened Bytes
  import opened Rings
  import opened MidiParser
  import opened Packets
  import opened PortRings
  import opened TxBridge
  import opened TxTheorems
  import opened TxProgress
  import opened TxDelivery

  /** What happens around one turn of the main loop: actions of host and interrupt before bridge_out and
      after it, and which UARTs are ready. */
  datatype Turning = Turning(before: seq<Action>, between: seq<Action>, ready: seq<bool>)

  /** Outside the main loop there are only the host and the interrupt. */
  predicate OutsideOnly(turns: seq<Turning>) {
    forall t, a :: t in turns && a in t.before + t.between ==> a.HostOut? || a.Ep2OutIsr?
  }

  /** One turn: what happens outside, bridge_out, what happens outside, uart_tx_pump. */
  function TurnOf(s: System, t: Turning): (r: System)
    requires Shape(s)
    ensures Shape(r)
  {
    PumpAll(Run(TxProgress.BridgeOut(Run(s, t.before)), t.between), t.ready, 0)
  }

  function AfterTurns(s: System, turns: seq<Turning>): (r: System)
    requires Shape(s)
    ensures Shape(r)
    decreases |turns|
  {
    if turns == [] then s else AfterTurns(TurnOf(s, turns[0]), turns[1..])
  }

  class Bridge {
    const ring: PortRings
    var outOff: byte
    var semaphore: bool
    const buf: array<byte>
    var bc: byte
    var irq: bool
    var armed: bool
    ghost var trace: Trace

    ghost predicate Sized() {
      && ring.Sized() && ring.slots.Length1 == TX_RING_SIZE
      && buf.Length == MAXPKT && buf !in ring.Repr()
    }

    ghost predicate Valid()
      reads this, ring.head, ring.tail
    {
      && Sized() && ring.Valid()
      && outOff <= MAXPKT && bc <= MAXPKT && |trace.wire| == PORTS
    }

    /** The state of the transmit system, with the main loop at the given point. */
    ghost function Sys(pc: Pc): (s: System)
      requires Valid()
      reads this, buf, ring.slots, ring.head, ring.tail
      ensures Shape(s)
    {
      System(Tx(ring.All(), outOff, semaphore, irq, armed, buf[..], bc), pc, trace)
    }

    /** Memory and endpoint before main runs: no packet has arrived, the rest is anything. */
    constructor ()
      ensures Sized() && !semaphore && !irq && bc <= MAXPKT
      ensures fresh(ring) && fresh(ring.Repr()) && fresh(buf)
    {
      ring := new PortRings(TX_RING_SIZE);
      buf := new byte[MAXPKT];
      bc, semaphore, irq := 0, false, false;
    }

    /** tx_reset, and the first re-arm at the end of the start-up code. */
    method Start()
      requires Sized() && !semaphore && !irq && bc <= MAXPKT
      modifies this, ring.head, ring.tail
      ensures Valid() && Initial(Sys(Check))
    {
      ring.Clear();
      outOff := 0;
      armed := true;
      trace := Trace([], [], seq(PORTS, _ => []));
    }

    /** tx_room. */
    function TxRoom(p: nat): (n: nat)
      requires Valid() && p < PORTS
      reads this, ring.slots, ring.head, ring.tail
      ensures n == Room(ring.At(p)) == TX_RING_SIZE - 1 - |ring.At(p).Contents()|
    {
      RoomValue(ring.At(p));
      U8(TX_RING_SIZE - 1 - ring.Count(p))
    }

    /** The inner loop of bridge_out: the payload of the event at offset i goes to ring cn. */
    method Enqueue(cn: nat, i: nat, len: nat)
      requires Valid() && cn < PORTS && i + 1 + len <= MAXPKT
      modifies ring.slots, ring.head
      ensures Valid() && buf[..] == old(buf[..])
      ensures ring.All() == old(ring.All())[cn := old(ring.At(cn)).PutAll(buf[i + 1..i + 1 + len])]
    {
      hide Ring.Put, Ring.PutAll;
      ghost var was := ring.All();
      ghost var bytes := buf[..];
      PutNothing(was[cn]);
      assert bytes[i + 1..i + 1] == [];
      for j := 0 to len
        invariant Valid() && buf[..] == bytes
        invariant ring.All() == was[cn := was[cn].PutAll(bytes[i + 1..i + 1 + j])]
      {
        PutAllSnoc(was[cn], bytes[i + 1..i + 1 + j], buf[i + 1 + j]);
        assert bytes[i + 1..i + 1 + j] + [buf[i + 1 + j]] == bytes[i + 1..i + 1 + (j + 1)];
        ring.Put(cn, buf[i + 1 + j]);
      }
    }

    /** The body of the loop of bridge_out, on the event at offset i; false means no room. */
    method StoreEvent(i: nat) returns (fits: bool)
      requires Valid() && i + 4 <= MAXPKT
      modifies ring.slots, ring.head
      ensures Valid() && buf[..] == old(buf[..])
      ensures var r := Spread(old(ring.All()), buf[..], i);
              fits == r.Some? && ring.All() == if fits then r.value else old(ring.All())
    {
      hide Ring.PutAll, Room, CinLen;
      var cn := buf[i] / 16;
      var len := CinLen(buf[i] % 16);
      if cn >= PORTS || len == 0 {
        return true;
      }
      if TxRoom(cn) < len {
        return false;
      }
      Enqueue(cn, i, len);
      return true;
    }

    /** The loop of bridge_out: where it ends, and whether for lack of room. */
    method Walk(n: byte) returns (i: nat, stalled: bool)
      requires Valid() && n <= MAXPKT
      modifies ring.slots, ring.head
      ensures Valid() && buf[..] == old(buf[..])
      ensures BridgeLoop(old(ring.All()), buf[..], n, outOff) == Bridged(ring.All(), i, stalled)
    {
      hide TxBridge.Spread, BridgeLoop;
      i := outOff;
      while U8(i + 4) <= n
        invariant Valid() && i <= MAXPKT && buf[..] == old(buf[..])
        invariant BridgeLoop(ring.All(), buf[..], n, i) == BridgeLoop(old(ring.All()), buf[..], n, outOff)
        decreases MAXPKT - i
      {
        LoopTurn(ring.All(), buf[..], n, i);
        var fits := StoreEvent(i);
        if !fits {
          return i, true;
        }
        i := i + 4;
      }
      LoopTurn(ring.All(), buf[..], n, i);
      stalled := false;
    }

    /** bridge_out: the three steps Check, Clear and Arm, or only the first if it stops early. */
    method BridgeOut()
      requires Valid()
      modifies this, ring.slots, ring.head
      ensures Valid() && Sys(Check) == TxProgress.BridgeOut(old(Sys(Check)))
    {
      hide BridgeLoop, TxProgress.BridgeOut, Unpack;
      BridgeOutcome(Sys(Check));
      if !semaphore {
        return;
      }
      var i, stalled := Walk(bc);
      trace := trace.(done := trace.done + Unpack(buf[outOff..i]));
      if stalled {
        outOff := i;
        return;
      }
      outOff := 0;
      semaphore := false;
      armed := true;
    }

    /** The body of the loop of uart_tx_pump. */
    method PumpOne(p: nat, ready: bool)
      requires Valid() && p < PORTS
      modifies this`trace, ring.tail
      ensures Valid() && Sys(Check) == Pump(old(Sys(Check)), p, ready)
    {
      hide Ring.Pop, Ring.Peek;
      if ring.Available(p) && ready {
        var b := ring.Peek(p);
        trace := trace.(wire := trace.wire[p := trace.wire[p] + [b]]);
        ring.Pop(p);
      }
    }

    /** uart_tx_pump; ready is what the UARTs answer. */
    method UartTxPump(ready: seq<bool>)
      requires Valid()
      modifies this`trace, ring.tail
      ensures Valid() && Sys(Check) == PumpAll(old(Sys(Check)), ready, 0)
    {
      hide Pump, Ready;
      for p := 0 to PORTS
        invariant Valid()
        invariant PumpAll(Sys(Check), ready, p) == PumpAll(old(Sys(Check)), ready, 0)
      {
        PumpOne(p, Ready(ready, p));
      }
    }

    /** ep2out_isr. */
    method Ep2OutIsr(ghost pc: Pc)
      requires Valid()
      modifies this
      ensures Valid() && Sys(pc) == Interrupt(old(Sys(pc)))
    {
      if irq {
        semaphore := true;
        irq := false;
      }
    }

    /** The transmit half of one turn of the main loop. */
    method Turn(ready: seq<bool>)
      requires Valid()
      modifies this, ring.slots, ring.head, ring.tail
      ensures Valid() && Sys(Check) == Pass(old(Sys(Check)), ready)
    {
      BridgeOut();
      UartTxPump(ready);
    }

    method Fill(data: seq<byte>)
      requires |data| <= buf.Length
      modifies buf
      ensures buf[..] == data + old(buf[|data|..])
    {
      for k := 0 to |data|
        invariant forall i :: 0 <= i < k ==> buf[i] == data[i]
        invariant forall i :: k <= i < buf.Length ==> buf[i] == old(buf[i])
      {
        buf[k] := data[k];
      }
    }

    /** A bulk transfer of the host: taken into the buffer and signalled if the endpoint is armed,
        refused otherwise. */
    method Receive(data: seq<byte>)
      requires Valid()
      modifies this, buf
      ensures Valid() && Sys(Check) == HostSends(old(Sys(Check)), data)
    {
      hide Unpack, Shape;
      if armed && |data| <= MAXPKT {
        Fill(data);
        bc := |data|;
        armed := false;
        irq := true;
        trace := trace.(sent := trace.sent + Unpack(data));
      }
    }

    /** What the host and the interrupt do between two calls of the main loop, in any order. */
    method Outside(acts: seq<Action>)
      requires Valid() && forall a :: a in acts ==> a.HostOut? || a.Ep2OutIsr?
      modifies this, buf
      ensures Valid() && Sys(Check) == Run(old(Sys(Check)), acts)
    {
      hide HostSends, Interrupt, TxBridge.Main, Pump, Shape;
      assert acts[0..] == acts;
      for k := 0 to |acts|
        invariant Valid() && Run(Sys(Check), acts[k..]) == Run(old(Sys(Check)), acts)
      {
        assert acts[k..][0] == acts[k] && acts[k..][1..] == acts[k + 1..] && acts[k] in acts;
        match acts[k] {
          case HostOut(data) => Receive(data);
          case Ep2OutIsr => Ep2OutIsr(Check);
        }
      }
    }

    /** The main loop from start-up: exactly the turns, in order.  Before and after bridge_out in each turn
        the host may send and the interrupt may be taken, at once, late or not at all, and the UARTs
        answer as given.  Each port's UART output and ring hold, in order and exactly once, the payload of
        that cable's events that bridge_out is done with, and no event is lost before that. */
    method Serve(turns: seq<Turning>)
      requires Valid() && Initial(Sys(Check))
      requires OutsideOnly(turns)
      modifies this, buf, ring.slots, ring.head, ring.tail
      ensures Valid() && Sys(Check) == AfterTurns(old(Sys(Check)), turns)
      ensures Inv(Sys(Check)) && trace.sent == trace.done + Rest(Sys(Check))
      ensures forall p :: 0 <= p < PORTS ==> trace.wire[p] + ring.At(p).Contents() == Decode(Cable(trace.done, p))
    {
      hide Run, Initial, TxProgress.BridgeOut, PumpAll, Rest, Decode, Cable, Ring.Contents, Shape, PortInv, Handshake;
      InitialInv(Sys(Check));
      assert turns[0..] == turns;
      for k := 0 to |turns|
        invariant Valid() && Inv(Sys(Check))
        invariant AfterTurns(Sys(Check), turns[k..]) == AfterTurns(old(Sys(Check)), turns)
      {
        var t := turns[k];
        assert turns[k..][0] == t && turns[k..][1..] == turns[k + 1..];
        assert t in turns && (forall a :: a in t.before || a in t.between ==> a in t.before + t.between);
        RunInv(Sys(Check), t.before);
        Outside(t.before);
        BridgeOutInv(Sys(Check));
        BridgeOut();
        RunInv(Sys(Check), t.between);
        Outside(t.between);
        PumpAllInv(Sys(Check), t.ready, 0);
        UartTxPump(t.ready);
      }
      WireAndRing(Sys(Check));
    }
  }

  function Readies(turns: seq<Turning>): seq<seq<bool>> {
    if turns == [] then [] else [turns[0].ready] + Readies(turns[1..])
  }

  /** Turns in which nothing happens outside are passes. */
  lemma {:induction false} SilentTurns(s: System, turns: seq<Turning>)
    requires Shape(s) && forall t :: t in turns ==> t.before == t.between == []
    ensures AfterTurns(s, turns) == Passes(s, Readies(turns))
    decreases |turns|
  {
    hide TxProgress.BridgeOut, PumpAll;
    if turns == [] {
    } else {
      assert turns[0] in turns;
      assert TurnOf(s, turns[0]) == Pass(s, turns[0].ready);
      SilentTurns(TurnOf(s, turns[0]), turns[1..]);
      assert ([turns[0].ready] + Readies(turns[1..]))[1..] == Readies(turns[1..]);
    }
  }

  /** Turns in which the host sends one packet, at the start, and is then silent. */
  ghost predicate OnePacket(turns: seq<Turning>, data: seq<byte>) {
    && turns != [] && turns[0].before == [HostOut(data), Ep2OutIsr] && turns[0].between == []
    && forall i :: 1 <= i < |turns| ==> turns[i].before == turns[i].between == []
  }

  /** At least 175 stretches of passes in each of which every UART is ready at least once. */
  ghost predicate Often(rs: seq<seq<bool>>, blocks: seq<seq<seq<bool>>>) {
    rs == Flat(blocks) && |blocks| >= 175 && forall b :: b in blocks ==> Fair(b)
  }

  lemma FromArmed(m: System, data: seq<byte>, silent: seq<Turning>, blocks: seq<seq<seq<bool>>>)
    requires Inv(m) && m.dev.armed && |data| <= MAXPKT
    requires OnePacket(silent, data) && Often(Readies(silent), blocks)
    ensures Shape(m)
    ensures var e := AfterTurns(m, silent);
            && e.dev.armed && e.trace.sent == e.trace.done == m.trace.sent + Unpack(data)
            && forall p :: 0 <= p < PORTS ==> e.trace.wire[p] == Decode(Cable(e.trace.sent, p))
  {
    hide Inv, Passes, Unpack, Decode, Cable, Fair, Flat, Readies, TurnOf, AfterTurns, OnePacket, Next;
    InvShape(m);
    FirstTurn(m, data, silent);
    TransferDelivered(m, data, blocks);
  }

  /** What the main loop is for: after any turns that end with the endpoint armed, the host sends a packet
      and is then silent.  When the turns from there on contain 175 stretches in which every UART is
      ready at least once, each UART has been given the payload of everything ever sent on its cable. */
  lemma TurnsDeliver(s: System, turns: seq<Turning>, data: seq<byte>, silent: seq<Turning>, blocks: seq<seq<seq<bool>>>)
    requires Initial(s) && OutsideOnly(turns) && AfterTurns(s, turns).dev.armed && |data| <= MAXPKT
    requires OnePacket(silent, data) && Often(Readies(silent), blocks)
    ensures var m, e := AfterTurns(s, turns), AfterTurns(s, turns + silent);
            && e.dev.armed && e.trace.sent == e.trace.done == m.trace.sent + Unpack(data)
            && forall p :: 0 <= p < PORTS ==> e.trace.wire[p] == Decode(Cable(e.trace.sent, p))
  {
    hide Inv, Unpack, Decode, Cable, Readies, TurnOf, AfterTurns, Initial, OutsideOnly, OnePacket, Often;
    InitialTurns(s, turns);
    TurnsConcat(s, turns, silent);
    FromArmed(AfterTurns(s, turns), data, silent, blocks);
  }

  lemma InitialTurns(s: System, turns: seq<Turning>)
    requires Initial(s) && OutsideOnly(turns)
    ensures Shape(s) && Inv(AfterTurns(s, turns))
  {
    hide Inv, AfterTurns, OutsideOnly;
    InitialInv(s);
    TurnsInv(s, turns);
  }

  lemma {:induction false} TurnsConcat(s: System, a: seq<Turning>, b: seq<Turning>)
    requires Shape(s)
    ensures AfterTurns(s, a + b) == AfterTurns(AfterTurns(s, a), b)
    decreases |a|
  {
    hide TurnOf;
    if a == [] {
      assert a + b == b;
    } else {
      TurnsConcat(TurnOf(s, a[0]), a[1..], b);
      assert (a + b)[1..] == a[1..] + b;
    }
  }

  lemma {:induction false} OutsideInv(s: System, acts: seq<Action>)
    requires Inv(s) && s.pc == Check && forall a :: a in acts ==> a.HostOut? || a.Ep2OutIsr?
    ensures Inv(Run(s, acts)) && Run(s, acts).pc == Check
    decreases |acts|
  {
    hide PortInv, Handshake, Rest, Unpack;
    if acts == [] {
    } else {
      assert acts[0] in acts;
      NextInv(s, acts[0]);
      OutsideInv(Next(s, acts[0]), acts[1..]);
    }
  }

  lemma TurnInv(s: System, t: Turning)
    requires Inv(s) && s.pc == Check && forall a :: a in t.before + t.between ==> a.HostOut? || a.Ep2OutIsr?
    ensures Inv(TurnOf(s, t)) && TurnOf(s, t).pc == Check
  {
    hide Inv, Run, TxProgress.BridgeOut, PumpAll;
    InvShape(s);
    OutsideInv(s, t.before);
    var m := Run(s, t.before);
    BridgeOutInv(m);
    CheckAfter(m);
    OutsideInv(TxProgress.BridgeOut(m), t.between);
    var b := Run(TxProgress.BridgeOut(m), t.between);
    PumpAllInv(b, t.ready, 0);
    PumpAllRing(b, t.ready, 0, 0);
  }

  /** The invariant through any turns. */
  lemma {:induction false} TurnsInv(s: System, turns: seq<Turning>)
    requires Inv(s) && s.pc == Check && OutsideOnly(turns)
    ensures Inv(AfterTurns(s, turns)) && AfterTurns(s, turns).pc == Check
    decreases |turns|
  {
    hide Inv, TurnOf;
    InvShape(s);
    if turns == [] {
    } else {
      assert turns[0] in turns;
      TurnInv(s, turns[0]);
      TurnsInv(TurnOf(s, turns[0]), turns[1..]);
    }
  }

  lemma FirstTurn(m: System, data: seq<byte>, silent: seq<Turning>)
    requires Shape(m) && OnePacket(silent, data)
    ensures AfterTurns(m, silent) == Passes(Next(Next(m, HostOut(data)), Ep2OutIsr), Readies(silent))
  {
    hide TxProgress.BridgeOut, PumpAll, Next;
    var t := Next(Next(m, HostOut(data)), Ep2OutIsr);
    assert [HostOut(data), Ep2OutIsr][1..] == [Ep2OutIsr] && [Ep2OutIsr][1..] == [];
    assert Run(m, silent[0].before) == t;
    assert TurnOf(m, silent[0]) == Pass(t, silent[0].ready);
    SilentTurns(Pass(t, silent[0].ready), silent[1..]);
    assert ([silent[0].ready] + Readies(silent[1..]))[1..] == Readies(silent[1..]);
  }
}
