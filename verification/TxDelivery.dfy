/** From the host's transfer to the wire: the interrupt hands the packet over, the main loop consumes
    it and the UARTs get all of it, once the ports have been ready often enough. */
module TxDelivery {
  import opened Bytes
  import opened Rings
  import opened MidiParser
  import opened Packets
  import opened TxBridge
  import opened TxTheorems
  import opened TxProgress

  // ---- Calls of the main loop, put together -----------------------------------------------

  /** One turn of the loop of bridge_out. */
  lemma LoopTurn(ring: seq<Ring>, buf: seq<byte>, n: nat, i: nat)
    requires RingsOk(ring) && |buf| == MAXPKT && i <= MAXPKT && n <= MAXPKT
    ensures U8(i + 4) > n ==> BridgeLoop(ring, buf, n, i) == Bridged(ring, i, false)
    ensures U8(i + 4) <= n ==>
              var r := Spread(ring, buf, i);
              BridgeLoop(ring, buf, n, i) == if r.None? then Bridged(ring, i, true) else BridgeLoop(r.value, buf, n, i + 4)
  {
    hide TxBridge.Spread;
  }

  /** The steps of one call of bridge_out, put together. */
  lemma BridgeOutcome(s: System)
    requires Shape(s) && s.pc == Check
    ensures var d, e := s.dev, TxProgress.BridgeOut(s);
            if !d.semaphore then e == s
            else
              var r := BridgeLoop(d.ring, d.buf, d.bc, d.outOff);
              var t := s.trace.(done := s.trace.done + Unpack(d.buf[d.outOff..r.at]));
              e == if r.stalled then System(d.(ring := r.ring, outOff := r.at), Check, t)
                   else System(d.(ring := r.ring, outOff := 0, semaphore := false, armed := true), Check, t)
  {
    hide BridgeLoop, Unpack;
  }

  lemma WireAndRing(s: System)
    requires Inv(s)
    ensures forall p :: 0 <= p < PORTS ==> s.trace.wire[p] + s.dev.ring[p].Contents() == Decode(Cable(s.trace.done, p))
  {
    hide Handshake, Rest, Decode, Cable, Ring.Contents;
    forall p | 0 <= p < PORTS
      ensures s.trace.wire[p] + s.dev.ring[p].Contents() == Decode(Cable(s.trace.done, p))
    {
      assert PortInv(s, p);
    }
  }

  lemma PumpAllInv(s: System, ready: seq<bool>, p: nat)
    requires Inv(s) && p <= PORTS
    ensures Inv(PumpAll(s, ready, p))
    decreases PORTS - p
  {
    hide PortInv, Handshake, Rest, Pump, Ready;
    if p == PORTS {
    } else {
      PumpInv(s, p, Ready(ready, p));
      PumpAllInv(Pump(s, p, Ready(ready, p)), ready, p + 1);
    }
  }

  /** The steps of one call of bridge_out keep the invariant. */
  lemma BridgeOutInv(s: System)
    requires Inv(s) && s.pc == Check
    ensures Inv(TxProgress.BridgeOut(s))
  {
    hide PortInv, Handshake, Rest, TxBridge.Main;
    NextInv(s, BridgeStep);
    var b := TxBridge.Main(s);
    NextInv(b, BridgeStep);
    NextInv(TxBridge.Main(b), BridgeStep);
  }

  lemma PassInv(s: System, ready: seq<bool>)
    requires Inv(s) && s.pc == Check
    ensures Inv(Pass(s, ready)) && Pass(s, ready).pc == Check
  {
    hide Inv, TxProgress.BridgeOut, PumpAll;
    InvShape(s);
    BridgeOutInv(s);
    CheckAfter(s);
    PumpAllInv(TxProgress.BridgeOut(s), ready, 0);
    PumpAllRing(TxProgress.BridgeOut(s), ready, 0, 0);
  }

  lemma InvShape(s: System)
    requires Inv(s)
    ensures Shape(s)
  {
  }

  lemma CheckAfter(s: System)
    requires Shape(s) && s.pc == Check
    ensures TxProgress.BridgeOut(s).pc == Check && TxProgress.BridgeOut(s).trace.sent == s.trace.sent
  {
    hide BridgeLoop, Unpack;
    BridgeOutcome(s);
  }

  lemma {:induction false} PumpAllTrace(s: System, ready: seq<bool>, p: nat)
    requires Shape(s) && p <= PORTS
    ensures PumpAll(s, ready, p).trace.sent == s.trace.sent && PumpAll(s, ready, p).trace.done == s.trace.done
    decreases PORTS - p
  {
    hide Ring.Pop, Ready, Shape;
    if p == PORTS {
    } else {
      PumpAllTrace(Pump(s, p, Ready(ready, p)), ready, p + 1);
    }
  }

  /** The invariant through any number of passes, in which the host sends nothing. */
  lemma {:induction false} PassesInv(s: System, rs: seq<seq<bool>>)
    requires Inv(s) && s.pc == Check
    ensures var e := Passes(s, rs);
            Inv(e) && e.pc == Check && e.trace.sent == s.trace.sent
    decreases |rs|
  {
    hide Inv, TxProgress.BridgeOut, PumpAll;
    InvShape(s);
    if rs == [] {
    } else {
      PassInv(s, rs[0]);
      CheckAfter(s);
      PumpAllTrace(TxProgress.BridgeOut(s), rs[0], 0);
      PassesInv(Pass(s, rs[0]), rs[1..]);
    }
  }

  // ---- Host and interrupt ------------------------------------------------------------------

  /** A transfer to the armed endpoint is accepted whole, after everything before it is done. */
  lemma TransferAccepted(s: System, data: seq<byte>)
    requires Inv(s) && s.dev.armed && |data| <= MAXPKT
    ensures var r := Next(s, HostOut(data));
            && r.dev.irq && !r.dev.armed && r.pc == Check
            && s.trace.done == s.trace.sent == r.trace.done
            && r.trace.sent == s.trace.sent + Unpack(data) && Rest(r) == Unpack(data)
  {
    hide PortInv, Unpack;
    var r := Next(s, HostOut(data));
    assert r.dev.buf[0..r.dev.bc] == data;
    assert s.trace.done + [] == s.trace.done;
  }

  /** In every reachable state with the interrupt pending, taking it sets the semaphore and clears the
      interrupt, so that the main loop sees the packet, and the packet is the same. */
  lemma InterruptHandsOver(s: System)
    requires Inv(s) && s.dev.irq
    ensures var r := Next(s, Ep2OutIsr);
            && r.dev.semaphore && !r.dev.irq && Waiting(r)
            && Rest(r) == Rest(s) && r.trace == s.trace
            && r.dev.ring == s.dev.ring && r.dev.buf == s.dev.buf && r.dev.bc == s.dev.bc
  {
    hide PortInv, Unpack;
  }

  /** After any passes from a state with a packet in the buffer, either everything sent is done and the
      endpoint is armed, or the packet is still stalled and the stalled cable has been ready in fewer
      than 48 of the passes. */
  lemma PacketConsumed(t: System, rs: seq<seq<bool>>)
    requires Inv(t) && Waiting(t)
    ensures Inv(Passes(t, rs)) && Passes(t, rs).pc == Check
    ensures var e := TxProgress.BridgeOut(Passes(t, rs));
            if Waiting(e) then Served(t, rs) < 48
            else e.trace.sent == e.trace.done == t.trace.sent && Inv(e) && Quiet(e)
  {
    hide Inv, Passes, TxProgress.BridgeOut, Served, Unpack, Rest;
    InvShape(t);
    PassesInv(t, rs);
    PacketProgress(t, rs);
    var m := Passes(t, rs);
    BridgeOutInv(m);
    CheckAfter(m);
    if !Waiting(TxProgress.BridgeOut(m)) {
      PassesWait(t, rs);
      InvShape(m);
      BridgeArms(m);
      ArmedIsQuiet(TxProgress.BridgeOut(m));
    }
  }

  lemma PassesWait(s: System, rs: seq<seq<bool>>)
    requires Shape(s) && Waiting(s)
    ensures Waiting(Passes(s, rs)) || Passes(s, rs).dev.armed
  {
    hide Passes, TxProgress.BridgeOut, Served, Debt;
    PassesDebt(s, rs);
  }

  lemma BridgeArms(s: System)
    requires Shape(s) && (Waiting(s) || s.dev.armed) && Inv(s)
    ensures Waiting(TxProgress.BridgeOut(s)) || TxProgress.BridgeOut(s).dev.armed
  {
    hide PortInv, Unpack, BridgeLoop;
    if Waiting(s) {
      BridgeDebt(s);
    }
  }

  // ---- The rings run dry -------------------------------------------------------------------

  /** The host's last packet is consumed and the next one is awaited. */
  ghost predicate Quiet(s: System) {
    s.pc == Check && s.dev.armed && !s.dev.semaphore && !s.dev.irq
  }

  lemma ArmedIsQuiet(s: System)
    requires Inv(s) && s.dev.armed
    ensures Quiet(s) && s.trace.sent == s.trace.done
  {
    hide PortInv, Unpack;
    assert s.trace.done + [] == s.trace.done;
  }

  /** Passes in which the UART of port p was ready. */
  function ReadyCount(rs: seq<seq<bool>>, p: nat): nat {
    if rs == [] then 0 else (if Ready(rs[0], p) then 1 else 0) + ReadyCount(rs[1..], p)
  }

  lemma QuietPass(s: System, ready: seq<bool>, p: nat)
    requires Shape(s) && Quiet(s) && p < PORTS
    ensures var e, q := Pass(s, ready), s.dev.ring[p].Contents();
            && Quiet(e)
            && e.dev.ring[p].Contents() == if Ready(ready, p) && q != [] then q[1..] else q
  {
    hide Ring.Pop, Ring.Contents, Ring.Count, Ready, PumpAll;
    PumpAllRing(s, ready, 0, p);
    IndexTests(s.dev.ring[p]);
    if s.dev.ring[p].Contents() != [] {
      PopContents(s.dev.ring[p]);
    }
  }

  /** Each pass in which its UART is ready takes one byte out of a port's ring. */
  lemma {:induction false} RingDrains(s: System, rs: seq<seq<bool>>, p: nat)
    requires Shape(s) && Quiet(s) && p < PORTS
    ensures var e, n := Passes(s, rs), |s.dev.ring[p].Contents()|;
            && Quiet(e)
            && |e.dev.ring[p].Contents()| == if ReadyCount(rs, p) < n then n - ReadyCount(rs, p) else 0
    decreases |rs|
  {
    hide Ring.Contents, Ring.Count, Ready, Pass, Quiet;
    if rs == [] {
    } else {
      QuietPass(s, rs[0], p);
      RingDrains(Pass(s, rs[0]), rs[1..], p);
    }
  }

  lemma RingBound(r: Ring)
    requires r.Valid() && |r.buf| == TX_RING_SIZE
    ensures |r.Contents()| <= 127
  {
    CountValue(r);
  }

  lemma QuietDelivers(s: System, rs: seq<seq<bool>>, p: nat)
    requires Inv(s) && Quiet(s) && p < PORTS && ReadyCount(rs, p) >= 127
    ensures var e := Passes(s, rs);
            && Quiet(e) && e.trace.sent == e.trace.done == s.trace.sent
            && e.trace.wire[p] == Decode(Cable(e.trace.sent, p))
  {
    hide Passes, Unpack, Ring.Contents, Ring.Count, Decode, Cable, ReadyCount, Handshake;
    var e := Passes(s, rs);
    PassesInv(s, rs);
    RingDrains(s, rs, p);
    RingBound(s.dev.ring[p]);
    ArmedIsQuiet(e);
    assert PortInv(e, p);
    assert e.trace.wire[p] + [] == e.trace.wire[p];
  }

  // ---- Fair UARTs --------------------------------------------------------------------------

  /** A stretch of passes in which every UART is ready at least once. */
  ghost predicate Fair(rs: seq<seq<bool>>) {
    forall p :: 0 <= p < PORTS ==> ReadyCount(rs, p) > 0
  }

  /** While the stalled cable is not ready, the packet stays stalled at the same event. */
  lemma StallStays(s: System, ready: seq<bool>)
    requires Shape(s) && Waiting(s) && Waiting(TxProgress.BridgeOut(s))
    requires !Ready(ready, Stalled(TxProgress.BridgeOut(s)))
    ensures var b, e := TxProgress.BridgeOut(s), Pass(s, ready);
            Waiting(e) && Waiting(TxProgress.BridgeOut(e)) && Stalled(TxProgress.BridgeOut(e)) == Stalled(b)
  {
    hide Room, CinLen, PumpAll, Ring.Pop, Unpack;
    var b, e := TxProgress.BridgeOut(s), Pass(s, ready);
    BridgeDebt(s);
    PumpAllRing(b, ready, 0, Stalled(b));
    hide TxProgress.BridgeOut;
    BridgeOutcome(e);
    LoopTurn(e.dev.ring, e.dev.buf, e.dev.bc, e.dev.outOff);
  }

  /** So if it is never ready and the packet is stalled at the end, none of the passes counts; and the
      other way round a fair stretch counts at least once. */
  lemma {:induction false} FairCounts(s: System, rs: seq<seq<bool>>)
    requires Shape(s) && Waiting(s) && Waiting(TxProgress.BridgeOut(Passes(s, rs)))
    ensures Waiting(TxProgress.BridgeOut(s))
    ensures Served(s, rs) == 0 ==> ReadyCount(rs, Stalled(TxProgress.BridgeOut(s))) == 0
    decreases |rs|
  {
    hide TxProgress.BridgeOut, Pass, Ready, Stalled;
    if rs == [] {
    } else if !Waiting(TxProgress.BridgeOut(s)) {
      Consumed(s);
      BridgeDebt(s);
      PassDebt(s, rs[0]);
      ArmedStays(Pass(s, rs[0]), rs[1..]);
    } else {
      PassDebt(s, rs[0]);
      FairCounts(Pass(s, rs[0]), rs[1..]);
      if !Ready(rs[0], Stalled(TxProgress.BridgeOut(s))) {
        StallStays(s, rs[0]);
      }
    }
  }

  function Flat(blocks: seq<seq<seq<bool>>>): seq<seq<bool>> {
    if blocks == [] then [] else blocks[0] + Flat(blocks[1..])
  }

  lemma {:induction false} PassesConcat(s: System, a: seq<seq<bool>>, b: seq<seq<bool>>)
    requires Shape(s)
    ensures Passes(s, a + b) == Passes(Passes(s, a), b)
    decreases |a|
  {
    hide Pass;
    if a == [] {
      assert a + b == b;
    } else {
      PassesConcat(Pass(s, a[0]), a[1..], b);
      assert (a + b)[1..] == a[1..] + b;
    }
  }

  lemma {:induction false} ReadyConcat(a: seq<seq<bool>>, b: seq<seq<bool>>, p: nat)
    ensures ReadyCount(a + b, p) == ReadyCount(a, p) + ReadyCount(b, p)
    decreases |a|
  {
    hide Ready;
    if a == [] {
      assert a + b == b;
    } else {
      ReadyConcat(a[1..], b, p);
      assert (a + b)[1..] == a[1..] + b;
    }
  }

  lemma WaitsThrough(s: System, a: seq<seq<bool>>, b: seq<seq<bool>>)
    requires Shape(s) && Waiting(s) && Waiting(TxProgress.BridgeOut(Passes(s, a + b)))
    ensures Waiting(Passes(s, a)) && Waiting(TxProgress.BridgeOut(Passes(s, a)))
  {
    hide TxProgress.BridgeOut, Passes, Served, Debt, Stalled;
    var m := Passes(s, a);
    PassesConcat(s, a, b);
    PassesDebt(s, a);
    if Waiting(m) {
      FairCounts(m, b);
    } else {
      ArmedStays(m, b);
    }
  }

  /** If a packet is still stalled after some passes, each fair stretch of them has paid at least one byte
      of its debt. */
  lemma {:induction false} FairPays(s: System, blocks: seq<seq<seq<bool>>>)
    requires Shape(s) && Waiting(s) && forall b :: b in blocks ==> Fair(b)
    requires Waiting(TxProgress.BridgeOut(Passes(s, Flat(blocks))))
    ensures Waiting(Passes(s, Flat(blocks))) && Debt(Passes(s, Flat(blocks))) <= Debt(s) - |blocks|
    decreases |blocks|
  {
    hide TxProgress.BridgeOut, Served, Debt, Stalled, ReadyCount, Pass;
    if blocks == [] {
    } else {
      hide Passes;
      var b, rest := blocks[0], Flat(blocks[1..]);
      WaitsThrough(s, b, rest);
      PassesConcat(s, b, rest);
      PassesDebt(s, b);
      FairCounts(s, b);
      BridgeDebt(s);
      assert Fair(b);
      FairPays(Passes(s, b), blocks[1..]);
    }
  }

  /** After 48 fair stretches nothing is stalled. */
  lemma FairConsumes(s: System, blocks: seq<seq<seq<bool>>>)
    requires Shape(s) && Waiting(s) && |blocks| >= 48 && forall b :: b in blocks ==> Fair(b)
    ensures !Waiting(TxProgress.BridgeOut(Passes(s, Flat(blocks))))
  {
    hide TxProgress.BridgeOut, Passes, Debt, Fair, Flat;
    var e := Passes(s, Flat(blocks));
    if Waiting(TxProgress.BridgeOut(e)) {
      FairPays(s, blocks);
      DebtBound(s);
      BridgeDebt(e);
    }
  }

  lemma {:induction false} FairReady(blocks: seq<seq<seq<bool>>>, p: nat)
    requires p < PORTS && forall b :: b in blocks ==> Fair(b)
    ensures ReadyCount(Flat(blocks), p) >= |blocks|
    decreases |blocks|
  {
    hide ReadyCount;
    if blocks == [] {
    } else {
      assert Fair(blocks[0]);
      FairReady(blocks[1..], p);
      ReadyConcat(blocks[0], Flat(blocks[1..]), p);
    }
  }

  lemma {:induction false} FlatConcat(a: seq<seq<seq<bool>>>, b: seq<seq<seq<bool>>>)
    ensures Flat(a + b) == Flat(a) + Flat(b)
    decreases |a|
  {
    if a == [] {
      assert a + b == b;
    } else {
      FlatConcat(a[1..], b);
      assert (a + b)[1..] == a[1..] + b;
    }
  }

  /** A quiet state is where passes go on from, whether or not bridge_out has been called once more. */
  lemma SameFromQuiet(s: System, rs: seq<seq<bool>>)
    requires Shape(s) && s.pc == Check && Quiet(TxProgress.BridgeOut(s)) && rs != []
    ensures Passes(s, rs) == Passes(TxProgress.BridgeOut(s), rs)
  {
    hide BridgeLoop, Unpack, PumpAll;
    var b := TxProgress.BridgeOut(s);
    BridgeOutcome(b);
    hide TxProgress.BridgeOut;
    assert Pass(s, rs[0]) == Pass(b, rs[0]);
  }

  /** Everything arrives.  From any reachable state with a packet in the buffer, while the host is silent:
      after 175 stretches of passes in which every UART is ready at least once, 48 for the packet and 127
      for the rings, the endpoint is armed, all that was ever sent is done, and each UART has been given
      exactly the payload of all events ever sent on its cable. */
  lemma PacketDelivered(t: System, blocks: seq<seq<seq<bool>>>)
    requires Inv(t) && Waiting(t) && |blocks| >= 175 && forall b :: b in blocks ==> Fair(b)
    ensures var e := Passes(t, Flat(blocks));
            && Quiet(e) && e.trace.sent == e.trace.done == t.trace.sent
            && forall p :: 0 <= p < PORTS ==> e.trace.wire[p] == Decode(Cable(e.trace.sent, p))
  {
    hide Inv, Passes, TxProgress.BridgeOut, Served, Unpack, Quiet, Decode, Cable, ReadyCount, Fair, Flat, Waiting;
    InvShape(t);
    var first, rest := blocks[..48], blocks[48..];
    var m := Passes(t, Flat(first));
    FairConsumes(t, first);
    PacketConsumed(t, Flat(first));
    InvShape(m);
    assert blocks == first + rest;
    FlatConcat(first, rest);
    PassesConcat(t, Flat(first), Flat(rest));
    FairNotEmpty(rest);
    SameFromQuiet(m, Flat(rest));
    QuietDeliversAll(TxProgress.BridgeOut(m), rest);
  }

  lemma QuietDeliversAll(s: System, blocks: seq<seq<seq<bool>>>)
    requires Inv(s) && Quiet(s) && |blocks| >= 127 && forall b :: b in blocks ==> Fair(b)
    ensures var e := Passes(s, Flat(blocks));
            && Quiet(e) && e.trace.sent == e.trace.done == s.trace.sent
            && forall p :: 0 <= p < PORTS ==> e.trace.wire[p] == Decode(Cable(e.trace.sent, p))
  {
    hide Inv, Passes, Quiet, Decode, Cable, ReadyCount, Fair, Flat;
    InvShape(s);
    FairReady(blocks, 0);
    QuietDelivers(s, Flat(blocks), 0);
    var e := Passes(s, Flat(blocks));
    forall p | 0 <= p < PORTS
      ensures e.trace.wire[p] == Decode(Cable(e.trace.sent, p))
    {
      FairReady(blocks, p);
      QuietDelivers(s, Flat(blocks), p);
    }
  }

  /** Carried back to the host: from any reachable state with the endpoint armed, a transfer, its interrupt
      and such passes put everything ever sent, this packet included, on the wires. */
  lemma TransferDelivered(s: System, data: seq<byte>, blocks: seq<seq<seq<bool>>>)
    requires Inv(s) && s.dev.armed && |data| <= MAXPKT
    requires |blocks| >= 175 && forall b :: b in blocks ==> Fair(b)
    ensures var e := Passes(Next(Next(s, HostOut(data)), Ep2OutIsr), Flat(blocks));
            && e.dev.armed && e.trace.sent == e.trace.done == s.trace.sent + Unpack(data)
            && forall p :: 0 <= p < PORTS ==> e.trace.wire[p] == Decode(Cable(e.trace.sent, p))
  {
    hide Inv, Passes, Unpack, Next, Decode, Cable, Fair, Flat, Waiting;
    TransferWaits(s, data);
    PacketDelivered(Next(Next(s, HostOut(data)), Ep2OutIsr), blocks);
  }

  lemma TransferWaits(s: System, data: seq<byte>)
    requires Inv(s) && s.dev.armed && |data| <= MAXPKT
    ensures Shape(s)
    ensures var t := Next(Next(s, HostOut(data)), Ep2OutIsr);
            Inv(t) && Waiting(t) && t.trace.sent == s.trace.sent + Unpack(data)
  {
    hide Inv, Next, Unpack;
    InvShape(s);
    TransferAccepted(s, data);
    NextInv(s, HostOut(data));
    var h := Next(s, HostOut(data));
    InvShape(h);
    InterruptHandsOver(h);
    NextInv(h, Ep2OutIsr);
  }

  lemma FairNotEmpty(blocks: seq<seq<seq<bool>>>)
    requires |blocks| > 0 && forall b :: b in blocks ==> Fair(b)
    ensures Flat(blocks) != []
  {
    FairReady(blocks, 0);
  }
}
