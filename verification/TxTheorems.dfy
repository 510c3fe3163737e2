/** What holds of every run of the transmit side: exactly-once delivery, the buffer handshake, and
    how long a stalled packet can take. */
module TxTheorems {
  import opened Bytes
  import opened Rings
  import opened MidiParser
  import opened Packets
  import opened TxBridge

  // ---- The bridge loop -------------------------------------------------------------------

  lemma RoomValue(r: Ring)
    requires r.Valid() && |r.buf| == TX_RING_SIZE
    ensures Room(r) == 127 - |r.Contents()|
  {
    CountValue(r);
  }

  lemma DecodeCableConcat(a: seq<Packet>, b: seq<Packet>, p: nat)
    ensures Decode(Cable(a + b, p)) == Decode(Cable(a, p)) + Decode(Cable(b, p))
  {
    hide Decode, Cable;
    CableConcat(a, b, p);
    DecodeConcat(Cable(a, p), Cable(b, p));
  }

  /** The four bytes at offset i, decoded for cable p. */
  function EventBytes(buf: seq<byte>, i: nat, p: nat): seq<byte>
    requires i + 4 <= |buf|
  {
    if buf[i] / 16 == p then buf[i + 1..i + 1 + CinLen(buf[i] % 16)] else []
  }

  lemma UnpackStep(buf: seq<byte>, i: nat, at: nat, p: nat)
    requires i + 4 <= at <= |buf|
    ensures Decode(Cable(Unpack(buf[i..at]), p)) == EventBytes(buf, i, p) + Decode(Cable(Unpack(buf[i + 4..at]), p))
  {
    var bs := buf[i..at];
    var first := Packet4(bs[0], bs[1], bs[2], bs[3]);
    assert bs[4..] == buf[i + 4..at];
    assert Unpack(bs) == [first] + Unpack(buf[i + 4..at]);
    DecodeCableConcat([first], Unpack(buf[i + 4..at]), p);
    OneCable(first, p);
    assert first.cable == p ==> Payload(first.event) == EventBytes(buf, i, p);
  }

  lemma OneCable(pk: Packet, p: nat)
    ensures Decode(Cable([pk], p)) == if pk.cable == p then Payload(pk.event) else []
  {
    assert Cable([pk], p) == if pk.cable == p then [pk.event] else [];
    assert Decode([pk.event]) == Payload(pk.event) + [];
  }

  lemma SpreadDelivers(ring: seq<Ring>, buf: seq<byte>, i: nat, p: nat)
    requires RingsOk(ring) && i + 4 <= |buf| && p < PORTS
    ensures var r := Spread(ring, buf, i);
            r.Some? ==> r.value[p].Contents() == ring[p].Contents() + EventBytes(buf, i, p)
  {
    hide Ring.PutAll, Ring.Contents, Ring.Count, Room;
    var cn, len := buf[i] / 16, CinLen(buf[i] % 16);
    assert ring[p].Contents() + [] == ring[p].Contents();
    if cn < PORTS && len <= Room(ring[cn]) {
      RoomValue(ring[cn]);
      PutAllContents(ring[cn], buf[i + 1..i + 1 + len]);
    }
  }

  /** Each ring gains exactly the payload of the events for its cable, in order, and the loop
      stops either at the end or at an event that does not fit. */
  lemma {:induction false} LoopDelivers(ring: seq<Ring>, buf: seq<byte>, n: nat, i: nat, p: nat)
    requires RingsOk(ring) && |buf| == MAXPKT && i <= MAXPKT && n <= MAXPKT && p < PORTS
    ensures var r := BridgeLoop(ring, buf, n, i);
            r.ring[p].Contents() == ring[p].Contents() + Decode(Cable(Unpack(buf[i..r.at]), p))
    decreases MAXPKT - i
  {
    hide Ring.Contents, Ring.Count, Decode, Cable, Unpack, Spread, EventBytes;
    var r := BridgeLoop(ring, buf, n, i);
    if U8(i + 4) > n || Spread(ring, buf, i).None? {
      NoPackets(p);
      assert buf[i..r.at] == [] && ring[p].Contents() + [] == ring[p].Contents();
    } else {
      var ring' := Spread(ring, buf, i).value;
      SpreadDelivers(ring, buf, i, p);
      LoopDelivers(ring', buf, n, i + 4, p);
      UnpackStep(buf, i, r.at, p);
      Assoc(ring[p].Contents(), EventBytes(buf, i, p), Decode(Cable(Unpack(buf[i + 4..r.at]), p)));
    }
  }

  /** The loop stops at an event boundary. */
  lemma {:induction false} LoopAligned(ring: seq<Ring>, buf: seq<byte>, n: nat, i: nat)
    requires RingsOk(ring) && |buf| == MAXPKT && i <= MAXPKT && n <= MAXPKT && i % 4 == 0
    ensures BridgeLoop(ring, buf, n, i).at % 4 == 0
    decreases MAXPKT - i
  {
    hide Spread;
    if U8(i + 4) > n || Spread(ring, buf, i).None? {
    } else {
      LoopAligned(Spread(ring, buf, i).value, buf, n, i + 4);
    }
  }

  lemma Assoc(a: seq<byte>, b: seq<byte>, c: seq<byte>)
    ensures a + b + c == a + (b + c)
  {
  }

  lemma NoPackets(p: nat)
    ensures Decode(Cable(Unpack([]), p)) == []
  {
  }

  // ---- Every step keeps the invariant ----------------------------------------------------

  lemma SplitRest(buf: seq<byte>, i: nat, at: nat, n: nat)
    requires i <= at <= n <= |buf| && i % 4 == 0 && at % 4 == 0
    ensures Unpack(buf[i..n]) == Unpack(buf[i..at]) + Unpack(buf[at..n])
  {
    hide Unpack;
    assert buf[i..n] == buf[i..at] + buf[at..n];
    UnpackConcat(buf[i..at], buf[at..n]);
  }

  lemma CheckPort(s: System, p: nat)
    requires Inv(s) && s.pc == Check && s.dev.semaphore && p < PORTS
    ensures PortInv(Main(s), p)
  {
    hide BridgeLoop, Unpack, Decode, Cable, Ring.Contents, Handshake;
    var d, loop := s.dev, BridgeLoop(s.dev.ring, s.dev.buf, s.dev.bc, s.dev.outOff);
    var now := Unpack(d.buf[d.outOff..loop.at]);
    assert PortInv(s, p);
    LoopDelivers(d.ring, d.buf, d.bc, d.outOff, p);
    DecodeCableConcat(s.trace.done, now, p);
    Assoc(s.trace.wire[p], d.ring[p].Contents(), Decode(Cable(now, p)));
  }

  lemma CheckInv(s: System)
    requires Inv(s) && s.pc == Check && s.dev.semaphore
    ensures Inv(Main(s))
  {
    hide BridgeLoop, Unpack, PortInv;
    var d, loop := s.dev, BridgeLoop(s.dev.ring, s.dev.buf, s.dev.bc, s.dev.outOff);
    LoopAligned(d.ring, d.buf, d.bc, d.outOff);
    SplitRest(d.buf, d.outOff, loop.at, d.bc);
    var now, later := Unpack(d.buf[d.outOff..loop.at]), Unpack(d.buf[loop.at..d.bc]);
    assert s.trace.sent == s.trace.done + now + later;
    assert !loop.stalled ==> later == [];
    forall p | 0 <= p < PORTS
      ensures PortInv(Main(s), p)
    {
      CheckPort(s, p);
    }
  }

  /** Steps that change neither rings nor history. */
  lemma QuietInv(s: System, r: System)
    requires Inv(s) && Shape(r) && Handshake(r)
    requires r.dev.ring == s.dev.ring && r.trace.done == s.trace.done && r.trace.wire == s.trace.wire
    requires r.trace.sent == r.trace.done + Rest(r)
    ensures Inv(r)
  {
    hide Decode, Cable, Ring.Contents, Rest, Handshake;
    forall p | 0 <= p < PORTS
      ensures PortInv(r, p)
    {
      assert PortInv(s, p);
    }
  }

  lemma HostInv(s: System, data: seq<byte>)
    requires Inv(s)
    ensures Inv(HostSends(s, data))
  {
    hide Unpack;
    var r := HostSends(s, data);
    if s.dev.armed && |data| <= MAXPKT {
      assert r.dev.buf[0..r.dev.bc] == data;
      assert s.trace.done + [] == s.trace.done;
    }
    QuietInv(s, r);
  }

  lemma PumpInv(s: System, p: nat, ready: bool)
    requires Inv(s) && p < PORTS
    ensures Inv(Pump(s, p, ready))
  {
    hide Decode, Cable, Ring.Contents, Unpack;
    var f, r := s.dev.ring[p], Pump(s, p, ready);
    IndexTests(f);
    assert PortInv(s, p);
    if r != s {
      PopContents(f);
      assert f.Contents() == [f.Peek()] + f.Pop().Contents();
      assert s.trace.wire[p] + ([f.Peek()] + f.Pop().Contents()) == s.trace.wire[p] + [f.Peek()] + f.Pop().Contents();
    }
    forall o | 0 <= o < PORTS
      ensures PortInv(r, o)
    {
      assert PortInv(s, o);
    }
    assert Rest(r) == Rest(s);
  }

  lemma NextInv(s: System, a: Action)
    requires Inv(s)
    ensures Inv(Next(s, a))
  {
    match a {
      case HostOut(data) => HostInv(s, data);
      case Ep2OutIsr => QuietInv(s, Next(s, a));
      case BridgeStep =>
        if s.pc == Check && s.dev.semaphore {
          CheckInv(s);
        } else {
          QuietInv(s, Next(s, a));
        }
      case PumpPort(p, ready) =>
        if p < PORTS {
          PumpInv(s, p, ready);
        }
    }
  }

  lemma {:induction false} RunInv(s: System, acts: seq<Action>)
    requires Inv(s)
    ensures Inv(Run(s, acts))
    decreases |acts|
  {
    hide Next, Handshake, PortInv;
    if acts == [] {
    } else {
      NextInv(s, acts[0]);
      RunInv(Next(s, acts[0]), acts[1..]);
    }
  }

  lemma InitialInv(s: System)
    requires Initial(s)
    ensures Inv(s)
  {
    forall p | 0 <= p < PORTS
      ensures PortInv(s, p)
    {
      CountValue(s.dev.ring[p]);
    }
  }

  // ---- What counts as MIDI ---------------------------------------------------------------

  /** An event that has a UART to go to and bytes to send there. */
  predicate Audible(pk: Packet) {
    pk.cable < PORTS && 2 <= pk.event.cin < 16
  }

  /** What an event says on port p, read off the table. */
  function Said(pk: Packet, p: nat): seq<byte> {
    var e := pk.event;
    if Audible(pk) && pk.cable == p then [e.b0, e.b1, e.b2][..CIN_LENGTHS[e.cin]] else []
  }

  /** The MIDI bytes for port p: nothing for reserved code index numbers, nothing for other cables. */
  function Spoken(ps: seq<Packet>, p: nat): seq<byte> {
    if ps == [] then [] else Said(ps[0], p) + Spoken(ps[1..], p)
  }

  lemma {:induction false} SpokenIsDecoded(ps: seq<Packet>, p: nat)
    requires p < PORTS
    ensures Decode(Cable(ps, p)) == Spoken(ps, p)
    decreases |ps|
  {
    hide Decode, Cable, CinLen, Payload;
    if ps == [] {
      DecodeCableNone(p);
    } else {
      var e := ps[0].event;
      DecodeCableConcat([ps[0]], ps[1..], p);
      assert ps == [ps[0]] + ps[1..];
      OneCable(ps[0], p);
      if e.cin < 16 {
        PayloadTabled(e);
      } else {
        PayloadNone(e);
      }
      SpokenIsDecoded(ps[1..], p);
    }
  }

  lemma DecodeCableNone(p: nat)
    ensures Decode(Cable([], p)) == []
  {
  }

  lemma PayloadNone(e: Event)
    requires e.cin >= 16
    ensures Payload(e) == []
  {
  }

  function OnlyAudible(ps: seq<Packet>): seq<Packet> {
    if ps == [] then [] else (if Audible(ps[0]) then [ps[0]] else []) + OnlyAudible(ps[1..])
  }

  /** Padding and events for cables that do not exist change nothing on any wire. */
  lemma {:induction false} PaddingIsSilent(ps: seq<Packet>, p: nat)
    requires p < PORTS
    ensures Spoken(OnlyAudible(ps), p) == Spoken(ps, p)
    decreases |ps|
  {
    hide Said;
    if ps == [] {
    } else {
      PaddingIsSilent(ps[1..], p);
      if Audible(ps[0]) {
        assert OnlyAudible(ps)[0] == ps[0] && OnlyAudible(ps)[1..] == OnlyAudible(ps[1..]);
      } else {
        SaysNothing(ps[0], p);
        assert OnlyAudible(ps) == OnlyAudible(ps[1..]);
      }
    }
  }

  lemma SaysNothing(pk: Packet, p: nat)
    requires !Audible(pk)
    ensures Said(pk, p) == []
  {
  }

  /** bridge_out passes over an event exactly when it is not audible, however full the rings are, and
      otherwise stores as many bytes as the table says, if there is room for all of them. */
  lemma SpreadExactly(ring: seq<Ring>, buf: seq<byte>, i: nat)
    requires RingsOk(ring) && i + 4 <= |buf|
    ensures var r, pk := Spread(ring, buf, i), Packet4(buf[i], buf[i + 1], buf[i + 2], buf[i + 3]);
            if !Audible(pk) then r == Some(ring)
            else
              var n, q := CIN_LENGTHS[pk.event.cin], ring[pk.cable].Contents();
              && n > 0 && (r.None? <==> |q| + n > 127)
              && (r.Some? ==> r.value[pk.cable].Contents() == q + buf[i + 1..i + 1 + n]
                              && forall p :: 0 <= p < PORTS && p != pk.cable ==> r.value[p] == ring[p])
  {
    hide Ring.PutAll, Ring.Contents, Ring.Count, Room, CinLen;
    var cn, cin := buf[i] / 16, buf[i] % 16;
    CinTabled(cin);
    if cn < PORTS && cin >= 2 {
      RoomValue(ring[cn]);
      if CinLen(cin) <= Room(ring[cn]) {
        PutAllContents(ring[cn], buf[i + 1..i + 1 + CinLen(cin)]);
      }
    }
  }

  lemma CinTabled(cin: byte)
    requires cin < 16
    ensures CinLen(cin) == CIN_LENGTHS[cin] && (CinLen(cin) == 0 <==> cin < 2)
  {
  }

  // ---- Main results ----------------------------------------------------------------------

  /** Exactly once and in order, across stalls: what port p's UART was given and what its ring
      holds is the payload of cable p's events among those done, which is what the table reads off
      them, reserved ones left out; and the events done, followed by those of the packet in the
      buffer still to be looked at, are all the host ever sent. */
  lemma ExactlyOnce(s: System, acts: seq<Action>, p: nat)
    requires Initial(s) && p < PORTS
    ensures var r := Run(s, acts);
            && r.trace.wire[p] + r.dev.ring[p].Contents() == Decode(Cable(r.trace.done, p))
            && Decode(Cable(r.trace.done, p)) == Spoken(OnlyAudible(r.trace.done), p)
            && r.trace.sent == r.trace.done + Rest(r)
  {
    hide Run, Decode, Cable, Spoken, OnlyAudible, Ring.Contents, Handshake, Rest, Initial;
    InitialInv(s);
    RunInv(s, acts);
    var r := Run(s, acts);
    assert PortInv(r, p);
    SpokenIsDecoded(r.trace.done, p);
    PaddingIsSilent(r.trace.done, p);
  }

  /** While any event of a packet is unconsumed its interrupt is pending or its semaphore is set,
      and until then the host's next transfer is refused; between clearing the semaphore and
      re-arming nothing can arrive, so clearing it first loses nothing. */
  lemma HandshakeSafe(s: System, acts: seq<Action>, data: seq<byte>)
    requires Initial(s)
    ensures var r := Run(s, acts);
            && (r.trace.sent != r.trace.done ==> (r.dev.irq || r.dev.semaphore) && !r.dev.armed)
            && (r.dev.outOff > 0 || r.dev.irq || r.dev.semaphore || r.pc != Check ==> Next(r, HostOut(data)) == r)
            && (r.pc == Arm ==> !r.dev.irq && !r.dev.semaphore)
            && (r.dev.armed || r.dev.irq || r.dev.semaphore || r.pc == Arm)
  {
    InitialInv(s);
    RunInv(s, acts);
  }
}
