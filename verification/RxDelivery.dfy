/** The host's end of the receive pipeline: what it reads is what the parsers made, whole packets in
    order and once, and what the overflow counter tells it. */
module RxDelivery {
  import opened Bytes
  import opened Rings
  import opened MidiParser
  import opened PacketStream
  import opened Packets
  import opened RxPipeline
  import opened RxInvariant
  import opened RxTheorems

  // ---- The endpoint ----------------------------------------------------------------------

  /** At the shipping step of any reachable state: if the endpoint is free, it gets the first 64 bytes
      of the queue, or all if there are fewer, and the ring keeps the rest; if the host has not read the
      last transfer yet, that transfer and the ring stay as they are. */
  lemma ShipStep(s: System, boot: seq<Parser>)
    requires Inv(s, boot) && s.pc == Ship
    ensures var q, r := s.dev.ring.Contents(), Next(s, MainStep);
            var n := if |q| < MAXPKT then |q| else MAXPKT;
            && r.pc == Poll(0)
            && (s.dev.busy || q == [] ==> r.dev == s.dev)
            && (!s.dev.busy && q != [] ==> r.dev.busy && r.dev.inBuf == q[..n] && r.dev.ring.Contents() == q[n..])
  {
    hide Ring.Contents, Ring.Count, ShipLoop, PortInv, CountInv, At, Forward;
    RingCount(s);
    ShipLoopContents(s.dev.ring, 0);
    var q, sh := s.dev.ring.Contents(), ShipLoop(s.dev.ring, 0);
    assert |q| == s.dev.ring.Count() by { ContentsLength(s.dev.ring); }
    assert |sh.data| == if |q| < MAXPKT then |q| else MAXPKT;
  }

  lemma ContentsLength(r: Ring)
    requires r.Valid()
    ensures |r.Contents()| == r.Count()
  {
  }

  /** A read of the host takes the transfer that waits, once, and frees the endpoint. */
  lemma ReadStep(s: System)
    requires Shape(s)
    ensures var r := Next(s, HostRead);
            && r.trace.read == s.trace.read + InEndpoint(s.dev)
            && !r.dev.busy && InEndpoint(r.dev) == []
            && r.dev.ring == s.dev.ring && r.trace.shipped == s.trace.shipped && r.pc == s.pc
  {
    hide Shape;
  }

  lemma CablePrefix(a: seq<Packet>, b: seq<Packet>, p: nat)
    requires a <= b
    ensures Cable(a, p) <= Cable(b, p)
  {
    CableConcat(a, b[|a|..], p);
    assert b == a + b[|a|..];
  }

  /** What the host reads: in every reachable state, for each port, a beginning of the well-framed
      packets its parser makes of the bytes taken from its queue. */
  lemma HostReads(s: System, acts: seq<Action>, p: nat)
    requires Initial(s) && p < PORTS
    ensures var r := Run(s, acts);
            && Cable(Unpack(r.trace.read), p) <= Cable(Unpack(Upstream(r)), p) == Out(s.dev.parser[p], Parsed(r, p))
            && WellFramed(Cable(Unpack(Upstream(r)), p), false)
            && WellFramed(Cable(Unpack(r.trace.read), p), false)
  {
    hide Run, After, Out, Cable, Unpack, Kept, Ring.Contents, Ring.Count, WellFramed, Reset, Parsed, PortInv, CountInv;
    var r := Run(s, acts);
    InitialInv(s);
    RunInv(s, s.dev.parser, acts);
    InvDelivers(r, s.dev.parser, p);
    var rest := InEndpoint(r.dev) + r.dev.ring.Contents();
    ReadWhole(r);
    assert Upstream(r) == r.trace.read + rest;
    UnpackConcat(r.trace.read, rest);
    CablePrefix(Unpack(r.trace.read), Unpack(Upstream(r)), p);
    var all, some := Cable(Unpack(Upstream(r)), p), Cable(Unpack(r.trace.read), p);
    ResetWellFramed(s.dev.parser[p], Parsed(r, p));
    WellFramedPrefix(all, |some|, false);
    assert all[..|some|] == some;
  }

  lemma ReadWhole(r: System)
    requires Shape(r) && RingInv(r) && EndpointInv(r)
    ensures |r.trace.read| % 4 == 0
  {
    hide Ring.Contents, At;
    Difference(|r.trace.shipped|, |r.trace.read|, |r.dev.inBuf|);
  }

  lemma Difference(shipped: nat, read: nat, waiting: nat)
    requires shipped % 4 == 0 && waiting % 4 == 0 && (shipped == read + waiting || shipped == read)
    ensures read % 4 == 0
  {
  }

  // ---- The overflow counter --------------------------------------------------------------

  lemma {:induction false} SweepForgiven(s: System, lines: seq<Option<byte>>, p: nat)
    requires Shape(s) && p <= PORTS
    ensures Sweep(s, lines, p).trace.forgiven == s.trace.forgiven
    decreases PORTS - p
  {
    hide Shape, StoreDev;
    if p == PORTS {
    } else {
      match Line(lines, p) {
        case None => SweepForgiven(s, lines, p + 1);
        case Some(b) => SweepForgiven(Store(s, p, b), lines, p + 1);
      }
    }
  }

  lemma StepForgiven(s: System, a: Action)
    requires Shape(s) && a != ClearOverflows
    ensures Next(s, a).trace.forgiven == s.trace.forgiven
  {
    hide Sweep, ShipLoop, Ring.PutAll, Ring.Contents;
    if a.Timer? {
      SweepForgiven(s.(dev := s.dev.(prescale := PRESCALE)), a.lines, 0);
    }
  }

  lemma {:induction false} RunForgiven(s: System, acts: seq<Action>)
    requires Shape(s) && ClearOverflows !in acts
    ensures Run(s, acts).trace.forgiven == s.trace.forgiven
    decreases |acts|
  {
    hide Shape, Next;
    if acts == [] {
    } else {
      assert acts[0] in acts;
      StepForgiven(s, acts[0]);
      RunForgiven(Next(s, acts[0]), acts[1..]);
    }
  }

  /** The counter after a run in which the host cleared it: the bytes dropped on all ports since the
      last such request, up to 255; in particular zero right after it. */
  lemma CounterSinceClear(s: System, before: seq<Action>, after: seq<Action>)
    requires Initial(s) && ClearOverflows !in after
    ensures Run(s, before + [ClearOverflows]).dev.overflows == 0
    ensures var m, r := Run(s, before), Run(s, before + [ClearOverflows] + after);
            var n := AllDropped(r.trace.log) - AllDropped(m.trace.log);
            n >= 0 && r.dev.overflows as int == if n < 255 then n else 255
  {
    hide Run, Shape, Inv, Initial, AllDropped;
    InitialInv(s);
    var m, c := Run(s, before), Run(s, before + [ClearOverflows]);
    RunSnoc(s, before, ClearOverflows);
    RunConcat(s, before + [ClearOverflows], after);
    RunForgiven(c, after);
    RunInv(s, s.dev.parser, before + [ClearOverflows] + after);
    CounterInv(Run(s, before + [ClearOverflows] + after), s.dev.parser);
  }

  lemma CounterInv(s: System, boot: seq<Parser>)
    requires Inv(s, boot)
    ensures CountInv(s)
  {
    hide Shape, RingInv, PortInv;
  }
}
