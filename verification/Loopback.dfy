/** The whole device with one port's output cabled to its own input: what the host sends on that
    cable is what it gets back. */
module Loopback {
  import opened Bytes
  import opened MidiParser
  import opened PacketStream
  import opened Packets
  import Tx = TxBridge
  import TxTheorems
  import Rx = RxPipeline
  import RxInvariant
  import RxTheorems

  datatype Device = Device(tx: Tx.System, rx: Rx.System)

  datatype Action = Transmit(t: Tx.Action) | Receive(r: Rx.Action)

  ghost predicate Shape(d: Device) {
    Tx.Shape(d.tx) && Rx.Shape(d.rx)
  }

  /** What a sweep sees when port c is wired back: any bytes on the other ports, and on port c, if
      its register is full at all, the next byte its own UART was given and has not yet returned. */
  function Wired(d: Device, c: nat, lines: seq<Option<byte>>): seq<Option<byte>>
    requires Shape(d) && c < PORTS
  {
    var wire, read := d.tx.trace.wire[c], |d.rx.trace.log[c]|;
    seq(PORTS, (p: nat) => if p != c then Rx.Line(lines, p)
                    else if Rx.Line(lines, p).Some? && read < |wire| then Some(wire[read]) else None)
  }

  function Next(d: Device, c: nat, a: Action): (r: Device)
    requires Shape(d) && c < PORTS
    ensures Shape(r)
  {
    match a
    case Transmit(t) => d.(tx := Tx.Next(d.tx, t))
    case Receive(Timer(lines)) => d.(rx := Rx.Next(d.rx, Rx.Action.Timer(Wired(d, c, lines))))
    case Receive(r) => d.(rx := Rx.Next(d.rx, r))
  }

  function Run(d: Device, c: nat, acts: seq<Action>): (r: Device)
    requires Shape(d) && c < PORTS
    ensures Shape(r)
    decreases |acts|
  {
    if acts == [] then d else Run(Next(d, c, acts[0]), c, acts[1..])
  }

  ghost predicate Initial(d: Device) {
    Tx.Initial(d.tx) && Rx.Initial(d.rx)
  }

  /** Both halves keep their invariants, and port c has returned a prefix of what it was given. */
  ghost predicate Inv(d: Device, c: nat, boot: seq<Parser>)
    requires c < PORTS
  {
    && Tx.Inv(d.tx) && Rx.Inv(d.rx, boot)
    && Rx.Captured(d.rx.trace.log[c]) <= d.tx.trace.wire[c]
  }

  lemma TransmitInv(d: Device, c: nat, boot: seq<Parser>, t: Tx.Action)
    requires c < PORTS && Inv(d, c, boot)
    ensures Inv(Next(d, c, Transmit(t)), c, boot)
  {
    hide Tx.Inv, Rx.Inv, Rx.Captured, Tx.Main, Tx.Shape;
    assert Tx.Shape(d.tx) by { TxShape(d.tx); }
    TxTheorems.NextInv(d.tx, t);
    WireGrows(d.tx, t, c);
  }

  lemma TxShape(s: Tx.System)
    requires Tx.Inv(s)
    ensures Tx.Shape(s)
  {
  }

  lemma WireGrows(s: Tx.System, t: Tx.Action, c: nat)
    requires Tx.Shape(s) && c < PORTS
    ensures s.trace.wire[c] <= Tx.Next(s, t).trace.wire[c]
  {
  }

  lemma ReceiveInv(d: Device, c: nat, boot: seq<Parser>, r: Rx.Action)
    requires c < PORTS && Inv(d, c, boot)
    ensures Inv(Next(d, c, Receive(r)), c, boot)
  {
    ShapeOf(d, c, boot);
    hide Tx.Inv, Rx.Inv, Rx.Next, Rx.Shape, Tx.Shape, Wired, Rx.Captured, Rx.Line;
    RxInvariant.NextInv(d.rx, boot, Seen(d, c, r));
    ReceivePrefix(d, c, r);
  }

  /** An action of the receive side as the cabling makes it. */
  function Seen(d: Device, c: nat, r: Rx.Action): Rx.Action
    requires Shape(d) && c < PORTS
  {
    match r case Timer(lines) => Rx.Action.Timer(Wired(d, c, lines)) case _ => r
  }

  lemma ReceivePrefix(d: Device, c: nat, r: Rx.Action)
    requires Shape(d) && c < PORTS && Rx.Captured(d.rx.trace.log[c]) <= d.tx.trace.wire[c]
    ensures Rx.Captured(Rx.Next(d.rx, Seen(d, c, r)).trace.log[c]) <= d.tx.trace.wire[c]
  {
    var log := d.rx.trace.log[c];
    hide Rx.Next, Rx.Shape, Tx.Shape, Wired, Rx.Captured, Rx.Line;
    LogGrows(d.rx, Seen(d, c, r), c);
    if r.Timer? {
      WiredLine(d, c, r.lines);
      CapturedLength(log);
      NextOf(Rx.Captured(log), d.tx.trace.wire[c]);
    }
  }

  lemma NextOf(s: seq<byte>, t: seq<byte>)
    requires s <= t
    ensures |s| < |t| ==> s + [t[|s|]] <= t
  {
  }

  lemma ShapeOf(d: Device, c: nat, boot: seq<Parser>)
    requires c < PORTS && Inv(d, c, boot)
    ensures Shape(d)
  {
    hide Rx.Shape, Tx.Shape, Rx.PortInv, Rx.RingInv, Rx.CountInv, Tx.PortInv, Tx.Handshake, Rx.Captured;
  }

  /** What the looped port's register shows. */
  lemma WiredLine(d: Device, c: nat, lines: seq<Option<byte>>)
    requires Shape(d) && c < PORTS
    ensures var wire, read := d.tx.trace.wire[c], |d.rx.trace.log[c]|;
            Rx.Line(Wired(d, c, lines), c) ==
              if Rx.Line(lines, c).Some? && read < |wire| then Some(wire[read]) else None
  {
    hide Rx.Shape;
  }

  lemma CapturedLength(log: seq<Rx.Capture>)
    ensures |Rx.Captured(log)| == |log|
  {
  }

  /** The log of a port grows only in a timer tick, by what its register shows, if anything. */
  lemma LogGrows(s: Rx.System, a: Rx.Action, c: nat)
    requires Rx.Shape(s) && c < PORTS
    ensures var log, log' := s.trace.log[c], Rx.Next(s, a).trace.log[c];
            || log' == log
            || (a.Timer? && Rx.Line(a.lines, c).Some? && Rx.Captured(log') == Rx.Captured(log) + [Rx.Line(a.lines, c).value])
  {
    hide Rx.Sweep;
    if a.Timer? && U8(s.dev.prescale - 1) == 0 {
      RxTheorems.SweepPort(s.(dev := s.dev.(prescale := PRESCALE)), a.lines, 0, c);
    }
  }

  /** The cable carries: a sweep that finds the looped port's register full, when its UART has been given
      more than has come back, brings back just the next byte. */
  lemma CableCarries(d: Device, c: nat, boot: seq<Parser>, lines: seq<Option<byte>>)
    requires c < PORTS && Inv(d, c, boot) && d.rx.dev.prescale == 1
    requires c < |lines| && lines[c].Some? && |d.rx.trace.log[c]| < |d.tx.trace.wire[c]|
    ensures Shape(d)
    ensures var r, k := Next(d, c, Receive(Rx.Action.Timer(lines))), |d.rx.trace.log[c]|;
            && r.tx == d.tx && |r.rx.trace.log[c]| == k + 1
            && Rx.Captured(r.rx.trace.log[c]) == d.tx.trace.wire[c][..k + 1]
            && r.rx.trace.log[c][k].kept == (|d.rx.dev.fifo[c].Contents()| < 15)
  {
    hide Tx.Inv, Rx.PortInv, Rx.RingInv, Rx.CountInv, Rx.Sweep, Wired;
    ShapeOf(d, c, boot);
    WiredLine(d, c, lines);
    var s := d.rx;
    RxTheorems.SweepPort(s.(dev := s.dev.(prescale := PRESCALE)), Wired(d, c, lines), 0, c);
  }

  lemma {:induction false} RunInv(d: Device, c: nat, boot: seq<Parser>, acts: seq<Action>)
    requires c < PORTS && Inv(d, c, boot)
    ensures Inv(Run(d, c, acts), c, boot)
    decreases |acts|
  {
    if acts == [] {
    } else {
      assert Shape(d);
      hide Next, Inv;
      match acts[0] {
        case Transmit(t) => TransmitInv(d, c, boot, t);
        case Receive(r) => ReceiveInv(d, c, boot, r);
      }
      RunInv(Next(d, c, acts[0]), c, boot, acts[1..]);
    }
  }

  /** Parsing a prefix of what a well-framed sequence decodes to gives a prefix of the sequence. */
  lemma PrefixParsed(p: Parser, es: seq<Event>, s: seq<byte>)
    requires Boundary(p, false) && WellFramed(es, false) && s <= Decode(es)
    ensures Out(p, s) <= es
  {
    hide Out, After, Decode, WellFramed;
    WellFramedReproduced(p, es, false);
    assert Decode(es) == s + Decode(es)[|s|..];
    Concat(p, s, Decode(es)[|s|..]);
  }

  lemma {:induction false} NothingLost(log: seq<Rx.Capture>)
    requires Rx.Dropped(log) == 0
    ensures Rx.Kept(log) == Rx.Captured(log)
  {
    if log == [] {
    } else {
      NothingLost(log[..|log| - 1]);
    }
  }

  /** The bytes parsed on the looped port are a prefix of what its events decode to. */
  lemma ParsedPrefix(d: Device, c: nat, boot: seq<Parser>)
    requires c < PORTS && Inv(d, c, boot) && Rx.Dropped(d.rx.trace.log[c]) == 0
    ensures Rx.Parsed(d.rx, c) <= Rx.Captured(d.rx.trace.log[c]) <= d.tx.trace.wire[c]
    ensures d.tx.trace.wire[c] <= Decode(Cable(d.tx.trace.done, c)) <= Decode(Cable(d.tx.trace.sent, c))
    ensures Cable(d.tx.trace.done, c) <= Cable(d.tx.trace.sent, c)
  {
    hide Rx.RingInv, Rx.CountInv, Rx.Captured, Rx.Kept, Rx.Dropped, Decode, Cable, Out, After, Tx.Handshake, Unpack;
    NothingLost(d.rx.trace.log[c]);
    assert Rx.PortInv(d.rx, boot, c) && Tx.PortInv(d.tx, c);
    TxTheorems.DecodeCableConcat(d.tx.trace.done, Tx.Rest(d.tx), c);
    CableConcat(d.tx.trace.done, Tx.Rest(d.tx), c);
  }

  /** The events of cable c that have come back: shipped to the host or waiting in the ring. */
  function Returned(d: Device, c: nat): seq<Event>
    requires Shape(d)
  {
    Cable(Unpack(Rx.Upstream(d.rx)), c)
  }

  /** Nothing of cable c is left between the host's packet and the parser's output. */
  ghost predicate Drained(d: Device, c: nat)
    requires Shape(d) && c < PORTS
  {
    && Tx.Rest(d.tx) == [] && d.tx.dev.ring[c].Contents() == []
    && |d.rx.trace.log[c]| == |d.tx.trace.wire[c]|
    && d.rx.dev.fifo[c].Contents() == [] && !(d.rx.pc.Parse? && d.rx.pc.port == c)
  }

  lemma ReturnsPrefix(d: Device, c: nat, boot: seq<Parser>)
    requires c < PORTS && Inv(d, c, boot) && Rx.Dropped(d.rx.trace.log[c]) == 0
    requires Boundary(boot[c], false) && WellFramed(Cable(d.tx.trace.sent, c), false)
    ensures Returned(d, c) <= Cable(d.tx.trace.sent, c)
    ensures Drained(d, c) ==> Returned(d, c) == Cable(d.tx.trace.sent, c)
  {
    hide Out, After, Decode, Cable, WellFramed, Unpack, Boundary, Rx.Captured, Rx.Dropped, Rx.Kept, Rx.CountInv, Tx.Handshake;
    var sent := Cable(d.tx.trace.sent, c);
    ParsedPrefix(d, c, boot);
    PrefixParsed(boot[c], sent, Rx.Parsed(d.rx, c));
    assert Rx.PortInv(d.rx, boot, c) && Tx.PortInv(d.tx, c);
    if Drained(d, c) {
      AllParsed(d, c, boot);
      WellFramedReproduced(boot[c], sent, false);
    }
  }

  lemma AllParsed(d: Device, c: nat, boot: seq<Parser>)
    requires c < PORTS && Inv(d, c, boot) && Rx.Dropped(d.rx.trace.log[c]) == 0 && Drained(d, c)
    ensures Rx.Parsed(d.rx, c) == Decode(Cable(d.tx.trace.sent, c))
  {
    hide Out, After, Decode, Cable, Unpack, Rx.Dropped, Rx.Kept, Rx.RingInv, Rx.CountInv, Tx.Handshake;
    assert Rx.PortInv(d.rx, boot, c) && Tx.PortInv(d.tx, c);
    NothingLost(d.rx.trace.log[c]);
    assert d.tx.trace.sent == d.tx.trace.done;
  }

  /** With cable c looped back and no byte of it dropped, for every sequence P the parser can
      produce and whatever the other seven ports receive: if the host has sent P, or a prefix
      of it, on cable c, then what has come back on cable c is a prefix of P, in every reachable
      state of every interleaving, and all of what was sent once nothing is left on the way. */
  lemma LoopbackReturns(d: Device, c: nat, acts: seq<Action>, es: seq<Event>)
    requires Initial(d) && c < PORTS && WellFramed(es, false)
    requires Cable(Run(d, c, acts).tx.trace.sent, c) <= es
    requires Rx.Dropped(Run(d, c, acts).rx.trace.log[c]) == 0
    ensures var r := Run(d, c, acts);
            && Returned(r, c) <= es
            && (Drained(r, c) ==> Returned(r, c) == Cable(r.tx.trace.sent, c))
  {
    hide *;
    var boot := d.rx.dev.parser;
    InitialInv(d, c);
    var r := Run(d, c, acts);
    RunInv(d, c, boot, acts);
    var sent := Cable(r.tx.trace.sent, c);
    WellFramedPrefix(es, |sent|, false);
    assert es[..|sent|] == sent;
    ReturnsPrefix(r, c, boot);
  }

  lemma InitialInv(d: Device, c: nat)
    requires Initial(d) && c < PORTS
    ensures Shape(d) && Inv(d, c, d.rx.dev.parser)
    ensures |d.rx.dev.parser| == PORTS && Boundary(d.rx.dev.parser[c], false)
  {
    hide Rx.PortInv, Rx.RingInv, Rx.CountInv, Tx.Inv;
    TxTheorems.InitialInv(d.tx);
    RxInvariant.InitialInv(d.rx);
  }
}
