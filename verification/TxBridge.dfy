/** The transmit side as a system of atomic steps: the host fills EP2-OUT, its interrupt sets the
    semaphore, bridge_out spreads the events over the port rings as far as they have room, and
    uart_tx_pump feeds the UARTs. */
module TxBridge {
  import opened Bytes
  import opened Rings
  import opened MidiParser
  import opened Packets

  const TX_RING_SIZE := 128

  /** The variables of main.c and the EP2-OUT endpoint: whether its interrupt is pending and
      whether it is armed to receive. */
  datatype Tx = Tx(ring: seq<Ring>, outOff: byte, semaphore: bool, irq: bool, armed: bool, buf: seq<byte>, bc: byte)

  /** Where bridge_out stands: at its start, before clearing the semaphore, before re-arming. */
  datatype Pc = Check | Clear | Arm

  /** The events the host has sent, those bridge_out is done with, and the bytes written to each UART. */
  datatype Trace = Trace(sent: seq<Packet>, done: seq<Packet>, wire: seq<seq<byte>>)

  datatype System = System(dev: Tx, pc: Pc, trace: Trace)

  ghost predicate RingsOk(rings: seq<Ring>) {
    |rings| == PORTS && forall p :: 0 <= p < PORTS ==> rings[p].Valid() && |rings[p].buf| == TX_RING_SIZE
  }

  ghost predicate Shape(s: System) {
    && RingsOk(s.dev.ring)
    && |s.dev.buf| == MAXPKT && s.dev.outOff <= MAXPKT && s.dev.bc <= MAXPKT
    && |s.trace.wire| == PORTS
  }

  /** tx_room: free bytes of a ring, one slot kept free. */
  function Room(r: Ring): nat
    requires r.Sized()
  {
    U8(TX_RING_SIZE - 1 - r.Count())
  }

  /** One turn of the loop of bridge_out, on the event at offset i: its payload goes to the ring
      of its cable, nothing happens for an unknown cable or a reserved code index number, and
      None means that the ring has no room for the whole event. */
  function Spread(ring: seq<Ring>, buf: seq<byte>, i: nat): (r: Option<seq<Ring>>)
    requires RingsOk(ring) && i + 4 <= |buf|
    ensures r.Some? ==> RingsOk(r.value)
  {
    var cn := buf[i] / 16;
    var len := CinLen(buf[i] % 16);
    if cn >= PORTS || len == 0 then Some(ring)
    else if Room(ring[cn]) < len then None
    else
      PutAllShape(ring[cn], buf[i + 1..i + 1 + len]);
      Some(ring[cn := ring[cn].PutAll(buf[i + 1..i + 1 + len])])
  }

  datatype Bridged = Bridged(ring: seq<Ring>, at: nat, stalled: bool)

  /** The loop of bridge_out from offset i. */
  function BridgeLoop(ring: seq<Ring>, buf: seq<byte>, n: nat, i: nat): (r: Bridged)
    requires RingsOk(ring) && |buf| == MAXPKT && i <= MAXPKT && n <= MAXPKT
    ensures RingsOk(r.ring) && i <= r.at <= MAXPKT && (i <= n ==> r.at <= n)
    ensures if r.stalled then r.at + 4 <= n else r.at + 4 > n
    decreases MAXPKT - i
  {
    if U8(i + 4) > n then Bridged(ring, i, false)
    else
      match Spread(ring, buf, i)
      case None => Bridged(ring, i, true)
      case Some(ring') => BridgeLoop(ring', buf, n, i + 4)
  }

  /** The next atomic step of bridge_out. */
  function Main(s: System): (r: System)
    requires Shape(s)
    ensures Shape(r)
  {
    var d, t := s.dev, s.trace;
    match s.pc
    case Check =>
      if !d.semaphore then s
      else
        var r := BridgeLoop(d.ring, d.buf, d.bc, d.outOff);
        var done := t.done + Unpack(d.buf[d.outOff..r.at]);
        System(d.(ring := r.ring, outOff := if r.stalled then r.at else 0),
               if r.stalled then Check else Clear, t.(done := done))
    case Clear =>
      System(d.(semaphore := false), Arm, t)
    case Arm =>
      System(d.(armed := true), Check, t)
  }

  /** The host's next bulk transfer: accepted into the buffer if the endpoint is armed, refused
      otherwise. */
  function HostSends(s: System, data: seq<byte>): (r: System)
    requires Shape(s)
    ensures Shape(r)
    ensures !s.dev.armed ==> r == s
  {
    if s.dev.armed && |data| <= MAXPKT then
      var d := s.dev.(buf := data + s.dev.buf[|data|..], bc := |data|, armed := false, irq := true);
      System(d, s.pc, s.trace.(sent := s.trace.sent + Unpack(data)))
    else s
  }

  /** ep2out_isr. */
  function Interrupt(s: System): System {
    if s.dev.irq then s.(dev := s.dev.(semaphore := true, irq := false)) else s
  }

  /** uart_tx_pump for one port. */
  function Pump(s: System, p: nat, ready: bool): (r: System)
    requires Shape(s) && p < PORTS
    ensures Shape(r)
  {
    var f := s.dev.ring[p];
    if f.head != f.tail && ready then
      var wire := s.trace.wire[p := s.trace.wire[p] + [f.Peek()]];
      System(s.dev.(ring := s.dev.ring[p := f.Pop()]), s.pc, s.trace.(wire := wire))
    else s
  }

  datatype Action = HostOut(data: seq<byte>) | Ep2OutIsr | BridgeStep | PumpPort(port: nat, ready: bool)

  /** The handshake between host, interrupt and bridge_out: exactly one of them holds the buffer. */
  ghost predicate Handshake(s: System) {
    var d := s.dev;
    && (d.armed ==> !d.irq && !d.semaphore && s.pc == Check)
    && (d.irq ==> !d.semaphore && s.pc == Check)
    && (s.pc == Clear ==> d.semaphore)
    && (s.pc == Arm ==> !d.semaphore)
    && (s.pc == Check ==> d.armed || d.irq || d.semaphore)
    && (d.outOff > 0 ==> d.semaphore && s.pc == Check)
    && d.outOff % 4 == 0 && (s.pc == Check ==> d.outOff <= d.bc || d.armed)
  }

  function Next(s: System, a: Action): (r: System)
    requires Shape(s)
    ensures Shape(r)
  {
    match a
    case HostOut(data) => HostSends(s, data)
    case Ep2OutIsr => Interrupt(s)
    case BridgeStep => Main(s)
    case PumpPort(p, ready) => if p < PORTS then Pump(s, p, ready) else s
  }

  function Run(s: System, acts: seq<Action>): (r: System)
    requires Shape(s)
    ensures Shape(r)
    decreases |acts|
  {
    if acts == [] then s else Run(Next(s, acts[0]), acts[1..])
  }

  /** What tx_reset and the first re-arm establish. */
  ghost predicate Initial(s: System) {
    && Shape(s) && s.pc == Check
    && (forall p :: 0 <= p < PORTS ==> s.dev.ring[p].head == s.dev.ring[p].tail == 0 && s.trace.wire[p] == [])
    && s.dev.outOff == 0 && !s.dev.semaphore && !s.dev.irq && s.dev.armed
    && s.trace.sent == s.trace.done == []
  }

  /** The events of the current packet that bridge_out still has to look at. */
  function Rest(s: System): seq<Packet>
    requires Shape(s)
  {
    if s.pc == Check && (s.dev.semaphore || s.dev.irq) && s.dev.outOff <= s.dev.bc then
      Unpack(s.dev.buf[s.dev.outOff..s.dev.bc])
    else []
  }

  ghost predicate PortInv(s: System, p: nat)
    requires Shape(s) && p < PORTS
  {
    s.trace.wire[p] + s.dev.ring[p].Contents() == Decode(Cable(s.trace.done, p))
  }

  ghost predicate Inv(s: System) {
    && Shape(s) && Handshake(s)
    && s.trace.sent == s.trace.done + Rest(s)
    && forall p :: 0 <= p < PORTS ==> PortInv(s, p)
  }
}
