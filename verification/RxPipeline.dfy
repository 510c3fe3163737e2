/** The receive side as a system of atomic steps: the Timer0 interrupt captures bytes into the
    per-port queues between any two steps of the main loop, which parses them into one shared
    ring and ships whole packets. */
module RxPipeline {
  import opened Bytes
  import opened Rings
  import opened MidiParser
  import opened Packets

  const FIFO_SIZE := 16
  const RX_RING_SIZE := 256

  /** The variables of uart.c and midi_parser.c, and the EP2-IN endpoint. */
  datatype Rx = Rx(fifo: seq<Ring>, overflows: byte, prescale: byte,
                   parser: seq<Parser>, ring: Ring, busy: bool, inBuf: seq<byte>)

  /** Where midi_rx_pump stands: before testing a port, before and after reading its slot,
      before parsing the byte, or before shipping. */
  datatype Pc = Poll(port: nat) | Read(port: nat) | Advance(port: nat, b: byte) | Parse(port: nat, b: byte) | Ship

  datatype Capture = Capture(b: byte, kept: bool)

  /** What has happened so far: the bytes read from each UART and whether they were kept, the
      bytes taken from each queue, the bytes written to the ring, the bytes put into the endpoint,
      the bytes the host has read, and how many bytes had been dropped when the overflow counter was
      last cleared. */
  datatype Trace = Trace(log: seq<seq<Capture>>, taken: seq<seq<byte>>,
                         emitted: seq<byte>, shipped: seq<byte>, read: seq<byte>, forgiven: nat)

  datatype System = System(dev: Rx, pc: Pc, trace: Trace)

  ghost predicate DevShape(d: Rx) {
    && |d.fifo| == PORTS && (forall p :: 0 <= p < PORTS ==> d.fifo[p].Valid() && |d.fifo[p].buf| == FIFO_SIZE)
    && |d.parser| == PORTS && (forall p :: 0 <= p < PORTS ==> d.parser[p].sxn <= 2)
    && d.ring.Valid() && |d.ring.buf| == RX_RING_SIZE
  }

  /** A point of midi_rx_pump with its port number in range. */
  predicate InRange(pc: Pc) {
    match pc
    case Poll(p) => p <= PORTS
    case Ship => true
    case _ => pc.port < PORTS
  }

  /** Sizes and index ranges. */
  ghost predicate Shape(s: System) {
    && DevShape(s.dev)
    && |s.trace.log| == |s.trace.taken| == PORTS
    && InRange(s.pc)
  }

  // ---- The interrupt ---------------------------------------------------------------------

  /** RX_STORE: push one captured byte, or count an overflow when the queue is full. */
  function StoreDev(d: Rx, p: nat, b: byte): Rx
    requires p < |d.fifo| && d.fifo[p].Sized() && d.fifo[p].head < |d.fifo[p].buf|
  {
    var r := d.fifo[p];
    if Mask(r.head + 1, |r.buf|) == r.tail then
      d.(overflows := if d.overflows != 0xFF then d.overflows + 1 else d.overflows)
    else
      d.(fifo := d.fifo[p := r.Put(b)])
  }

  function Store(s: System, p: nat, b: byte): (r: System)
    requires Shape(s) && p < PORTS
    ensures Shape(r) && r.pc == s.pc
  {
    var full := Mask(s.dev.fifo[p].head + 1, |s.dev.fifo[p].buf|) == s.dev.fifo[p].tail;
    var log := s.trace.log[p := s.trace.log[p] + [Capture(b, !full)]];
    System(StoreDev(s.dev, p, b), s.pc, s.trace.(log := log))
  }

  /** What the line status and data registers of port p show during a sweep. */
  function Line(lines: seq<Option<byte>>, p: nat): Option<byte> {
    if p < |lines| then lines[p] else None
  }

  /** One pass over the UARTs, from port p on. */
  function Sweep(s: System, lines: seq<Option<byte>>, p: nat): (r: System)
    requires Shape(s) && p <= PORTS
    ensures Shape(r) && r.pc == s.pc
    decreases PORTS - p
  {
    if p == PORTS then s
    else Sweep(match Line(lines, p) { case None => s case Some(b) => Store(s, p, b) }, lines, p + 1)
  }

  /** uart_rx_isr: a sweep on the tick that brings the prescaler to zero. */
  function Tick(s: System, lines: seq<Option<byte>>): (r: System)
    requires Shape(s)
    ensures Shape(r) && r.pc == s.pc
  {
    var c := U8(s.dev.prescale - 1);
    if c != 0 then s.(dev := s.dev.(prescale := c))
    else Sweep(s.(dev := s.dev.(prescale := PRESCALE)), lines, 0)
  }

  // ---- The main loop ---------------------------------------------------------------------

  datatype Shipment = Shipment(ring: Ring, data: seq<byte>)

  /** The shipping loop: four bytes at a time while there are four and room for them. */
  function ShipLoop(r: Ring, n: nat): Shipment
    requires r.Valid() && |r.buf| == RX_RING_SIZE
    decreases MAXPKT - n
  {
    if r.Count() >= 4 && n <= MAXPKT - 4 then
      var r1 := r.Pop();
      var r2 := r1.Pop();
      var r3 := r2.Pop();
      var rest := ShipLoop(r3.Pop(), n + 4);
      Shipment(rest.ring, [r.Peek(), r1.Peek(), r2.Peek(), r3.Peek()] + rest.data)
    else
      Shipment(r, [])
  }

  function EmitBytes(p: nat, e: Option<Event>): seq<byte> {
    if e.None? then [] else Pack(p, e.value)
  }

  /** The next atomic step of midi_rx_pump. */
  function Main(s: System): (r: System)
    requires Shape(s)
  {
    var d, t := s.dev, s.trace;
    match s.pc
    case Poll(p) =>
      if p == PORTS then s.(pc := Ship)
      else if d.fifo[p].head == d.fifo[p].tail then s.(pc := Poll(p + 1))
      else if d.ring.Count() > RX_RING_SIZE - 1 - 4 then s.(pc := Poll(p + 1))
      else s.(pc := Read(p))
    case Read(p) =>
      s.(pc := Advance(p, d.fifo[p].Peek()))
    case Advance(p, b) =>
      System(d.(fifo := d.fifo[p := d.fifo[p].Pop()]), Parse(p, b), t.(taken := t.taken[p := t.taken[p] + [b]]))
    case Parse(p, b) =>
      var r := Step(d.parser[p], b);
      var bytes := EmitBytes(p, r.out);
      System(d.(parser := d.parser[p := r.next], ring := d.ring.PutAll(bytes)), Poll(p),
             t.(emitted := t.emitted + bytes))
    case Ship =>
      var sh := ShipLoop(d.ring, 0);
      if d.busy || sh.data == [] then s.(pc := Poll(0))
      else System(d.(ring := sh.ring, busy := true, inBuf := sh.data), Poll(0), t.(shipped := t.shipped + sh.data))
  }

  function Dropped(log: seq<Capture>): nat {
    if log == [] then 0 else Dropped(log[..|log| - 1]) + if log[|log| - 1].kept then 0 else 1
  }

  /** Drops over all the given ports. */
  function AllDropped(logs: seq<seq<Capture>>): nat {
    if logs == [] then 0 else Dropped(logs[0]) + AllDropped(logs[1..])
  }

  // ---- Runs ------------------------------------------------------------------------------

  /** A timer tick, a step of the main loop, the host reading EP2-IN, the host clearing the
      overflow counter. */
  datatype Action = Timer(lines: seq<Option<byte>>) | MainStep | HostRead | ClearOverflows

  lemma ShipLoopShape(r: Ring, n: nat)
    requires r.Valid() && |r.buf| == RX_RING_SIZE
    ensures ShipLoop(r, n).ring.Valid() && |ShipLoop(r, n).ring.buf| == RX_RING_SIZE
    decreases MAXPKT - n
  {
    if r.Count() < 4 || n > MAXPKT - 4 {
    } else {
      ShipLoopShape(r.Pop().Pop().Pop().Pop(), n + 4);
    }
  }

  lemma MainShape(s: System)
    requires Shape(s)
    ensures Shape(Main(s))
  {
    match s.pc
    case Parse(p, b) => PutAllShape(s.dev.ring, EmitBytes(p, Step(s.dev.parser[p], b).out));
    case Ship => ShipLoopShape(s.dev.ring, 0);
    case _ =>
  }

  function Next(s: System, a: Action): (r: System)
    requires Shape(s)
    ensures Shape(r)
  {
    match a
    case Timer(lines) => Tick(s, lines)
    case MainStep => MainShape(s); Main(s)
    case HostRead =>
      if s.dev.busy then
        s.(dev := s.dev.(busy := false), trace := s.trace.(read := s.trace.read + s.dev.inBuf))
      else s
    case ClearOverflows => s.(dev := s.dev.(overflows := 0), trace := s.trace.(forgiven := AllDropped(s.trace.log)))
  }

  function Run(s: System, acts: seq<Action>): (r: System)
    requires Shape(s)
    ensures Shape(r)
    decreases |acts|
  {
    if acts == [] then s else Run(Next(s, acts[0]), acts[1..])
  }

  /** What uart_rx_reset, midi_parser_reset and uart_rx_start establish; the buffers and the
      parser fields that no reset touches hold anything. */
  ghost predicate Initial(s: System) {
    && Shape(s) && s.pc == Poll(0)
    && (forall p :: 0 <= p < PORTS ==>
          && s.dev.fifo[p].head == s.dev.fifo[p].tail == 0
          && s.dev.parser[p] == Reset(s.dev.parser[p])
          && s.trace.log[p] == [] && s.trace.taken[p] == [])
    && s.dev.overflows == 0 && s.dev.prescale == 1
    && s.dev.ring.head == s.dev.ring.tail == 0 && s.dev.inBuf == []
    && s.trace.emitted == s.trace.shipped == s.trace.read == [] && s.trace.forgiven == 0
  }

  // ---- The invariant ---------------------------------------------------------------------

  function Captured(log: seq<Capture>): seq<byte> {
    seq(|log|, i requires 0 <= i < |log| => log[i].b)
  }

  function Kept(log: seq<Capture>): seq<byte> {
    if log == [] then [] else Kept(log[..|log| - 1]) + if log[|log| - 1].kept then [log[|log| - 1].b] else []
  }

  /** The bytes of port p that have been through the parser: all that were taken, except one
      that is just on its way there. */
  function Parsed(s: System, p: nat): seq<byte>
    requires p < |s.trace.taken|
  {
    var t := s.trace.taken[p];
    if s.pc.Parse? && s.pc.port == p && |t| > 0 then t[..|t| - 1] else t
  }

  ghost predicate PortInv(s: System, boot: seq<Parser>, p: nat)
    requires Shape(s) && |boot| == PORTS && p < PORTS && boot[p].Inv()
  {
    && QueueInv(s, p)
    && s.dev.parser[p] == After(boot[p], Parsed(s, p))
    && Cable(Unpack(s.trace.emitted), p) == Out(boot[p], Parsed(s, p))
  }

  /** The queue of port p holds exactly the kept bytes not yet taken, in order. */
  ghost predicate QueueInv(s: System, p: nat)
    requires Shape(s) && p < PORTS
  {
    var q := s.dev.fifo[p].Contents();
    && Kept(s.trace.log[p]) == s.trace.taken[p] + q
    && (s.pc == Read(p) ==> q != [])
    && (s.pc.Advance? && s.pc.port == p ==> q != [] && s.pc.b == q[0])
    && (s.pc.Parse? && s.pc.port == p ==> |s.trace.taken[p]| > 0 && s.trace.taken[p][|s.trace.taken[p]| - 1] == s.pc.b)
  }

  /** The 8-bit index that a byte count stands for. */
  function At(count: nat): byte {
    count % RX_RING_SIZE
  }

  /** A ring index moved forward k places. */
  function Forward(i: byte, k: nat): byte {
    (i + k) % RX_RING_SIZE
  }

  /** The ring holds exactly the emitted bytes not yet shipped; its indices are the true byte
      counts modulo 256, and the true difference of the counts never reaches 256. */
  ghost predicate RingHolds(r: Ring, emitted: seq<byte>, shipped: seq<byte>) {
    && r.Valid() && |r.buf| == RX_RING_SIZE
    && emitted == shipped + r.Contents()
    && |emitted| % 4 == 0 && |shipped| % 4 == 0
    && r.head == At(|emitted|) && r.tail == At(|shipped|)
    && |emitted| - |shipped| <= RX_RING_SIZE - 4
  }

  ghost predicate RingInv(s: System) {
    var t := s.trace;
    && RingHolds(s.dev.ring, t.emitted, t.shipped)
    && (s.pc.Read? || s.pc.Advance? || s.pc.Parse? ==> |t.emitted| - |t.shipped| <= RX_RING_SIZE - 8)
    && |s.dev.inBuf| <= MAXPKT && |s.dev.inBuf| % 4 == 0
  }

  /** What waits in the endpoint for the host. */
  function InEndpoint(d: Rx): seq<byte> {
    if d.busy then d.inBuf else []
  }

  /** Nothing is lost in the endpoint: what was shipped is what the host has read and what waits for it. */
  ghost predicate EndpointInv(s: System) {
    s.trace.shipped == s.trace.read + InEndpoint(s.dev)
  }

  /** All the bytes that have left the parsers: read by the host, in the endpoint, or in the ring. */
  function Upstream(s: System): seq<byte>
    requires Shape(s)
  {
    s.trace.read + InEndpoint(s.dev) + s.dev.ring.Contents()
  }

  /** The overflow counter is the number of bytes dropped since it was cleared, up to 255. */
  ghost predicate CountInv(s: System) {
    var n := AllDropped(s.trace.log) - s.trace.forgiven;
    n >= 0 && s.dev.overflows as int == if n < 255 then n else 255
  }

  ghost predicate Inv(s: System, boot: seq<Parser>) {
    && Shape(s) && |boot| == PORTS
    && (forall p :: 0 <= p < PORTS ==> boot[p].Inv() && PortInv(s, boot, p))
    && RingInv(s)
    && EndpointInv(s)
    && CountInv(s)
  }
}
