/** How long back-pressure can last: counting only the passes of the main loop in which the UART
    of the stalled cable is ready, a stalled event needs at most its length in such passes and a
    whole packet at most 48. */
module TxProgress {
  import opened Bytes
  import opened Rings
  import opened MidiParser
  import opened TxBridge
  import opened TxTheorems

  /** One call of bridge_out. */
  function BridgeOut(s: System): (r: System)
    requires Shape(s)
    ensures Shape(r)
  {
    var b := Main(s);
    if b.pc == Clear then Main(Main(b)) else b
  }

  predicate Ready(ready: seq<bool>, p: nat) {
    p < |ready| && ready[p]
  }

  /** uart_tx_pump from port p on. */
  function PumpAll(s: System, ready: seq<bool>, p: nat): (r: System)
    requires Shape(s) && p <= PORTS
    ensures Shape(r)
    decreases PORTS - p
  {
    if p == PORTS then s else PumpAll(Pump(s, p, Ready(ready, p)), ready, p + 1)
  }

  /** The transmit half of one pass of the main loop. */
  function Pass(s: System, ready: seq<bool>): (r: System)
    requires Shape(s)
    ensures Shape(r)
  {
    PumpAll(BridgeOut(s), ready, 0)
  }

  function Passes(s: System, rs: seq<seq<bool>>): (r: System)
    requires Shape(s)
    ensures Shape(r)
    decreases |rs|
  {
    if rs == [] then s else Passes(Pass(s, rs[0]), rs[1..])
  }

  /** A packet is in the buffer and not consumed. */
  predicate Waiting(s: System) {
    s.dev.semaphore && s.pc == Check
  }

  /** The cable of the event bridge_out is to look at next. */
  function Stalled(s: System): nat
    requires Shape(s)
  {
    if s.dev.outOff < MAXPKT then s.dev.buf[s.dev.outOff] / 16 else 0
  }

  /** The passes in which a packet stayed stalled although its stalled cable's UART was ready. */
  function Served(s: System, rs: seq<seq<bool>>): nat
    requires Shape(s)
    decreases |rs|
  {
    if rs == [] || !Waiting(BridgeOut(s)) then 0
    else (if Ready(rs[0], Stalled(BridgeOut(s))) then 1 else 0) + Served(Pass(s, rs[0]), rs[1..])
  }

  // ---- The measure -----------------------------------------------------------------------

  /** Bytes the event at offset i needs in a ring. */
  function Demand(buf: seq<byte>, i: nat): nat
    requires i < |buf|
  {
    if buf[i] / 16 < PORTS then CinLen(buf[i] % 16) else 0
  }

  /** Bytes all the events from offset i on need. */
  function Need(buf: seq<byte>, n: nat, i: nat): nat
    requires n <= |buf| == MAXPKT && i <= MAXPKT
    decreases MAXPKT - i
  {
    if U8(i + 4) > n then 0 else Demand(buf, i) + Need(buf, n, i + 4)
  }

  /** How much of the next event's demand its ring has room for already. */
  function Slack(ring: seq<Ring>, buf: seq<byte>, n: nat, i: nat): nat
    requires RingsOk(ring) && n <= |buf| == MAXPKT && i <= MAXPKT
  {
    if U8(i + 4) > n || buf[i] / 16 >= PORTS then 0
    else
      var room, len := Room(ring[buf[i] / 16]), Demand(buf, i);
      if room < len then room else len
  }

  function Debt(s: System): int
    requires Shape(s)
  {
    Need(s.dev.buf, s.dev.bc, s.dev.outOff) - Slack(s.dev.ring, s.dev.buf, s.dev.bc, s.dev.outOff)
  }

  lemma {:induction false} NeedBound(buf: seq<byte>, n: nat, i: nat)
    requires n <= |buf| == MAXPKT && i <= MAXPKT
    ensures 4 * Need(buf, n, i) <= if i <= n then 3 * (n - i) else 0
    decreases MAXPKT - i
  {
    hide CinLen;
    if U8(i + 4) > n {
    } else {
      NeedBound(buf, n, i + 4);
    }
  }

  /** At an event that does not fit, the debt is positive and no larger than where the loop began. */
  lemma {:induction false} LoopDebt(ring: seq<Ring>, buf: seq<byte>, n: nat, i: nat)
    requires RingsOk(ring) && n <= |buf| == MAXPKT && i <= MAXPKT
    ensures var r := BridgeLoop(ring, buf, n, i);
            r.stalled ==>
              && buf[r.at] / 16 < PORTS && Room(r.ring[buf[r.at] / 16]) < Demand(buf, r.at)
              && 1 <= Need(buf, n, r.at) - Slack(r.ring, buf, n, r.at)
                   <= Need(buf, n, i) - Slack(ring, buf, n, i)
    decreases MAXPKT - i
  {
    hide CinLen, Room, Ring.PutAll;
    if U8(i + 4) > n {
    } else {
      var next := Spread(ring, buf, i);
      if next.Some? {
        LoopDebt(next.value, buf, n, i + 4);
      }
    }
  }

  lemma BridgeDebt(s: System)
    requires Shape(s) && Waiting(s)
    ensures var b := BridgeOut(s);
            if Waiting(b) then
              && 1 <= Debt(b) <= Debt(s) && s.dev.outOff <= b.dev.outOff && U8(b.dev.outOff + 4) <= b.dev.bc
              && Stalled(b) < PORTS && Room(b.dev.ring[Stalled(b)]) < Demand(b.dev.buf, b.dev.outOff)
              && b.dev.buf == s.dev.buf && b.dev.bc == s.dev.bc
            else b.pc == Check && b.dev.armed
  {
    hide BridgeLoop, Room, CinLen;
    LoopDebt(s.dev.ring, s.dev.buf, s.dev.bc, s.dev.outOff);
  }

  /** A pump pass takes one byte from every ring that has one and whose UART is ready. */
  lemma {:induction false} PumpAllRing(s: System, ready: seq<bool>, p: nat, c: nat)
    requires Shape(s) && p <= PORTS && c < PORTS
    ensures var r, f := PumpAll(s, ready, p), s.dev.ring[c];
            && r.dev.ring[c] == (if p <= c && f.head != f.tail && Ready(ready, c) then f.Pop() else f)
            && r.dev.(ring := s.dev.ring) == s.dev && r.pc == s.pc
    decreases PORTS - p
  {
    hide Ring.Pop, Ready;
    if p == PORTS {
    } else {
      PumpAllRing(Pump(s, p, Ready(ready, p)), ready, p + 1, c);
    }
  }

  lemma RoomGrows(f: Ring)
    requires f.Valid() && |f.buf| == TX_RING_SIZE && Room(f) < 127
    ensures f.head != f.tail && Room(f.Pop()) == Room(f) + 1
  {
    hide Ring.Contents, Ring.Pop, Ring.Count, Room;
    RoomValue(f);
    IndexTests(f);
    PopContents(f);
    RoomValue(f.Pop());
  }

  /** While the packet stays stalled, each pass in which the stalled cable is ready pays one byte. */
  lemma PassDebt(s: System, ready: seq<bool>)
    requires Shape(s) && Waiting(s)
    ensures var b, e := BridgeOut(s), Pass(s, ready);
            if Waiting(b) then
              && Waiting(e) && s.dev.outOff <= b.dev.outOff == e.dev.outOff
              && e.dev.buf == s.dev.buf && e.dev.bc == s.dev.bc
              && Debt(e) <= Debt(s) - if Ready(ready, Stalled(b)) then 1 else 0
            else e.pc == Check && e.dev.armed && e.dev.semaphore == b.dev.semaphore
  {
    hide BridgeOut, Room, PumpAll, Ring.Pop, CinLen, Need;
    var b := BridgeOut(s);
    BridgeDebt(s);
    if Waiting(b) {
      var c := Stalled(b);
      PumpAllRing(b, ready, 0, c);
      RoomGrows(b.dev.ring[c]);
    } else {
      PumpAllRing(b, ready, 0, 0);
    }
  }

  lemma ArmedStays(s: System, rs: seq<seq<bool>>)
    requires Shape(s) && s.pc == Check && !s.dev.semaphore && s.dev.armed
    ensures var e := Passes(s, rs);
            e.pc == Check && !e.dev.semaphore && e.dev.armed && BridgeOut(e) == e
    decreases |rs|
  {
    if rs == [] {
    } else {
      PumpAllRing(BridgeOut(s), rs[0], 0, 0);
      ArmedStays(Pass(s, rs[0]), rs[1..]);
    }
  }

  lemma {:induction false} PassesDebt(s: System, rs: seq<seq<bool>>)
    requires Shape(s) && Waiting(s)
    ensures var e := Passes(s, rs);
            if Waiting(e) then
              && Debt(e) <= Debt(s) - Served(s, rs) && s.dev.outOff <= e.dev.outOff
              && e.dev.buf == s.dev.buf && e.dev.bc == s.dev.bc
            else e.pc == Check && e.dev.armed && BridgeOut(e) == e
    decreases |rs|
  {
    if rs == [] {
    } else {
      hide BridgeOut, Pass, Debt, Ready;
      PassDebt(s, rs[0]);
      if Waiting(BridgeOut(s)) {
        PassesDebt(Pass(s, rs[0]), rs[1..]);
      } else {
        Consumed(s);
        ArmedStays(Pass(s, rs[0]), rs[1..]);
      }
    }
  }

  lemma Consumed(s: System)
    requires Shape(s) && Waiting(s) && !Waiting(BridgeOut(s))
    ensures !BridgeOut(s).dev.semaphore
  {
    hide BridgeLoop;
  }

  // ---- Main results ----------------------------------------------------------------------

  /** Whatever the host sent and whichever UARTs are ready when, once the stalled cable has been
      ready in 48 passes, bridge_out consumes the rest of the packet and re-arms the endpoint. */
  lemma PacketProgress(s: System, rs: seq<seq<bool>>)
    requires Shape(s) && Waiting(s)
    ensures Served(s, rs) >= 48 ==> !Waiting(BridgeOut(Passes(s, rs))) && BridgeOut(Passes(s, rs)).dev.armed
  {
    hide Debt, BridgeOut, Passes, Served;
    PassesDebt(s, rs);
    var e := Passes(s, rs);
    if Waiting(e) {
      BridgeDebt(e);
      DebtBound(s);
    }
  }

  lemma DebtBound(s: System)
    requires Shape(s)
    ensures Debt(s) <= 48
  {
    hide Need, Slack;
    NeedBound(s.dev.buf, s.dev.bc, s.dev.outOff);
  }

  lemma DebtAtStall(s: System)
    requires Shape(s) && Waiting(s)
    ensures var b := BridgeOut(s);
            Waiting(b) ==>
              var need, len := Need(b.dev.buf, b.dev.bc, b.dev.outOff), Demand(b.dev.buf, b.dev.outOff);
              && 1 <= len <= 3 && b.dev.outOff < MAXPKT
              && need - len < Debt(b) <= need && Debt(b) <= Debt(s)
  {
    BridgeDebt(s);
    hide BridgeOut, Room, Need, CinLen;
  }

  /** A stalled event of n bytes has been stored, whole, once its cable was ready in n passes. */
  lemma StalledEventProgress(s: System, rs: seq<seq<bool>>)
    requires Shape(s) && Waiting(s) && BridgeOut(s) == s
    ensures s.dev.outOff < MAXPKT && 1 <= Demand(s.dev.buf, s.dev.outOff) <= 3
    ensures var e := BridgeOut(Passes(s, rs));
            Served(s, rs) >= Demand(s.dev.buf, s.dev.outOff) ==> !Waiting(e) || e.dev.outOff > s.dev.outOff
  {
    hide BridgeOut, Passes, Served, Need, Debt, Demand;
    DebtAtStall(s);
    PassesDebt(s, rs);
    var m := Passes(s, rs);
    if Waiting(m) {
      DebtAtStall(m);
      BridgeDebt(m);
    }
  }
}
