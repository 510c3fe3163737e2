/** The USB-MIDI receive parser as a step function on one port's state, and what holds of it
    for every byte string: independence of stale state, resynchronisation, real-time
    transparency, System Exclusive framing and the bound on its output. */
module MidiParser {
  import opened Bytes

  /** A USB-MIDI event without its cable number: code index number and three MIDI bytes. */
  datatype Event = Event(cin: byte, b0: byte, b1: byte, b2: byte)

  /** struct port_parser, with the cells of its three-byte buffer as sx0, sx1 and sx2. */
  datatype Parser = Parser(status: byte, cin: byte, need: byte, have: byte, d0: byte,
                           inSysex: bool, sxn: byte, sx0: byte, sx1: byte, sx2: byte) {

    /** What every state reachable from a reset satisfies. */
    ghost predicate Inv() {
      && sxn <= 2 && have <= 1
      && (!inSysex ==> sxn == 0)
      && (inSysex ==> status == 0)
      && (sxn > 0 ==> IsData(sx0) || sx0 == SYSEX_START)
      && (sxn > 1 ==> IsData(sx1))
      && (status != 0 ==> Sets(status, cin, need))
      && (status != 0 && have == 1 ==> need == 2 && IsData(d0))
    }

    /** The store sx[sxn++] = b; the buffer has room for it. */
    function Push(b: byte): Parser
      requires sxn <= 2
    {
      if sxn == 0 then this.(sx0 := b, sxn := 1)
      else if sxn == 1 then this.(sx1 := b, sxn := 2)
      else this.(sx2 := b, sxn := 3)
    }

    /** The System Exclusive bytes waiting for their packet. */
    function Held(): seq<byte>
      requires sxn <= 2
    {
      if sxn == 0 then [] else if sxn == 1 then [sx0] else [sx0, sx1]
    }

    /** A System Exclusive message is open whose first packet has already been emitted. */
    predicate Continuing() {
      inSysex && (sxn == 0 || sx0 != SYSEX_START)
    }
  }

  /** The status bytes that wait for data, with the code index number and data count they set. */
  predicate Sets(status: byte, cin: byte, need: byte) {
    || (0x80 <= status < 0xF0 && cin == status / 16 && need == if cin == 0x0C || cin == 0x0D then 1 else 2)
    || ((status == 0xF1 || status == 0xF3) && cin == 0x02 && need == 1)
    || (status == 0xF2 && cin == 0x03 && need == 2)
  }

  /** midi_parser_reset: only four fields are initialised, the rest keep what memory held. */
  function Reset(junk: Parser): Parser {
    junk.(status := 0, have := 0, inSysex := false, sxn := 0)
  }

  datatype Result = Result(next: Parser, out: Option<Event>)

  /** parse_byte and the event it emits, if any. */
  function Step(ps: Parser, b: byte): (r: Result)
    requires ps.sxn <= 2
    ensures r.next.sxn <= 2
  {
    if b >= 0xF8 then
      Result(ps, Some(Event(0x0F, b, 0, 0)))
    else if b >= 0x80 then
      if b == 0xF0 then
        Result(ps.(status := 0, have := 0, inSysex := true, sx0 := 0xF0, sxn := 1), None)
      else if b == 0xF7 then
        if ps.inSysex then
          var q := ps.Push(0xF7);
          Result(q.(status := 0, inSysex := false, sxn := 0),
                 Some(Event(0x04 + q.sxn, q.sx0, if q.sxn > 1 then q.sx1 else 0, if q.sxn > 2 then q.sx2 else 0)))
        else
          Result(ps.(status := 0), Some(Event(0x05, 0xF7, 0, 0)))
      else
        StatusStep(ps.(inSysex := false, sxn := 0, have := 0), b)
    else if ps.inSysex then
      var q := ps.Push(b);
      if q.sxn == 3 then
        Result(q.(sxn := 0), Some(Event(0x04, q.sx0, q.sx1, q.sx2)))
      else
        Result(q, None)
    else if ps.status == 0 then
      Result(ps, None)
    else if ps.need == 2 && ps.have == 0 then
      Result(ps.(d0 := b, have := 1), None)
    else
      Result(ps.(have := 0, status := if ps.status >= 0xF0 then 0 else ps.status),
             Some(if ps.need == 1 then Event(ps.cin, ps.status, b, 0) else Event(ps.cin, ps.status, ps.d0, b)))
  }

  /** A channel voice or system common status byte, after any open SysEx has been aborted. */
  function StatusStep(ps: Parser, b: byte): (r: Result)
    requires 0x80 <= b < 0xF7 && b != 0xF0
    ensures r.next.sxn == ps.sxn
  {
    if b < 0xF0 then
      var cin := b / 16;
      Result(ps.(status := b, cin := cin, need := if cin == 0x0C || cin == 0x0D then 1 else 2), None)
    else if b == 0xF1 || b == 0xF3 then
      Result(ps.(status := b, cin := 0x02, need := 1), None)
    else if b == 0xF2 then
      Result(ps.(status := b, cin := 0x03, need := 2), None)
    else
      Result(ps.(status := 0), Some(Event(0x05, b, 0, 0)))
  }

  function List(e: Option<Event>): seq<Event> {
    if e.None? then [] else [e.value]
  }

  /** The state after a byte string. */
  function After(ps: Parser, s: seq<byte>): (r: Parser)
    requires ps.sxn <= 2
    ensures r.sxn <= 2
    decreases |s|
  {
    if s == [] then ps else After(Step(ps, s[0]).next, s[1..])
  }

  /** The packets a byte string produces. */
  function Out(ps: Parser, s: seq<byte>): seq<Event>
    requires ps.sxn <= 2
    decreases |s|
  {
    if s == [] then [] else List(Step(ps, s[0]).out) + Out(Step(ps, s[0]).next, s[1..])
  }

  lemma {:induction false} Concat(ps: Parser, a: seq<byte>, b: seq<byte>)
    requires ps.sxn <= 2
    ensures After(ps, a + b) == After(After(ps, a), b)
    ensures Out(ps, a + b) == Out(ps, a) + Out(After(ps, a), b)
    decreases |a|
  {
    hide Step;
    if a == [] {
      assert a + b == b;
    } else {
      Concat(Step(ps, a[0]).next, a[1..], b);
      assert (a + b)[1..] == a[1..] + b;
    }
  }

  lemma Snoc(ps: Parser, s: seq<byte>, b: byte)
    requires ps.sxn <= 2
    ensures After(ps, s + [b]) == Step(After(ps, s), b).next
    ensures Out(ps, s + [b]) == Out(ps, s) + List(Step(After(ps, s), b).out)
  {
    Concat(ps, s, [b]);
  }

  lemma StepInv(ps: Parser, b: byte)
    requires ps.Inv()
    ensures Step(ps, b).next.Inv()
  {
  }

  lemma {:induction false} AfterInv(ps: Parser, s: seq<byte>)
    requires ps.Inv()
    ensures After(ps, s).Inv()
    decreases |s|
  {
    hide Step;
    if s == [] {
    } else {
      StepInv(ps, s[0]);
      AfterInv(Step(ps, s[0]).next, s[1..]);
    }
  }

  // ---- Stale and uninitialised fields ----------------------------------------------------

  /** States that differ only in fields the parser will write before it reads them. */
  ghost predicate Alike(p: Parser, q: Parser) {
    && p.Inv() && q.Inv()
    && p.inSysex == q.inSysex && p.status == q.status && p.sxn == q.sxn
    && (p.sxn > 0 ==> p.sx0 == q.sx0) && (p.sxn > 1 ==> p.sx1 == q.sx1)
    && (p.status != 0 ==> p.have == q.have && (p.have == 1 ==> p.d0 == q.d0))
  }

  lemma DataAlike(p: Parser, q: Parser, b: byte)
    requires Alike(p, q) && IsData(b)
    ensures Step(p, b).out == Step(q, b).out && Alike(Step(p, b).next, Step(q, b).next)
  {
    StepInv(p, b);
    StepInv(q, b);
  }

  lemma SysexAlike(p: Parser, q: Parser, b: byte)
    requires Alike(p, q) && (b == SYSEX_START || b >= SYSEX_END)
    ensures Step(p, b).out == Step(q, b).out && Alike(Step(p, b).next, Step(q, b).next)
  {
    StepInv(p, b);
    StepInv(q, b);
    hide Sets;
  }

  lemma StatusAlike(p: Parser, q: Parser, b: byte)
    requires Alike(p, q) && 0x80 <= b < SYSEX_END && b != SYSEX_START
    ensures Step(p, b).out == Step(q, b).out && Alike(Step(p, b).next, Step(q, b).next)
  {
    StepInv(p, b);
    StepInv(q, b);
    hide Sets;
  }

  lemma {:induction false} OutAlike(p: Parser, q: Parser, s: seq<byte>)
    requires Alike(p, q)
    ensures Out(p, s) == Out(q, s) && Alike(After(p, s), After(q, s))
    decreases |s|
  {
    hide Step;
    if s == [] {
    } else {
      if IsData(s[0]) {
        DataAlike(p, q, s[0]);
      } else if s[0] == SYSEX_START || s[0] >= SYSEX_END {
        SysexAlike(p, q, s[0]);
      } else {
        StatusAlike(p, q, s[0]);
      }
      OutAlike(Step(p, s[0]).next, Step(q, s[0]).next, s[1..]);
    }
  }

  /** The output after a reset does not depend on anything the reset leaves uninitialised. */
  lemma ResetForgets(junk: Parser, junk': Parser, s: seq<byte>)
    ensures Out(Reset(junk), s) == Out(Reset(junk'), s)
  {
    OutAlike(Reset(junk), Reset(junk'), s);
  }

  /** A status byte from 0x80 to 0xF6 brings any two states together, and so does F7 if
      neither holds System Exclusive bytes. */
  lemma StatusForgets(p: Parser, q: Parser, b: byte)
    requires p.Inv() && q.Inv() && 0x80 <= b <= 0xF7
    ensures Alike(Step(p, b).next, Step(q, b).next)
    ensures b != SYSEX_END || (p.sxn == 0 && q.sxn == 0) ==> Step(p, b).out == Step(q, b).out
  {
    StepInv(p, b);
    StepInv(q, b);
  }

  /** A status byte from 0x80 to 0xF6 makes the past unobservable: whatever came before it,
      what follows is parsed as if the stream began there. */
  lemma SelfSynchronises(start: Parser, u: seq<byte>, b: byte, v: seq<byte>)
    requires start.Inv() && !start.inSysex && start.status == 0
    requires 0x80 <= b <= 0xF6
    ensures Out(start, u + [b] + v) == Out(start, u) + Out(start, [b] + v)
  {
    hide Step, Out, After;
    var p := After(start, u);
    AfterInv(start, u);
    StatusForgets(p, start, b);
    OutAlike(Step(p, b).next, Step(start, b).next, v);
    Concat(start, u, [b] + v);
    OutFirst(p, b, v);
    OutFirst(start, b, v);
    assert u + [b] + v == u + ([b] + v);
  }

  lemma OutFirst(ps: Parser, b: byte, v: seq<byte>)
    requires ps.sxn <= 2
    ensures Out(ps, [b] + v) == List(Step(ps, b).out) + Out(Step(ps, b).next, v)
    ensures After(ps, [b] + v) == After(Step(ps, b).next, v)
  {
    hide Step;
    assert ([b] + v)[1..] == v;
  }

  /** The end-of-SysEx byte resynchronises exactly when it does not close a partly filled packet. */
  lemma EndSynchronisesExactly(start: Parser, u: seq<byte>, v: seq<byte>)
    requires start.Inv() && !start.inSysex && start.status == 0
    ensures Out(start, u + [SYSEX_END] + v) == Out(start, u) + Out(start, [SYSEX_END] + v)
       <==> !(After(start, u).inSysex && After(start, u).sxn > 0)
  {
    var b, p := SYSEX_END, After(start, u);
    AfterInv(start, u);
    StatusForgets(p, start, b);
    Concat(start, u, [b] + v);
    assert u + [b] + v == u + ([b] + v);
    assert ([b] + v)[1..] == v;
    OutAlike(Step(p, b).next, Step(start, b).next, v);
    assert Out(start, u + [b] + v) == Out(start, u) + (List(Step(p, b).out) + Out(Step(p, b).next, v));
    if p.inSysex && p.sxn > 0 {
      assert Out(start, u + [b] + v)[|Out(start, u)|] != (Out(start, u) + Out(start, [b] + v))[|Out(start, u)|];
    }
  }

  // ---- Real-time bytes -------------------------------------------------------------------

  function DropRealtime(s: seq<byte>): seq<byte> {
    if s == [] then [] else (if IsRealtime(s[0]) then [] else [s[0]]) + DropRealtime(s[1..])
  }

  function KeepRealtime(s: seq<byte>): seq<byte> {
    if s == [] then [] else (if IsRealtime(s[0]) then [s[0]] else []) + KeepRealtime(s[1..])
  }

  function DropSingles(es: seq<Event>): seq<Event> {
    if es == [] then [] else (if es[0].cin == 0x0F then [] else [es[0]]) + DropSingles(es[1..])
  }

  function KeepSingles(es: seq<Event>): seq<Event> {
    if es == [] then [] else (if es[0].cin == 0x0F then [es[0]] else []) + KeepSingles(es[1..])
  }

  function Singles(s: seq<byte>): seq<Event> {
    if s == [] then [] else [Event(0x0F, s[0], 0, 0)] + Singles(s[1..])
  }

  lemma RealtimeStep(ps: Parser, b: byte)
    requires ps.Inv()
    ensures var r := Step(ps, b);
            if IsRealtime(b) then r == Result(ps, Some(Event(0x0F, b, 0, 0)))
            else r.out.Some? ==> r.out.value.cin != 0x0F
  {
  }

  /** Real-time bytes pass straight through and leave every other packet as it was. */
  lemma {:induction false} RealtimeTransparent(ps: Parser, s: seq<byte>)
    requires ps.Inv()
    ensures DropSingles(Out(ps, s)) == Out(ps, DropRealtime(s))
    ensures KeepSingles(Out(ps, s)) == Singles(KeepRealtime(s))
    ensures After(ps, s) == After(ps, DropRealtime(s))
    decreases |s|
  {
    hide Step;
    if s == [] {
    } else {
      hide Out, After, DropRealtime, KeepRealtime, DropSingles, KeepSingles, Singles;
      var b, rest, r := s[0], s[1..], Step(ps, s[0]);
      StepInv(ps, b);
      RealtimeStep(ps, b);
      RealtimeTransparent(r.next, rest);
      assert s == [b] + rest;
      OutFirst(ps, b, rest);
      OutFirst(ps, b, DropRealtime(rest));
      RealtimeFirst(b, rest);
      SinglesFirst(r.out, Out(r.next, rest), b, KeepRealtime(rest));
    }
  }

  lemma RealtimeFirst(b: byte, rest: seq<byte>)
    ensures DropRealtime([b] + rest) == if IsRealtime(b) then DropRealtime(rest) else [b] + DropRealtime(rest)
    ensures KeepRealtime([b] + rest) == if IsRealtime(b) then [b] + KeepRealtime(rest) else KeepRealtime(rest)
  {
    assert ([b] + rest)[1..] == rest;
  }

  lemma SinglesFirst(e: Option<Event>, es: seq<Event>, b: byte, rest: seq<byte>)
    ensures DropSingles(List(e) + es) == (if e.Some? && e.value.cin != 0x0F then List(e) else []) + DropSingles(es)
    ensures KeepSingles(List(e) + es) == (if e.Some? && e.value.cin == 0x0F then List(e) else []) + KeepSingles(es)
    ensures Singles([b] + rest) == [Event(0x0F, b, 0, 0)] + Singles(rest)
  {
    assert ([b] + rest)[1..] == rest;
    if e.None? {
      assert List(e) + es == es;
    } else {
      assert (List(e) + es)[1..] == es;
    }
  }

  // ---- Payload, and the bound on it ------------------------------------------------------

  /** cin_len: how many of the three MIDI bytes an event carries. */
  function CinLen(cin: byte): (n: nat)
    ensures n <= 3
  {
    if cin < 0x02 || cin > 0x0F then 0
    else if cin == 0x05 || cin == 0x0F then 1
    else if cin == 0x02 || cin == 0x06 || cin == 0x0C || cin == 0x0D then 2
    else 3
  }

  function Payload(e: Event): (r: seq<byte>)
    ensures |r| == CinLen(e.cin)
  {
    var n := CinLen(e.cin);
    if n == 0 then [] else if n == 1 then [e.b0] else if n == 2 then [e.b0, e.b1] else [e.b0, e.b1, e.b2]
  }

  /** Table 4-1 of the USB MIDI 1.0 class definition: how many MIDI bytes go with each code index number. */
  const CIN_LENGTHS: seq<nat> := [0, 0, 2, 3, 3, 1, 2, 3, 3, 3, 3, 3, 2, 2, 3, 1]

  /** The payload is the first bytes of the event, as many as the table says; reserved code index
      numbers, and only those, carry none. */
  lemma PayloadTabled(e: Event)
    requires e.cin < 16
    ensures Payload(e) == [e.b0, e.b1, e.b2][..CIN_LENGTHS[e.cin]]
    ensures Payload(e) == [] <==> e.cin == 0 || e.cin == 1
  {
    assert CinLen(e.cin) == CIN_LENGTHS[e.cin];
  }

  /** The byte stream a packet sequence stands for. */
  function Decode(es: seq<Event>): seq<byte> {
    if es == [] then [] else Payload(es[0]) + Decode(es[1..])
  }

  lemma {:induction false} DecodeConcat(a: seq<Event>, b: seq<Event>)
    ensures Decode(a + b) == Decode(a) + Decode(b)
  {
    hide Payload;
    if a == [] {
      assert a + b == b;
    } else {
      DecodeConcat(a[1..], b);
      assert (a + b)[0] == a[0] && (a + b)[1..] == a[1..] + b;
      assert Decode(a + b) == Payload(a[0]) + (Decode(a[1..]) + Decode(b));
    }
  }

  /** Bytes read but not yet sent: the held SysEx bytes, or one buffered data byte. */
  function Pending(ps: Parser): nat {
    if ps.inSysex then ps.sxn else if ps.status != 0 then ps.have else 0
  }

  lemma StepBound(ps: Parser, b: byte)
    requires ps.Inv()
    ensures |Decode(List(Step(ps, b).out))| + 2 * Pending(Step(ps, b).next) <= 2 + 2 * Pending(ps)
  {
    var out := Step(ps, b).out;
    if out.Some? {
      assert Decode(List(out)) == Payload(out.value) + [];
    }
  }

  /** Never more packets than bytes, and running-status expansion at most doubles the stream. */
  lemma {:induction false} ExpansionBound(ps: Parser, s: seq<byte>)
    requires ps.Inv()
    ensures |Out(ps, s)| <= |s|
    ensures |Decode(Out(ps, s))| + 2 * Pending(After(ps, s)) <= 2 * |s| + 2 * Pending(ps)
    decreases |s|
  {
    hide Step, Payload;
    if s == [] {
    } else {
      var r := Step(ps, s[0]);
      StepInv(ps, s[0]);
      ExpansionBound(r.next, s[1..]);
      DecodeConcat(List(r.out), Out(r.next, s[1..]));
      StepBound(ps, s[0]);
    }
  }

  /** Data under a one-byte running status, each of which comes out as a message of two. */
  lemma {:induction false} RunningStatus(ps: Parser, data: seq<byte>)
    requires ps.Inv() && 0xC0 <= ps.status < 0xE0
    requires forall i :: 0 <= i < |data| ==> IsData(data[i])
    ensures |Out(ps, data)| == |data| && |Decode(Out(ps, data))| == 2 * |data|
    decreases |data|
  {
    if data == [] {
    } else {
      var r := Step(ps, data[0]);
      assert r.out.Some? && CinLen(r.out.value.cin) == 2 && r.next.status == ps.status && r.next.Inv();
      hide Step, Payload;
      RunningStatus(r.next, data[1..]);
      assert List(r.out) == [r.out.value];
      assert Out(ps, data)[0] == r.out.value && Out(ps, data)[1..] == Out(r.next, data[1..]);
    }
  }

  /** So the bound cannot be improved by more than two bytes, for input of any length. */
  lemma ExpansionTight(start: Parser, n: nat) returns (s: seq<byte>)
    requires start.Inv()
    ensures |s| == n + 1 && |Decode(Out(start, s))| == 2 * |s| - 2
  {
    var data := seq(n, i => 0 as byte);
    s := [0xC0] + data;
    var r := Step(start, 0xC0);
    StepInv(start, 0xC0);
    RunningStatus(r.next, data);
    assert r.out.None? && s[1..] == data;
    hide Step;
    assert Out(start, s) == Out(r.next, data);
  }

  // ---- Running status ----------------------------------------------------------------------

  /** Data bytes of a message with this status. */
  function DataBytes(status: byte): nat {
    if 0xC0 <= status < 0xE0 then 1 else 2
  }

  /** The messages of some data under one status, with the status written before each of them; data short
      of a message is left out. */
  function Spelled(status: byte, data: seq<byte>): seq<byte>
    decreases |data|
  {
    var n := DataBytes(status);
    if |data| < n then [] else [status] + data[..n] + Spelled(status, data[n..])
  }

  lemma MessageUnder(ps: Parser, data: seq<byte>)
    requires ps.Inv() && 0x80 <= ps.status < 0xF0 && ps.have == 0 && |data| >= DataBytes(ps.status)
    requires forall i :: 0 <= i < DataBytes(ps.status) ==> IsData(data[i])
    ensures var n := DataBytes(ps.status);
            var r1 := Step(ps, data[0]);
            var r := if n == 1 then r1 else Step(r1.next, data[1]);
            && (n == 2 ==> r1.out.None?)
            && r.out.Some? && Payload(r.out.value) == [ps.status] + data[..n]
            && r.next.Inv() && r.next.status == ps.status && r.next.have == 0
  {
    StepInv(ps, data[0]);
  }

  lemma {:induction false} SpelledOut(ps: Parser, data: seq<byte>)
    requires ps.Inv() && 0x80 <= ps.status < 0xF0 && ps.have == 0
    requires forall i :: 0 <= i < |data| ==> IsData(data[i])
    ensures Decode(Out(ps, data)) == Spelled(ps.status, data)
    decreases |data|
  {
    hide Step, Payload, Out, Decode;
    var n := DataBytes(ps.status);
    if |data| < n {
      NothingYet(ps, data);
    } else {
      MessageUnder(ps, data);
      var r1 := Step(ps, data[0]);
      var r := if n == 1 then r1 else Step(r1.next, data[1]);
      SpelledOut(r.next, data[n..]);
      OutFirst(ps, data[0], data[1..]);
      assert data == [data[0]] + data[1..];
      var rest := Out(r.next, data[n..]);
      if n == 2 {
        OutFirst(r1.next, data[1], data[2..]);
        assert data[1..] == [data[1]] + data[2..];
        assert Out(ps, data) == [] + ([r.out.value] + rest);
      }
      assert Out(ps, data) == [r.out.value] + rest;
      DecodeFirst(r.out.value, rest);
    }
  }

  lemma NothingYet(ps: Parser, data: seq<byte>)
    requires ps.Inv() && 0x80 <= ps.status < 0xF0 && ps.have == 0 && |data| < DataBytes(ps.status)
    requires forall i :: 0 <= i < |data| ==> IsData(data[i])
    ensures Decode(Out(ps, data)) == []
  {
    if data != [] {
      assert data[1..] == [] && Step(ps, data[0]).out.None?;
    }
  }

  lemma DecodeFirst(e: Event, es: seq<Event>)
    ensures Decode([e] + es) == Payload(e) + Decode(es)
  {
    assert ([e] + es)[1..] == es;
  }

  /** From any state, a channel status and any data bytes under it come out as the messages with their
      status written out. */
  lemma RunningStatusSpelled(ps: Parser, status: byte, data: seq<byte>)
    requires ps.Inv() && 0x80 <= status < 0xF0
    requires forall i :: 0 <= i < |data| ==> IsData(data[i])
    ensures Decode(Out(ps, [status] + data)) == Spelled(status, data)
  {
    hide Step, Spelled, Decode, Out, After;
    var r := Step(ps, status);
    StatusTaken(ps, status);
    OutFirst(ps, status, data);
    SpelledOut(r.next, data);
    assert Out(ps, [status] + data) == [] + Out(r.next, data);
    assert [] + Out(r.next, data) == Out(r.next, data);
  }

  lemma StatusTaken(ps: Parser, status: byte)
    requires ps.Inv() && 0x80 <= status < 0xF0
    ensures var r := Step(ps, status);
            r.out.None? && r.next.Inv() && r.next.status == status && r.next.have == 0
  {
    StepInv(ps, status);
  }

  // ---- System Exclusive framing ----------------------------------------------------------

  /** The packets of one message of System Exclusive bytes: full chunks of three with CIN 4,
      then the last one, two or three bytes with CIN 5, 6 or 7. */
  function Chunks(m: seq<byte>): (es: seq<Event>)
    requires |m| > 0
  {
    if |m| <= 3 then
      [Event(4 + |m|, m[0], if |m| > 1 then m[1] else 0, if |m| > 2 then m[2] else 0)]
    else
      [Event(4, m[0], m[1], m[2])] + Chunks(m[3..])
  }

  lemma {:induction false} ChunksShape(m: seq<byte>)
    requires |m| > 0
    ensures |Chunks(m)| == (|m| + 2) / 3
    ensures forall i :: 0 <= i < |Chunks(m)| - 1 ==> Chunks(m)[i].cin == 4
    ensures Chunks(m)[|Chunks(m)| - 1].cin == 4 + (|m| - 1) % 3 + 1
    ensures Decode(Chunks(m)) == m
    decreases |m|
  {
    if |m| <= 3 {
      LastChunk(m);
    } else {
      hide Chunks, Payload, CinLen;
      var first, rest := Event(4, m[0], m[1], m[2]), Chunks(m[3..]);
      ChunksShape(m[3..]);
      ChunksFirst(m);
      ThreeMore(|m|);
      DecodeFull(first);
      DecodeConcat([first], rest);
      assert m == [m[0], m[1], m[2]] + m[3..];
    }
  }

  lemma LastChunk(m: seq<byte>)
    requires 0 < |m| <= 3
    ensures |Chunks(m)| == 1 && Chunks(m)[0].cin as nat == 4 + |m| && Decode(Chunks(m)) == m
  {
    assert Payload(Chunks(m)[0]) == m;
    assert Decode(Chunks(m)) == m + [];
  }

  lemma ThreeMore(n: nat)
    requires n > 3
    ensures (n + 2) / 3 == 1 + (n - 3 + 2) / 3 && (n - 1) % 3 == (n - 3 - 1) % 3
  {
  }

  lemma DecodeFull(e: Event)
    requires e.cin == 4
    ensures Decode([e]) == [e.b0, e.b1, e.b2]
  {
    assert Decode([e]) == Payload(e) + [];
  }

  lemma SysexStep(ps: Parser, b: byte)
    requires ps.Inv() && ps.inSysex && (IsData(b) || b == SYSEX_END)
    ensures var r := Step(ps, b);
            var m := ps.Held() + [b];
            && r.next.Inv()
            && (b == SYSEX_END ==> r.out == Some(Chunks(m)[0]))
            && (IsData(b) ==> r.next.inSysex)
            && (IsData(b) && ps.sxn < 2 ==> r.out.None? && r.next.Held() == m)
            && (IsData(b) && ps.sxn == 2 ==> r.out == Some(Event(4, m[0], m[1], m[2])) && r.next.Held() == [])
  {
    StepInv(ps, b);
  }

  lemma {:induction false} OpenSysex(ps: Parser, data: seq<byte>)
    requires ps.Inv() && ps.inSysex
    requires forall i :: 0 <= i < |data| ==> IsData(data[i])
    ensures Out(ps, data + [SYSEX_END]) == Chunks(ps.Held() + data + [SYSEX_END])
    decreases |data|
  {
    hide Step, Out, Chunks;
    var m, s := ps.Held() + data + [SYSEX_END], data + [SYSEX_END];
    SysexStep(ps, s[0]);
    var p := Step(ps, s[0]).next;
    OutFirst(ps, s[0], s[1..]);
    assert s == [s[0]] + s[1..];
    if data == [] {
      OutNothing(p);
      ChunksFirst(m);
      assert s[1..] == [] && m == ps.Held() + [SYSEX_END];
    } else {
      assert s[1..] == data[1..] + [SYSEX_END];
      OpenSysex(p, data[1..]);
      if ps.sxn < 2 {
        assert p.Held() + data[1..] + [SYSEX_END] == m;
      } else {
        ChunksFirst(m);
        assert m[..3] == ps.Held() + [s[0]];
        assert m[3..] == p.Held() + data[1..] + [SYSEX_END];
      }
    }
  }

  lemma OutNothing(ps: Parser)
    requires ps.sxn <= 2
    ensures Out(ps, []) == []
  {
  }

  lemma ChunksFirst(m: seq<byte>)
    requires |m| > 0
    ensures |m| <= 3 ==> Chunks(m) == [Chunks(m)[0]]
    ensures |m| > 3 ==> Chunks(m) == [Event(4, m[0], m[1], m[2])] + Chunks(m[3..])
  {
  }

  /** From any state whatever, F0, any number of data bytes and F7 come out as exactly the
      ceiling of T/3 packets that carry those T bytes. */
  lemma SysexFraming(ps: Parser, data: seq<byte>)
    requires ps.Inv()
    requires forall i :: 0 <= i < |data| ==> IsData(data[i])
    ensures var m := [SYSEX_START] + data + [SYSEX_END];
            var es := Out(ps, m);
            && |es| == (|m| + 2) / 3
            && (forall i :: 0 <= i < |es| - 1 ==> es[i].cin == 4)
            && es[|es| - 1].cin == 4 + (|m| - 1) % 3 + 1
            && Decode(es) == m
  {
    var m := [SYSEX_START] + data + [SYSEX_END];
    var p := Step(ps, SYSEX_START).next;
    StepInv(ps, SYSEX_START);
    assert p.inSysex && p.Held() == [SYSEX_START] && Step(ps, SYSEX_START).out.None?;
    assert Out(ps, m) == Chunks(m) by {
      hide Step;
      assert m[1..] == data + [SYSEX_END] && m == p.Held() + data + [SYSEX_END];
      OpenSysex(p, data);
    }
    ChunksShape(m);
  }
}
