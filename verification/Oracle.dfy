/** When the message splitter of the end-to-end tests finds the same messages in a raw byte stream
    and in the packets the firmware makes of it. */
module Oracle {
  import opened Bytes
  import opened MidiParser
  import opened PacketStream
  import opened Canonicalizer
  import opened WholeMessages

  // ---- A SysEx that never ends -----------------------------------------------------------

  /** What has come of the beginning of a SysEx without end: one or two bytes of its first packet
      are held back, it was interrupted by a message that still wants data, its first packet was
      sent, or a message that interrupted it was. */
  datatype Opening = Holding(held: nat) | Awaiting(wanted: nat) | Sent | Heard

  function OpenStep(o: Opening, b: byte): Opening {
    if o == Sent || o == Heard then o
    else if b == SYSEX_START then Holding(1)
    else if b >= 0xF4 then Heard
    else if b >= 0x80 then Awaiting(DataLength(b))
    else
      match o
      case Holding(k) => if k == 2 then Sent else Holding(2)
      case Awaiting(n) => if n == 1 then Heard else Awaiting(1)
      case _ => o
  }

  function OpenAll(o: Opening, t: seq<byte>): Opening
    decreases |t|
  {
    if t == [] then o else OpenAll(OpenStep(o, t[0]), t[1..])
  }

  /** No message comes out of this unfinished SysEx before its first packet. */
  predicate Muted(t: seq<byte>) {
    OpenAll(Holding(1), t) != Heard
  }

  lemma {:induction false} OpenSnoc(o: Opening, t: seq<byte>, b: byte)
    ensures OpenAll(o, t + [b]) == OpenStep(OpenAll(o, t), b)
    decreases |t|
  {
    hide OpenStep;
    if t == [] {
      assert [b][1..] == [] && [] + [b] == [b];
    } else {
      OpenSnoc(OpenStep(o, t[0]), t[1..], b);
      assert (t + [b])[1..] == t[1..] + [b];
    }
  }

  // ---- Both splitters side by side -------------------------------------------------------

  /** The parser p and the splitter c have read the same bytes and the splitter d what the packets
      of p decode to; none is in a SysEx. */
  ghost predicate Outside(p: Parser, c: Splitter, d: Splitter) {
    && p.Inv() && !p.inSysex && !c.inSysex && !d.inSysex
    && c.status == p.status
    && (p.status != 0 ==> c.cur == [p.status] + if p.have == 1 then [p.d0] else [])
  }

  /** The same while c is in a SysEx that has been whole so far, whether or not p is: d has
      everything up to the last cut. */
  ghost predicate Inside(p: Parser, c: Splitter, d: Splitter) {
    var q := CutAll(Cut(false), c.sysex);
    && Reads(p, q)
    && c.inSysex && c.status == 0 && c.sysex != [] && c.sysex[0] == SYSEX_START
    && c.sysex == (if d.inSysex then d.sysex else []) + Since(p, q)
  }

  /** The messages agree, or those from the packets are more because a SysEx left open was not muted. */
  ghost predicate Outcome(p: Parser, c: Splitter, d: Splitter, s: seq<byte>, drop: bool)
    requires p.sxn <= 2
  {
    var sent, raw, e := Split(d, Decode(Out(p, s)), drop), Split(c, s, drop), Finish(c, s, drop);
    if e.inSysex && !Muted(e.sysex) then |sent| > |raw| else sent == raw
  }

  lemma OutcomeFirst(p: Parser, c: Splitter, d: Splitter, s: seq<byte>, drop: bool)
    requires p.Inv() && s != []
    ensures var r, f := Step(p, s[0]), Feed(c, s[0], drop);
            var pl := Decode(List(r.out));
            Feed(c, s[0], drop).msgs == Split(d, pl, drop) && Outcome(r.next, f.next, Finish(d, pl, drop), s[1..], drop)
            ==> Outcome(p, c, d, s, drop)
  {
    hide Step, Feed, Split, Finish, Decode, Muted;
    var r := Step(p, s[0]);
    SplitFirst(c, s, drop);
    DecodeConcat(List(r.out), Out(r.next, s[1..]));
    SplitConcat(d, Decode(List(r.out)), Decode(Out(r.next, s[1..])), drop);
  }

  // ---- Steps outside ---------------------------------------------------------------------

  lemma MessageEmits(p: Parser, b: byte)
    requires p.Inv() && !p.inSysex && IsData(b) && Step(p, b).out.Some?
    ensures var q := Step(p, b).next;
            && Payload(Step(p, b).out.value) == [p.status] + (if p.have == 1 then [p.d0] else []) + [b]
            && p.status >= 0x80 && DataLength(p.status) == 1 + p.have && (p.have == 1 ==> IsData(p.d0))
            && q == p.(have := 0, status := if p.status >= 0xF0 then 0 else p.status) && q.Inv()
  {
    StepInv(p, b);
  }

  /** A short message that a splitter outside a SysEx reads in one piece. */
  lemma SplitShort(d: Splitter, pl: seq<byte>, drop: bool)
    requires !d.inSysex && 2 <= |pl| <= 3 && 0x80 <= pl[0] && DataLength(pl[0]) == |pl| - 1
    requires forall i :: 1 <= i < |pl| ==> IsData(pl[i])
    ensures Split(d, pl, drop) == [pl] && !Finish(d, pl, drop).inSysex
  {
    hide Split, Finish;
    UnrollSplit(d, pl, drop);
    assert pl == if |pl| == 3 then [pl[0]] + [pl[1]] + [pl[2]] else [pl[0]] + [pl[1]];
  }

  lemma DataOutside(p: Parser, c: Splitter, d: Splitter, b: byte, drop: bool)
    requires Outside(p, c, d) && IsData(b) && Step(p, b).out.Some?
    ensures var pl, f := Payload(Step(p, b).out.value), Feed(c, b, drop);
            f.msgs == Split(d, pl, drop) && Outside(Step(p, b).next, f.next, Finish(d, pl, drop))
  {
    hide Step, Payload, DataLength, Split, Finish;
    MessageEmits(p, b);
    SplitShort(d, Payload(Step(p, b).out.value), drop);
  }

  /** Bytes outside a SysEx that the parser swallows or answers with a packet of their own. */
  lemma OtherOutside(p: Parser, c: Splitter, d: Splitter, b: byte, drop: bool)
    requires Outside(p, c, d) && (IsData(b) ==> Step(p, b).out.None?) && b != SYSEX_START
    ensures var r, f := Step(p, b), Feed(c, b, drop);
            && (r.out.None? ==> f.msgs == [] && Outside(r.next, f.next, d))
            && (r.out.Some? ==> Payload(r.out.value) == [b] && f.msgs == Feed(d, b, drop).msgs
                                && Outside(r.next, f.next, Feed(d, b, drop).next))
  {
    StepInv(p, b);
  }

  lemma OutsideStep(p: Parser, c: Splitter, d: Splitter, b: byte, drop: bool)
    requires Outside(p, c, d) && b != SYSEX_START
    ensures var pl, f := Decode(List(Step(p, b).out)), Feed(c, b, drop);
            f.msgs == Split(d, pl, drop) && Outside(Step(p, b).next, f.next, Finish(d, pl, drop))
  {
    hide Step, Feed, Payload, Decode;
    DecodeList(Step(p, b).out);
    if IsData(b) && Step(p, b).out.Some? {
      DataOutside(p, c, d, b, drop);
    } else {
      OtherOutside(p, c, d, b, drop);
      if Step(p, b).out.Some? {
        UnrollSplit(d, [b], drop);
      }
    }
  }

  lemma StartStep(p: Parser, c: Splitter, d: Splitter, drop: bool)
    requires Outside(p, c, d)
    ensures var r, f := Step(p, SYSEX_START), Feed(c, SYSEX_START, drop);
            && r.out.None? && f.msgs == [] && f.next.sysex == [SYSEX_START]
            && Inside(r.next, f.next, d) && Reads(r.next, Chunk(1)) && r.next.sx0 == SYSEX_START
  {
    StepInv(p, SYSEX_START);
    var t := [SYSEX_START];
    assert t[1..] == [];
    assert CutAll(Cut(false), t) == CutAll(Chunk(1), []);
  }

  // ---- Steps inside ----------------------------------------------------------------------

  /** What the parser holds back are no real-time bytes and no F7. */
  lemma SincePlain(p: Parser, q: Cutting)
    requires Reads(p, q)
    ensures forall i :: 0 <= i < |Since(p, q)| ==> Since(p, q)[i] < SYSEX_END
    ensures |Since(p, q)| > 0 && Since(p, q)[0] == SYSEX_START ==> q.Chunk?
  {
  }

  lemma RealtimeStep(p: Parser, d: Splitter, b: byte, drop: bool)
    requires p.sxn <= 2 && IsRealtime(b)
    ensures Step(p, b).next == p
    ensures var pl := Decode(List(Step(p, b).out));
            Split(d, pl, drop) == (if drop then [] else [[b]]) && Finish(d, pl, drop) == d
  {
    DecodeList(Step(p, b).out);
    assert Payload(Step(p, b).out.value) == [b];
    hide Step, Decode;
    UnrollSplit(d, [b], drop);
  }

  lemma InsideStep(p: Parser, c: Splitter, d: Splitter, b: byte, drop: bool)
    requires Inside(p, c, d) && b < 0xF8 && CutAll(Cut(false), c.sysex + [b]) != Torn
    ensures var pl, f := Decode(List(Step(p, b).out)), Feed(c, b, drop);
            && f.msgs == Split(d, pl, drop)
            && if b == SYSEX_END then Outside(Step(p, b).next, f.next, Finish(d, pl, drop))
               else Inside(Step(p, b).next, f.next, Finish(d, pl, drop))
  {
    hide Step, Feed, CutAll, CutStep, Since, Split, Finish, Decode, Payload;
    var r, q := Step(p, b), CutAll(Cut(false), c.sysex);
    var whole := if d.inSysex then d.sysex else [];
    CutSnoc(Cut(false), c.sysex, b);
    ReadsStep(p, q, b);
    SincePlain(p, q);
    FeedOpen(c, b, drop);
    DecodeList(r.out);
    assert whole + (Since(p, q) + [b]) == c.sysex + [b];
    EndStep(p, q, b);
    if r.out.None? {
      SplitNothing(d, drop);
    } else {
      var pl := Payload(r.out.value);
      SinceCut(p, q);
      SinceCut(r.next, CutStep(q, b));
      StartIsHeld(p, q, b);
      SplitSysex(d, pl, drop);
      assert c.sysex + [b] + [] == c.sysex + [b];
    }
  }

  lemma SplitNothing(d: Splitter, drop: bool)
    ensures Split(d, [], drop) == [] && Finish(d, [], drop) == d
  {
  }

  /** F7 is never swallowed and leaves the parser without a message. */
  lemma EndStep(p: Parser, q: Cutting, b: byte)
    requires Reads(p, q)
    ensures b == SYSEX_END ==>
              var r := Step(p, b);
              r.out.Some? && r.next.Inv() && !r.next.inSysex && r.next.status == 0
  {
    StepInv(p, b);
  }

  lemma StartIsHeld(p: Parser, q: Cutting, b: byte)
    requires Reads(p, q) && Step(p, b).out.Some?
    ensures q.Chunk? ==> |Since(p, q)| > 0
  {
  }

  // ---- A torn message --------------------------------------------------------------------

  /** Once the SysEx c is reading is torn, the splitter finds a message that is not whole. */
  lemma {:induction false} TornMessage(c: Splitter, s: seq<byte>, drop: bool) returns (m: Message)
    requires c.inSysex && CutAll(Cut(false), c.sysex) == Torn && SYSEX_END in s
    ensures m in Split(c, s, drop) && !Whole(m)
    decreases |s|
  {
    hide CutAll, Split, Finish;
    var b := s[0];
    SplitFirst(c, s, drop);
    CutSnoc(Cut(false), c.sysex, b);
    if b == SYSEX_END {
      m := c.sysex + [b];
      assert Feed(c, b, drop).msgs[0] == m;
    } else {
      assert s == [b] + s[1..];
      m := TornMessage(Feed(c, b, drop).next, s[1..], drop);
    }
  }

  // ---- The unfinished tail ---------------------------------------------------------------

  ghost predicate Tail(p: Parser, c: Splitter, d: Splitter, o: Opening) {
    && p.Inv() && c.inSysex
    && match o {
         case Holding(k) => Reads(p, Chunk(k)) && p.sx0 == SYSEX_START && !d.inSysex
         case Awaiting(n) => Reads(p, Short(n)) && !d.inSysex
         case Sent => d.inSysex
         case Heard => false
       }
  }

  lemma PayloadPlain(p: Parser, b: byte)
    requires p.Inv() && b < SYSEX_END && Step(p, b).out.Some?
    ensures var pl := Payload(Step(p, b).out.value);
            |pl| > 0 && forall i :: 0 <= i < |pl| ==> pl[i] < SYSEX_END
  {
  }

  /** What the parser emits before the first packet of the SysEx is out. */
  lemma TailEmits(p: Parser, o: Opening, b: byte)
    requires p.Inv() && b < SYSEX_END
    requires match o case Holding(k) => Reads(p, Chunk(k)) && p.sx0 == SYSEX_START case Awaiting(n) => Reads(p, Short(n)) case _ => false
    ensures var r, o' := Step(p, b), OpenStep(o, b);
            && r.next.Inv()
            && match o' {
                 case Holding(k) => r.out.None? && Reads(r.next, Chunk(k)) && r.next.sx0 == SYSEX_START
                 case Awaiting(n) => r.out.None? && Reads(r.next, Short(n))
                 case Sent => r.out.Some? && |Payload(r.out.value)| == 3 && Payload(r.out.value)[0] == SYSEX_START
                 case Heard => r.out.Some? && var pl := Payload(r.out.value);
                               if IsData(b) then !p.inSysex else pl == [b] && 0xF4 <= b
               }
  {
    StepInv(p, b);
  }

  lemma TailStep(p: Parser, c: Splitter, d: Splitter, o: Opening, b: byte, drop: bool)
    requires Tail(p, c, d, o) && b < SYSEX_END
    ensures var r, o' := Step(p, b), OpenStep(o, b);
            var sent := Split(d, Decode(List(r.out)), drop);
            && r.next.Inv()
            && if o' == Heard then |sent| > 0
               else sent == [] && Tail(r.next, c.(sysex := c.sysex + [b]), Finish(d, Decode(List(r.out)), drop), o')
  {
    hide Step, Split, Finish, Decode, Payload, Reads;
    var r := Step(p, b);
    DecodeList(r.out);
    SplitNothing(d, drop);
    StepInv(p, b);
    if r.out.Some? {
      PayloadPlain(p, b);
    }
    if o == Sent {
      if r.out.Some? {
        SplitOpen(d, Payload(r.out.value), drop);
      }
    } else {
      TailEmits(p, o, b);
      if OpenStep(o, b) == Sent {
        SplitSysex(d, Payload(r.out.value), drop);
      } else if OpenStep(o, b) == Heard {
        if IsData(b) {
          MessageEmits(p, b);
          SplitShort(d, Payload(r.out.value), drop);
        } else {
          UnrollSplit(d, [b], drop);
        }
      }
    }
  }

  /** In a SysEx without end the splitter finds only real-time messages, which the packets carry too. */
  lemma {:induction false} TailAtLeast(p: Parser, c: Splitter, d: Splitter, s: seq<byte>, drop: bool)
    requires p.Inv() && c.inSysex && SYSEX_END !in s
    ensures |Split(d, Decode(Out(p, s)), drop)| >= |Split(c, s, drop)|
    ensures Finish(c, s, drop).inSysex
    ensures OpenAll(Holding(1), c.sysex) == Heard ==> OpenAll(Holding(1), Finish(c, s, drop).sysex) == Heard
    decreases |s|
  {
    hide Step, Split, Finish, Decode;
    if s == [] {
      SplitNothing(c, drop);
    } else {
      var r, c' := Step(p, s[0]), Feed(c, s[0], drop).next;
      var pl := Decode(List(r.out));
      SplitFirst(c, s, drop);
      StepInv(p, s[0]);
      OpenSnoc(Holding(1), c.sysex, s[0]);
      if IsRealtime(s[0]) {
        RealtimeStep(p, d, s[0], drop);
      }
      TailAtLeast(r.next, c', Finish(d, pl, drop), s[1..], drop);
      DecodeConcat(List(r.out), Out(r.next, s[1..]));
      SplitConcat(d, pl, Decode(Out(r.next, s[1..])), drop);
    }
  }

  lemma {:induction false} TailOutcome(p: Parser, c: Splitter, d: Splitter, s: seq<byte>, drop: bool)
    requires Tail(p, c, d, OpenAll(Holding(1), c.sysex)) && SYSEX_END !in s
    ensures Outcome(p, c, d, s, drop)
    decreases |s|
  {
    hide Step, Split, Finish, Decode, OpenStep;
    if s == [] {
      SplitNothing(c, drop);
      SplitNothing(d, drop);
      NothingDecoded(p);
    } else {
      var b, o := s[0], OpenAll(Holding(1), c.sysex);
      var r, f := Step(p, b), Feed(c, b, drop);
      var pl := Decode(List(r.out));
      OutcomeFirst(p, c, d, s, drop);
      if IsRealtime(b) {
        RealtimeStep(p, d, b, drop);
        TailOutcome(r.next, f.next, Finish(d, pl, drop), s[1..], drop);
      } else {
        TailStep(p, c, d, o, b, drop);
        FeedOpen(c, b, drop);
        OpenSnoc(Holding(1), c.sysex, b);
        if OpenStep(o, b) == Heard {
          TailAtLeast(r.next, f.next, Finish(d, pl, drop), s[1..], drop);
          SplitFirst(c, s, drop);
          DecodeConcat(List(r.out), Out(r.next, s[1..]));
          SplitConcat(d, pl, Decode(Out(r.next, s[1..])), drop);
        } else {
          TailOutcome(r.next, f.next, Finish(d, pl, drop), s[1..], drop);
        }
      }
    }
  }

  // ---- Agreement, exactly ----------------------------------------------------------------

  lemma {:induction false} Simulates(p: Parser, c: Splitter, d: Splitter, s: seq<byte>, drop: bool)
    requires Outside(p, c, d) || (Inside(p, c, d) && SYSEX_END in s)
    requires forall m :: m in Split(c, s, drop) ==> Whole(m)
    ensures Outcome(p, c, d, s, drop)
    decreases |s|
  {
    hide Step, Feed, Split, Finish, Decode, CutAll, CutStep, Reads, Since, Muted;
    if s == [] {
      SplitNothing(c, drop);
      SplitNothing(d, drop);
      NothingDecoded(p);
    } else {
      var b := s[0];
      RelatedInv(p, c, d);
      var r, f, pl := Step(p, b), Feed(c, b, drop), Decode(List(Step(p, b).out));
      assert s == [b] + s[1..];
      SplitFirst(c, s, drop);
      OutcomeFirst(p, c, d, s, drop);
      if IsRealtime(b) && c.inSysex {
        RealtimeInside(p, c, d, b, drop);
        Simulates(r.next, f.next, Finish(d, pl, drop), s[1..], drop);
      } else if c.inSysex {
        NextIsWhole(c, s, drop);
        InsideStep(p, c, d, b, drop);
        Simulates(r.next, f.next, Finish(d, pl, drop), s[1..], drop);
      } else if b != SYSEX_START {
        OutsideStep(p, c, d, b, drop);
        Simulates(r.next, f.next, Finish(d, pl, drop), s[1..], drop);
      } else {
        StartStep(p, c, d, drop);
        DecodeList(r.out);
        SplitNothing(d, drop);
        if SYSEX_END in s[1..] {
          Simulates(r.next, f.next, d, s[1..], drop);
        } else {
          OpeningHolds();
          TailOutcome(r.next, f.next, d, s[1..], drop);
        }
      }
    }
  }

  lemma OpeningHolds()
    ensures OpenAll(Holding(1), [SYSEX_START]) == Holding(1)
  {
    OpenSnoc(Holding(1), [], SYSEX_START);
    assert [] + [SYSEX_START] == [SYSEX_START];
  }

  lemma RealtimeInside(p: Parser, c: Splitter, d: Splitter, b: byte, drop: bool)
    requires Inside(p, c, d) && IsRealtime(b)
    ensures var pl, f := Decode(List(Step(p, b).out)), Feed(c, b, drop);
            f.msgs == Split(d, pl, drop) && f.next == c && Step(p, b).next == p && Finish(d, pl, drop) == d
  {
    RelatedInv(p, c, d);
    hide Inside, Step;
    RealtimeStep(p, d, b, drop);
  }

  lemma RelatedInv(p: Parser, c: Splitter, d: Splitter)
    requires Outside(p, c, d) || Inside(p, c, d)
    ensures p.Inv()
  {
    hide CutAll;
  }

  /** If the SysEx being read ends as a whole message, its next byte does not tear it. */
  lemma NextIsWhole(c: Splitter, s: seq<byte>, drop: bool)
    requires c.inSysex && s != [] && s[0] < 0xF8 && SYSEX_END in s
    requires forall m :: m in Split(c, s, drop) ==> Whole(m)
    ensures CutAll(Cut(false), c.sysex + [s[0]]) != Torn
  {
    hide CutAll, Split, Finish, Feed;
    var m := c.sysex + [s[0]];
    assert s == [s[0]] + s[1..];
    SplitFirst(c, s, drop);
    FeedOpen(c, s[0], drop);
    if s[0] == SYSEX_END {
      assert Feed(c, s[0], drop).msgs[0] == m;
      assert m in Split(c, s, drop);
    } else if CutAll(Cut(false), m) == Torn {
      var torn := TornMessage(Feed(c, s[0], drop).next, s[1..], drop);
      assert torn in Split(c, s, drop);
    }
  }

  /** What a splitter at a cut has when all it was given are packets: a whole beginning. */
  ghost predicate AtCut(d: Splitter, open: bool) {
    && (open ==> d.inSysex)
    && (d.inSysex ==> CutAll(Cut(false), d.sysex) == Cut(open))
  }

  lemma PacketWhole(d: Splitter, e: Event, open: bool, drop: bool)
    requires AtCut(d, open) && WellFormed(e) && (IsData(e.b0) ==> open)
    ensures AtCut(Finish(d, Payload(e), drop), Opens(e, open))
    ensures forall m :: m in Split(d, Payload(e), drop) ==> Whole(m)
  {
    hide CutAll, CutStep, Split, Finish, Payload, WellFormed, Feed, DataLength, CinLen;
    var pl := Payload(e);
    EventShape(e);
    PayloadCut(e, open);
    if d.inSysex && e.cin != 0xF {
      CutConcat(Cut(false), d.sysex, pl);
      SplitOpen(d, pl, drop);
    } else if pl[0] == SYSEX_START && e.cin != 0xF {
      SplitSysex(d, pl, drop);
      assert [] + pl == pl;
    } else if |pl| == 1 {
      PayloadCut(e, false);
      SingleFed(d, e.b0, drop);
      assert pl == [e.b0];
    } else {
      PayloadCut(e, false);
      SplitShort(d, pl, drop);
    }
  }

  lemma SingleFed(d: Splitter, b: byte, drop: bool)
    requires IsRealtime(b) || (!d.inSysex && 0xF4 <= b)
    ensures forall m :: m in Split(d, [b], drop) ==> m == [b]
    ensures Finish(d, [b], drop).inSysex == d.inSysex && Finish(d, [b], drop).sysex == d.sysex
  {
    hide Split, Finish;
    UnrollSplit(d, [b], drop);
  }

  lemma EventShape(e: Event)
    requires WellFormed(e)
    ensures var pl := Payload(e);
            && 1 <= |pl| <= 3 && pl[0] == e.b0
            && (e.cin == 0xF <==> IsRealtime(e.b0)) && (e.cin == 0xF ==> |pl| == 1)
            && (e.cin != 0xF ==> forall i :: 0 <= i < |pl| ==> pl[i] < 0xF8 && (pl[i] == SYSEX_END ==> i == |pl| - 1))
            && (e.b0 == SYSEX_START ==> |pl| > 1) && (e.cin == 0x4 ==> |pl| == 3 && pl[2] != SYSEX_END)
            && (e.cin == 0x5 <==> |pl| == 1 && e.cin != 0xF) && (e.cin == 0x5 ==> 0xF4 <= e.b0 <= 0xF7)
            && (0x80 <= e.b0 && e.b0 != SYSEX_START && |pl| > 1 ==>
                  DataLength(e.b0) == |pl| - 1 && e.cin != 0x4 && forall i :: 1 <= i < |pl| ==> IsData(pl[i]))
  {
  }

  /** Every message the splitter finds in packets is whole. */
  lemma {:induction false} PacketsWhole(d: Splitter, es: seq<Event>, open: bool, drop: bool)
    requires AtCut(d, open) && WellFramed(es, open)
    ensures forall m :: m in Split(d, Decode(es), drop) ==> Whole(m)
    decreases |es|
  {
    hide WellFormed, Payload, Split, Finish, AtCut, Whole;
    if es == [] {
      SplitNothing(d, drop);
    } else {
      PacketWhole(d, es[0], open, drop);
      PacketsWhole(Finish(d, Payload(es[0]), drop), es[1..], Opens(es[0], open), drop);
      SplitConcat(d, Payload(es[0]), Decode(es[1..]), drop);
    }
  }

  /** On every byte string, with real-time bytes kept or dropped, the splitter finds the same messages in
      the raw stream and in the firmware's packets if and only if every message of the raw stream
      is whole and no message comes out of a SysEx left open at its end. */
  lemma AgreesExactly(p: Parser, s: seq<byte>, drop: bool)
    requires p.Inv() && !p.inSysex && p.status == 0
    ensures Split(START, Decode(Out(p, s)), drop) == Split(START, s, drop)
       <==> (forall m :: m in Split(START, s, drop) ==> Whole(m))
            && (Finish(START, s, drop).inSysex ==> Muted(Finish(START, s, drop).sysex))
  {
    hide Step, Feed, Split, Finish, Decode, Out, Whole, Muted, WellFramed;
    OutputWellFramed(p, s, false);
    PacketsWhole(START, Out(p, s), false, drop);
    if forall m :: m in Split(START, s, drop) ==> Whole(m) {
      Simulates(p, START, START, s, drop);
    }
  }

  /** In particular with F7 at the end, when no SysEx is left open. */
  lemma ClosedAgreesExactly(p: Parser, s: seq<byte>, drop: bool)
    requires p.Inv() && !p.inSysex && p.status == 0
    ensures var t := s + [SYSEX_END];
            (Split(START, Decode(Out(p, t)), drop) == Split(START, t, drop))
            <==> forall m :: m in Split(START, t, drop) ==> Whole(m)
  {
    hide Step, Split, Decode, Out, Whole, Muted;
    AgreesExactly(p, s + [SYSEX_END], drop);
    SplitConcat(START, s, [SYSEX_END], drop);
    SplitFirst(Finish(START, s, drop), [SYSEX_END], drop);
  }
}
