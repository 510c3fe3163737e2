/** Byte strings that the firmware carries unchanged: those that can be cut into the payloads of
    USB-MIDI packets. */
module WholeMessages {
  import opened Bytes
  import opened MidiParser
  import opened PacketStream
  import opened Canonicalizer

  /** How far a string has been cut: at a cut, with or without a SysEx to be continued; one or two
      bytes into a packet of a SysEx; with data bytes of a short message still to come; or torn,
      when the last byte fits nowhere. */
  datatype Cutting = Cut(open: bool) | Chunk(held: nat) | Short(wanted: nat) | Torn

  function CutStep(q: Cutting, b: byte): Cutting {
    match q
    case Cut(open) =>
      if IsRealtime(b) then q
      else if b == SYSEX_START then Chunk(1)
      else if b >= 0xF4 then Cut(false)
      else if b >= 0x80 then Short(DataLength(b))
      else if open then Chunk(1)
      else Torn
    case Chunk(k) =>
      if b == SYSEX_END then Cut(false)
      else if b >= 0x80 then Torn
      else if k == 2 then Cut(true)
      else Chunk(2)
    case Short(n) =>
      if b >= 0x80 then Torn else if n == 1 then Cut(false) else Short(1)
    case Torn => Torn
  }

  function CutAll(q: Cutting, m: seq<byte>): Cutting
    decreases |m|
  {
    if m == [] then q else CutAll(CutStep(q, m[0]), m[1..])
  }

  /** The string ends at a cut. */
  predicate Whole(m: seq<byte>) {
    CutAll(Cut(false), m).Cut?
  }

  lemma {:induction false} CutConcat(q: Cutting, a: seq<byte>, b: seq<byte>)
    ensures CutAll(q, a + b) == CutAll(CutAll(q, a), b)
    decreases |a|
  {
    hide CutStep;
    if a == [] {
      assert a + b == b;
    } else {
      CutConcat(CutStep(q, a[0]), a[1..], b);
      assert (a + b)[1..] == a[1..] + b;
    }
  }

  lemma CutSnoc(q: Cutting, m: seq<byte>, b: byte)
    ensures CutAll(q, m + [b]) == CutStep(CutAll(q, m), b)
  {
    hide CutStep;
    CutConcat(q, m, [b]);
    assert [b][1..] == [];
  }

  lemma {:induction false} TornStays(m: seq<byte>)
    ensures CutAll(Torn, m) == Torn
    decreases |m|
  {
    if m == [] {
    } else {
      TornStays(m[1..]);
    }
  }

  lemma CutThree(q: Cutting, m: seq<byte>)
    requires 1 <= |m| <= 3
    ensures var q1 := CutStep(q, m[0]);
            if |m| == 1 then CutAll(q, m) == q1 else
            var q2 := CutStep(q1, m[1]);
            if |m| == 2 then CutAll(q, m) == q2 else CutAll(q, m) == CutStep(q2, m[2])
  {
    hide CutStep;
    CutSnoc(q, m[..|m| - 1], m[|m| - 1]);
    assert m == m[..|m| - 1] + [m[|m| - 1]];
    if |m| == 3 {
      CutSnoc(q, m[..1], m[1]);
      assert m[..2] == m[..1] + [m[1]];
    }
  }

  // ---- Printed packets are whole ---------------------------------------------------------

  lemma PayloadCut(e: Event, open: bool)
    requires WellFormed(e) && (IsData(e.b0) ==> open)
    ensures CutAll(Cut(open), Payload(e)) == Cut(Opens(e, open))
  {
    CutThree(Cut(open), Payload(e));
    hide CutAll;
  }

  lemma {:induction false} DecodedCut(es: seq<Event>, open: bool)
    requires WellFramed(es, open)
    ensures CutAll(Cut(open), Decode(es)).Cut?
    decreases |es|
  {
    hide WellFormed, Payload, CutAll, CutStep;
    if es == [] {
      CutNothing(Cut(open));
    } else {
      PayloadCut(es[0], open);
      DecodedCut(es[1..], Opens(es[0], open));
      CutConcat(Cut(open), Payload(es[0]), Decode(es[1..]));
    }
  }

  lemma CutNothing(q: Cutting)
    ensures CutAll(q, []) == q
  {
  }

  // ---- Whole strings pass the parser -----------------------------------------------------

  /** The parser has read the bytes that brought the cutting to q. */
  ghost predicate Reads(p: Parser, q: Cutting) {
    && p.Inv()
    && match q {
         case Cut(open) => p.sxn == 0 && p.inSysex == open
         case Chunk(k) => p.inSysex && p.sxn as nat == k && 1 <= k <= 2
         case Short(n) => !p.inSysex && p.status != 0 && p.have as nat + n == p.need as nat && n > 0
         case Torn => false
       }
  }

  /** The bytes since the last cut. */
  function Since(p: Parser, q: Cutting): seq<byte>
    requires p.sxn <= 2
  {
    match q
    case Chunk(_) => p.Held()
    case Short(_) => [p.status] + if p.have == 1 then [p.d0] else []
    case _ => []
  }

  /** As long as nothing is torn, the parser emits at each cut exactly the bytes since the last one. */
  lemma ReadsStep(p: Parser, q: Cutting, b: byte)
    requires Reads(p, q) && CutStep(q, b) != Torn
    ensures var r, q' := Step(p, b), CutStep(q, b);
            && Reads(r.next, q')
            && (r.out.None? ==> Since(r.next, q') == Since(p, q) + [b])
            && (r.out.Some? ==> q'.Cut? && Payload(r.out.value) == Since(p, q) + [b])
  {
    StepInv(p, b);
  }

  lemma {:induction false} WholeDecodes(p: Parser, q: Cutting, m: seq<byte>)
    requires Reads(p, q) && CutAll(q, m).Cut?
    ensures Decode(Out(p, m)) == Since(p, q) + m
    decreases |m|
  {
    hide Step, CutStep, Since, Payload, Decode, Out;
    if m == [] {
      SinceCut(p, q);
      NothingDecoded(p);
    } else {
      var r, q' := Step(p, m[0]), CutStep(q, m[0]);
      TornStays(m[1..]);
      ReadsStep(p, q, m[0]);
      WholeDecodes(r.next, q', m[1..]);
      assert m == [m[0]] + m[1..];
      OutFirst(p, m[0], m[1..]);
      DecodeConcat(List(r.out), Out(r.next, m[1..]));
      DecodeList(r.out);
      SinceCut(r.next, q');
      assert Since(p, q) + [m[0]] + m[1..] == Since(p, q) + m;
    }
  }

  lemma NothingDecoded(p: Parser)
    requires p.sxn <= 2
    ensures Decode(Out(p, [])) == []
  {
  }

  lemma DecodeList(e: Option<Event>)
    ensures Decode(List(e)) == if e.None? then [] else Payload(e.value)
  {
    hide Payload;
    if e.Some? {
      assert Decode(List(e)) == Payload(e.value) + [];
    }
  }

  lemma SinceCut(p: Parser, q: Cutting)
    requires p.sxn <= 2
    ensures q.Cut? ==> Since(p, q) == []
  {
  }

  /** Whole strings are the payloads of well-framed packet sequences, and exactly those the firmware
      carries unchanged. */
  lemma WholeExactly(p: Parser, m: seq<byte>)
    requires p.Inv() && !p.inSysex
    ensures Whole(m) <==> exists es :: WellFramed(es, false) && Decode(es) == m
    ensures Whole(m) <==> Decode(Out(p, m)) == m
  {
    hide Step, CutStep, CutAll, WellFormed, Payload, Decode, Out;
    OutputWellFramed(p, m, false);
    if Whole(m) {
      WholeDecodes(p, Cut(false), m);
      SinceCut(p, Cut(false));
      assert [] + m == m;
    }
    if es :| WellFramed(es, false) && Decode(es) == m {
      DecodedCut(es, false);
    }
  }
}
