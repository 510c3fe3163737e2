/** Which packet sequences the parser can produce, and why printing and parsing are inverse on
    exactly those. */
module PacketStream {
  import opened Bytes
  import opened MidiParser

  /** Table 4-1 of the USB MIDI 1.0 class definition: the code index number agrees with the first byte and
      the bytes beyond the payload are zero. */
  predicate WellFormed(e: Event) {
    var lead := e.b0 == SYSEX_START || IsData(e.b0);
    match e.cin
    case 0x2 => (e.b0 == 0xF1 || e.b0 == 0xF3) && IsData(e.b1) && e.b2 == 0
    case 0x3 => e.b0 == 0xF2 && IsData(e.b1) && IsData(e.b2)
    case 0x4 => lead && IsData(e.b1) && IsData(e.b2)
    case 0x5 => 0xF4 <= e.b0 <= 0xF7 && e.b1 == 0 && e.b2 == 0
    case 0x6 => lead && e.b1 == SYSEX_END && e.b2 == 0
    case 0x7 => lead && IsData(e.b1) && e.b2 == SYSEX_END
    case 0xC => 0xC0 <= e.b0 < 0xD0 && IsData(e.b1) && e.b2 == 0
    case 0xD => 0xD0 <= e.b0 < 0xE0 && IsData(e.b1) && e.b2 == 0
    case 0xF => IsRealtime(e.b0) && e.b1 == 0 && e.b2 == 0
    case _ => e.cin in {0x8, 0x9, 0xA, 0xB, 0xE} && e.b0 / 16 == e.cin && IsData(e.b1) && IsData(e.b2)
  }

  /** Whether a SysEx message is open after an event: real-time events leave it alone. */
  predicate Opens(e: Event, open: bool) {
    e.cin == 0x04 || (e.cin == 0x0F && open)
  }

  /** Every event is well formed and one that starts with a data byte continues an open SysEx. */
  predicate WellFramed(es: seq<Event>, open: bool) {
    es == [] || (WellFormed(es[0]) && (IsData(es[0].b0) ==> open) && WellFramed(es[1..], Opens(es[0], open)))
  }

  /** A parser state in which no message is half read; open says that a SysEx is running. */
  ghost predicate Boundary(q: Parser, open: bool) {
    && q.Inv() && q.sxn == 0
    && (open ==> q.inSysex)
  }

  lemma StepWellFormed(p: Parser, b: byte, open: bool)
    requires p.Inv() && (p.Continuing() ==> open)
    ensures var r := Step(p, b);
            && r.next.Inv()
            && (r.out.None? ==> (r.next.Continuing() ==> open))
            && (r.out.Some? ==> WellFormed(r.out.value) && (IsData(r.out.value.b0) ==> open)
                                && (r.next.Continuing() ==> Opens(r.out.value, open)))
  {
    StepInv(p, b);
  }

  /** Whatever the bytes, the packets are well framed. */
  lemma {:induction false} OutputWellFramed(p: Parser, s: seq<byte>, open: bool)
    requires p.Inv() && (p.Continuing() ==> open)
    ensures WellFramed(Out(p, s), open)
    decreases |s|
  {
    hide Step, WellFormed;
    if s == [] {
    } else {
      var r := Step(p, s[0]);
      StepWellFormed(p, s[0], open);
      if r.out.None? {
        OutputWellFramed(r.next, s[1..], open);
        assert Out(p, s) == Out(r.next, s[1..]);
      } else {
        OutputWellFramed(r.next, s[1..], Opens(r.out.value, open));
        assert Out(p, s)[0] == r.out.value && Out(p, s)[1..] == Out(r.next, s[1..]);
      }
    }
  }

  lemma Unroll(q: Parser, s: seq<byte>)
    requires q.sxn <= 2 && 1 <= |s| <= 3
    ensures var r1 := Step(q, s[0]);
            if |s| == 1 then Out(q, s) == List(r1.out) && After(q, s) == r1.next else
            var r2 := Step(r1.next, s[1]);
            if |s| == 2 then Out(q, s) == List(r1.out) + List(r2.out) && After(q, s) == r2.next else
            var r3 := Step(r2.next, s[2]);
            Out(q, s) == List(r1.out) + List(r2.out) + List(r3.out) && After(q, s) == r3.next
  {
    hide Step;
    Snoc(q, s[..|s| - 1], s[|s| - 1]);
    assert s == s[..|s| - 1] + [s[|s| - 1]];
    if |s| == 3 {
      Snoc(q, s[..1], s[1]);
      assert s[..2] == s[..1] + [s[1]];
    }
  }

  /** What one event does to a parser at a boundary, byte by byte. */
  ghost predicate Reproduces(q: Parser, e: Event, open: bool)
    requires q.sxn <= 2
  {
    var r1, r2 := Step(q, e.b0), Step(Step(q, e.b0).next, e.b1);
    var r3 := Step(r2.next, e.b2);
    match CinLen(e.cin)
    case 1 => r1.out == Some(e) && Boundary(r1.next, Opens(e, open))
    case 2 => r1.out.None? && r2.out == Some(e) && Boundary(r2.next, Opens(e, open))
    case 3 => r1.out.None? && r2.out.None? && r3.out == Some(e) && Boundary(r3.next, Opens(e, open))
    case _ => false
  }

  lemma SysexReproduced(q: Parser, e: Event, open: bool)
    requires Boundary(q, open) && WellFormed(e) && (IsData(e.b0) ==> open)
    requires e.cin == 0x4 || e.cin == 0x6 || e.cin == 0x7
    ensures Reproduces(q, e, open)
  {
  }

  lemma MessageReproduced(q: Parser, e: Event, open: bool)
    requires Boundary(q, open) && WellFormed(e)
    requires e.cin != 0x4 && e.cin != 0x6 && e.cin != 0x7
    ensures Reproduces(q, e, open)
  {
  }

  /** Feeding the payload of one well-formed event to a parser at a boundary gives that event back. */
  lemma EventReproduced(q: Parser, e: Event, open: bool)
    requires Boundary(q, open) && WellFormed(e) && (IsData(e.b0) ==> open)
    ensures Out(q, Payload(e)) == [e] && Boundary(After(q, Payload(e)), Opens(e, open))
  {
    hide Step, WellFormed;
    if e.cin == 0x4 || e.cin == 0x6 || e.cin == 0x7 {
      SysexReproduced(q, e, open);
    } else {
      MessageReproduced(q, e, open);
    }
    Unroll(q, Payload(e));
  }

  /** Every well-framed packet sequence survives printing and parsing. */
  lemma {:induction false} WellFramedReproduced(q: Parser, es: seq<Event>, open: bool)
    requires Boundary(q, open) && WellFramed(es, open)
    ensures Out(q, Decode(es)) == es
    decreases |es|
  {
    hide Step, WellFormed, Payload;
    if es == [] {
    } else {
      EventReproduced(q, es[0], open);
      WellFramedReproduced(After(q, Payload(es[0])), es[1..], Opens(es[0], open));
      Concat(q, Payload(es[0]), Decode(es[1..]));
    }
  }

  /** Parse, print, parse again: the second parse returns the packets of the first, for every
      byte string and whatever the two parsers have left over from earlier. */
  lemma ParsePrintParse(p: Parser, q: Parser, s: seq<byte>)
    requires p.Inv() && !p.inSysex && q.Inv() && !q.inSysex
    ensures Out(q, Decode(Out(p, s))) == Out(p, s)
  {
    hide Step, WellFormed, Payload;
    OutputWellFramed(p, s, false);
    WellFramedReproduced(q, Out(p, s), false);
  }

  /** The parser's image: the well-framed sequences, all of them and no others. */
  lemma ImageExactly(p: Parser, es: seq<Event>)
    requires p.Inv() && !p.inSysex
    ensures WellFramed(es, false) <==> exists s: seq<byte> :: Out(p, s) == es
  {
    hide Step, WellFormed, Payload;
    if WellFramed(es, false) {
      WellFramedReproduced(p, es, false);
      assert Out(p, Decode(es)) == es;
    }
    if s: seq<byte> :| Out(p, s) == es {
      OutputWellFramed(p, s, false);
    }
  }

  // ---- From start-up ---------------------------------------------------------------------

  /** midi_parser_reset closes any SysEx, drops any running status and any held bytes, whatever memory held. */
  lemma ResetIsFresh(junk: Parser)
    ensures var p := Reset(junk);
            p.Inv() && !p.inSysex && p.status == 0 && p.have == 0 && p.sxn == 0 && p.Held() == []
  {
  }

  /** After start-up only well-framed packets come out: no stray bytes, no continuation of a SysEx that
      was never begun. */
  lemma ResetWellFramed(junk: Parser, s: seq<byte>)
    ensures WellFramed(Out(Reset(junk), s), false)
  {
    hide Reset, Step;
    ResetIsFresh(junk);
    OutputWellFramed(Reset(junk), s, false);
  }

  /** Printing and parsing again, with a parser that has just been started, returns the packets. */
  lemma ResetReproduces(junk: Parser, junk': Parser, s: seq<byte>)
    ensures Out(Reset(junk'), Decode(Out(Reset(junk), s))) == Out(Reset(junk), s)
  {
    hide Reset, Step, Decode, Out;
    ResetIsFresh(junk);
    ResetIsFresh(junk');
    ParsePrintParse(Reset(junk), Reset(junk'), s);
  }

  /** Data bytes before the first status byte are dropped. */
  lemma {:induction false} ResetDropsData(junk: Parser, data: seq<byte>, s: seq<byte>)
    requires forall i :: 0 <= i < |data| ==> IsData(data[i])
    ensures Out(Reset(junk), data + s) == Out(Reset(junk), s)
    decreases |data|
  {
    if data == [] {
      assert data + s == s;
    } else {
      var p := Reset(junk);
      assert Step(p, data[0]).next == p && Step(p, data[0]).out.None?;
      hide Step, Reset;
      ResetDropsData(junk, data[1..], s);
      OutFirst(p, data[0], data[1..] + s);
      assert data + s == [data[0]] + (data[1..] + s);
    }
  }

  lemma {:induction false} WellFramedPrefix(es: seq<Event>, k: nat, open: bool)
    requires WellFramed(es, open) && k <= |es|
    ensures WellFramed(es[..k], open)
    decreases k
  {
    hide WellFormed;
    if k == 0 {
    } else {
      WellFramedPrefix(es[1..], k - 1, Opens(es[0], open));
      assert es[..k][1..] == es[1..][..k - 1];
    }
  }
}
