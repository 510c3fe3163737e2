/** Streams in which nothing interrupts a SysEx, on which the tests rely, and two that are not. */
module CleanStreams {
  import opened Bytes
  import opened MidiParser
  import opened Canonicalizer
  import opened WholeMessages
  import opened Oracle
  import PacketStream

  /** No status byte from 0x80 to 0xF6 arrives while a System Exclusive message is open. */
  predicate Clean(s: seq<byte>, open: bool) {
    s == [] || (!(open && 0x80 <= s[0] < 0xF7) && Clean(s[1..], s[0] == 0xF0 || (open && s[0] != 0xF7)))
  }

  /** A message with a status byte other than F7 after its first byte. */
  ghost predicate Embedded(m: Message) {
    exists i :: 0 < i < |m| && 0x80 <= m[i] < 0xF7
  }

  ghost predicate Tidy(c: Splitter) {
    && (c.inSysex ==> !Embedded(c.sysex))
    && !Embedded(c.cur)
  }

  lemma {:induction false} CleanIsTidy(c: Splitter, s: seq<byte>, drop: bool)
    requires Tidy(c) && Clean(s, c.inSysex)
    ensures forall m :: m in Split(c, s, drop) ==> !Embedded(m)
    decreases |s|
  {
    if s == [] {
    } else {
      CleanIsTidy(Feed(c, s[0], drop).next, s[1..], drop);
    }
  }

  /** Once a status byte has interrupted an open SysEx, its closing F7 brings out a broken message. */
  lemma {:induction false} InterruptedIsEmbedded(c: Splitter, s: seq<byte>, drop: bool) returns (m: Message)
    requires (c.inSysex && |c.sysex| > 0 && Embedded(c.sysex)) || (!Clean(s, c.inSysex) && (c.inSysex ==> |c.sysex| > 0))
    ensures m in Split(c, s + [SYSEX_END], drop) && Embedded(m)
    decreases |s|
  {
    if s == [] {
      m := c.sysex + [SYSEX_END];
      assert Split(c, [SYSEX_END], drop) == [m];
      assert s + [SYSEX_END] == [SYSEX_END];
      var i :| 0 < i < |c.sysex| && 0x80 <= c.sysex[i] < 0xF7;
      assert m[i] == c.sysex[i];
    } else {
      var f := Feed(c, s[0], drop);
      var t := s + [SYSEX_END];
      assert t[0] == s[0] && t[1..] == s[1..] + [SYSEX_END];
      assert Split(c, t, drop) == f.msgs + Split(f.next, t[1..], drop);
      if c.inSysex && s[0] == SYSEX_END && Embedded(c.sysex) {
        m := c.sysex + [SYSEX_END];
        var i :| 0 < i < |c.sysex| && 0x80 <= c.sysex[i] < 0xF7;
        assert m[i] == c.sysex[i] && f.msgs[0] == m;
      } else {
        if c.inSysex && s[0] != SYSEX_END && s[0] < 0xF8 {
          assert f.next.sysex == c.sysex + [s[0]];
          if Embedded(c.sysex) {
            var i :| 0 < i < |c.sysex| && 0x80 <= c.sysex[i] < 0xF7;
            assert f.next.sysex[i] == c.sysex[i];
          } else if s[0] >= 0x80 {
            assert f.next.sysex[|c.sysex|] == s[0];
          }
        }
        m := InterruptedIsEmbedded(f.next, s[1..], drop);
      }
    }
  }

  lemma {:induction false} CleanExtends(s: seq<byte>, open: bool)
    ensures Clean(s + [SYSEX_END], open) <==> Clean(s, open)
    decreases |s|
  {
    hide Feed;
    if s == [] {
      assert s + [SYSEX_END] == [SYSEX_END];
    } else {
      CleanExtends(s[1..], s[0] == 0xF0 || (open && s[0] != 0xF7));
      assert (s + [SYSEX_END])[1..] == s[1..] + [SYSEX_END];
    }
  }

  // ---- Agreement on clean streams --------------------------------------------------------

  /** What the splitter is reading can still become whole, and a SysEx it is in is muted. */
  ghost predicate Beginnings(c: Splitter) {
    var q, o, r := CutAll(Cut(false), c.sysex), OpenAll(Holding(1), c.sysex), CutAll(Cut(false), c.cur);
    && (c.inSysex ==> (q == Cut(true) && o == Sent) || (q == Chunk(1) && (o == Holding(1) || o == Sent))
                      || (q == Chunk(2) && (o == Holding(2) || o == Sent)))
    && (c.status != 0 ==> c.status >= 0x80 && 1 <= |c.cur| <= DataLength(c.status)
                          && r == Short(1 + DataLength(c.status) - |c.cur|))
  }

  lemma BeginningStep(c: Splitter, b: byte, drop: bool)
    requires Beginnings(c) && !(c.inSysex && 0x80 <= b < 0xF7)
    ensures Beginnings(Feed(c, b, drop).next)
    ensures forall m :: m in Feed(c, b, drop).msgs ==> Whole(m)
  {
    hide CutAll, OpenAll;
    CutSnoc(Cut(false), c.sysex, b);
    CutSnoc(Cut(false), c.cur, b);
    CutSnoc(Cut(false), [], b);
    CutSnoc(Cut(false), [], c.status);
    CutNothing(Cut(false));
    OpenSnoc(Holding(1), c.sysex, b);
    OpeningHolds();
    assert [] + [b] == [b] && [] + [c.status] == [c.status];
  }

  lemma {:induction false} CleanIsWhole(c: Splitter, s: seq<byte>, drop: bool)
    requires Beginnings(c) && Clean(s, c.inSysex)
    ensures forall m :: m in Split(c, s, drop) ==> Whole(m)
    ensures Beginnings(Finish(c, s, drop))
    decreases |s|
  {
    hide Beginnings, Whole, Split, Finish;
    if s == [] {
      SplitNothing(c, drop);
    } else {
      BeginningStep(c, s[0], drop);
      OpenAfterFeed(c, s[0], drop);
      SplitFirst(c, s, drop);
      hide Feed;
      CleanIsWhole(Feed(c, s[0], drop).next, s[1..], drop);
    }
  }

  lemma OpenAfterFeed(c: Splitter, b: byte, drop: bool)
    ensures Feed(c, b, drop).next.inSysex == (b == SYSEX_START || (c.inSysex && b != SYSEX_END))
  {
  }

  /** On clean streams, ended or not, the splitter finds the same messages in the raw bytes and in the
      packets, with real-time bytes kept or dropped alike. */
  lemma OracleAgreement(p: Parser, s: seq<byte>, drop: bool)
    requires p.Inv() && !p.inSysex && p.status == 0 && Clean(s, false)
    ensures Split(START, Decode(Out(p, s)), drop) == Split(START, s, drop)
  {
    CleanIsWhole(START, s, drop);
    AgreesExactly(p, s, drop);
  }

  /** So they do from start-up, whatever memory held. */
  lemma OracleFromReset(junk: Parser, s: seq<byte>, drop: bool)
    requires Clean(s, false)
    ensures Split(START, Decode(Out(Reset(junk), s)), drop) == Split(START, s, drop)
  {
    hide Reset, Step, Feed, Split, Decode, Out, Clean;
    PacketStream.ResetIsFresh(junk);
    OracleAgreement(Reset(junk), s, drop);
  }

  /** The guard of the test streams can be read off the messages: with the last SysEx closed, a stream
      is clean if and only if no message has a status byte inside, and then oracle and firmware agree. */
  lemma AgreesWhenClean(p: Parser, s: seq<byte>, drop: bool)
    requires p.Inv() && !p.inSysex && p.status == 0
    ensures var t := s + [SYSEX_END];
            && (Clean(s, false) <==> forall m :: m in Split(START, t, drop) ==> !Embedded(m))
            && (Clean(s, false) ==> Split(START, Decode(Out(p, t)), drop) == Split(START, t, drop))
  {
    hide Feed, Step, Payload;
    var t := s + [SYSEX_END];
    CleanExtends(s, false);
    if Clean(s, false) {
      OracleAgreement(p, t, drop);
      CleanIsTidy(START, t, drop);
    } else {
      var m := InterruptedIsEmbedded(START, s, drop);
    }
  }

  // ---- Streams that are not clean --------------------------------------------------------

  /** A status byte after F0 and two data bytes. */
  lemma Unclean(s: seq<byte>)
    requires |s| >= 4 && s[0] == SYSEX_START && IsData(s[1]) && IsData(s[2]) && 0x80 <= s[3] < 0xF7
    ensures !Clean(s, false)
  {
    var t, u := s[1..], s[1..][1..];
    assert Clean(s, false) == Clean(t, true) == Clean(u, true) == Clean(u[1..], true);
  }

  /** Interrupted between two packets by a message of full length, a SysEx is not clean but whole: it
      passes through the firmware unchanged. */
  lemma AlignedInterruptionAgrees(p: Parser, d0: byte, d1: byte, d2: byte, d3: byte, drop: bool)
    requires p.Inv() && !p.inSysex && p.status == 0
    requires IsData(d0) && IsData(d1) && IsData(d2) && IsData(d3)
    ensures var s := [0xF0, d0, d1, 0x90, d2, d3, 0xF7];
            !Clean(s, false) && Split(START, Decode(Out(p, s)), drop) == Split(START, s, drop)
  {
    hide Feed, Split;
    var a: seq<byte>, b: seq<byte>, c: seq<byte> := [0xF0, d0, d1], [0x90, d2, d3], [0xF7];
    var s := a + b + c;
    assert s == [0xF0, d0, d1, 0x90, d2, d3, 0xF7];
    Unclean(s);
    var x, y, z := Event(0x4, 0xF0, d0, d1), Event(0x9, 0x90, d2, d3), Event(0x5, 0xF7, 0, 0);
    AlignedPackets(p, d0, d1, d2, d3);
    hide *;
    var q := After(p, a);
    Concat(p, a, b);
    Concat(p, a + b, c);
    DecodeConcat([x], [y]);
    DecodeConcat([x] + [y], [z]);
  }

  lemma AlignedPackets(p: Parser, d0: byte, d1: byte, d2: byte, d3: byte)
    requires p.Inv() && !p.inSysex && p.status == 0
    requires IsData(d0) && IsData(d1) && IsData(d2) && IsData(d3)
    ensures Out(p, [0xF0, d0, d1]) == [Event(0x4, 0xF0, d0, d1)]
    ensures var q := After(p, [0xF0, d0, d1]);
            && Out(q, [0x90, d2, d3]) == [Event(0x9, 0x90, d2, d3)]
            && Out(After(q, [0x90, d2, d3]), [0xF7]) == [Event(0x5, 0xF7, 0, 0)]
    ensures Decode([Event(0x4, 0xF0, d0, d1)]) == [0xF0, d0, d1]
    ensures Decode([Event(0x9, 0x90, d2, d3)]) == [0x90, d2, d3]
    ensures Decode([Event(0x5, 0xF7, 0, 0)]) == [0xF7]
  {
    var q := After(p, [0xF0, d0, d1]);
    var r := After(q, [0x90, d2, d3]);
    SysexChunk(p, d0, d1);
    NoteMessage(q, d2, d3);
    PacketStream.Unroll(r, [0xF7]);
  }

  lemma SysexChunk(p: Parser, d0: byte, d1: byte)
    requires p.Inv() && IsData(d0) && IsData(d1)
    ensures Out(p, [0xF0, d0, d1]) == [Event(0x4, 0xF0, d0, d1)] && After(p, [0xF0, d0, d1]).Inv()
    ensures Decode([Event(0x4, 0xF0, d0, d1)]) == [0xF0, d0, d1]
  {
    AfterInv(p, [0xF0, d0, d1]);
    PacketStream.Unroll(p, [0xF0, d0, d1]);
    hide Out, After;
  }

  lemma NoteMessage(p: Parser, d0: byte, d1: byte)
    requires p.Inv() && IsData(d0) && IsData(d1)
    ensures var r := After(p, [0x90, d0, d1]);
            Out(p, [0x90, d0, d1]) == [Event(0x9, 0x90, d0, d1)] && r.Inv() && !r.inSysex
    ensures Decode([Event(0x9, 0x90, d0, d1)]) == [0x90, d0, d1]
  {
    AfterInv(p, [0x90, d0, d1]);
    PacketStream.Unroll(p, [0x90, d0, d1]);
    hide Out, After;
  }

  /** A SysEx that is not whole: a status byte inside an open SysEx makes the firmware
      drop the message, of which only a stray F7 is left, while the splitter keeps it whole. */
  lemma InterruptionDisagrees(p: Parser, drop: bool)
    requires p.Inv() && !p.inSysex && p.status == 0
    ensures var s := [0xF0, 0x90, 0xF7];
            Split(START, Decode(Out(p, s)), drop) == [] && Split(START, s, drop) == [s]
  {
    var s: seq<byte> := [0xF0, 0x90, 0xF7];
    var end := Event(0x5, 0xF7, 0, 0);
    assert Out(p, s) == [end] by {
      PacketStream.Unroll(p, s);
    }
    hide Step;
    assert Decode([end]) == [0xF7];
    UnrollSplit(START, [0xF7], drop);
    UnrollSplit(START, s, drop);
    assert s == [0xF0] + [0x90] + [0xF7];
  }
}
