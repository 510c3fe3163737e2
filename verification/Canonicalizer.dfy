/** The message splitter of the end-to-end tests. */
module Canonicalizer {
  import opened Bytes

  type Message = seq<byte>

  /** The loop variables of canonicalize. */
  datatype Splitter = Splitter(status: byte, cur: Message, sysex: Message, inSysex: bool)

  const START := Splitter(0, [], [], false)

  datatype Fed = Fed(next: Splitter, msgs: seq<Message>)

  /** _vlen: data bytes that follow a status byte. */
  function DataLength(status: byte): nat {
    var h := status / 16 * 16;
    if h == 0x80 || h == 0x90 || h == 0xA0 || h == 0xB0 || h == 0xE0 then 2
    else if h == 0xC0 || h == 0xD0 then 1
    else if status == 0xF1 || status == 0xF3 then 1
    else if status == 0xF2 then 2
    else 0
  }

  /** One turn of the loop. */
  function Feed(c: Splitter, b: byte, dropRealtime: bool): Fed {
    if b >= 0xF8 then
      Fed(c, if dropRealtime then [] else [[b]])
    else if c.inSysex then
      if b == 0xF7 then Fed(c.(sysex := [], inSysex := false), [c.sysex + [b]])
      else Fed(c.(sysex := c.sysex + [b]), [])
    else if b == 0xF0 then
      Fed(c.(status := 0, inSysex := true, sysex := [0xF0]), [])
    else if b >= 0x80 then
      if b == 0xF7 then Fed(c.(status := 0), [])
      else if DataLength(b) == 0 then Fed(c.(status := 0), [[b]])
      else Fed(c.(status := b, cur := [b]), [])
    else if c.status == 0 then
      Fed(c, [])
    else
      var cur := c.cur + [b];
      if |cur| != 1 + DataLength(c.status) then Fed(c.(cur := cur), [])
      else if c.status >= 0xF0 then Fed(c.(status := 0, cur := []), [cur])
      else Fed(c.(cur := [c.status]), [cur])
  }

  function Finish(c: Splitter, s: seq<byte>, drop: bool): Splitter
    decreases |s|
  {
    if s == [] then c else Finish(Feed(c, s[0], drop).next, s[1..], drop)
  }

  function Split(c: Splitter, s: seq<byte>, drop: bool): seq<Message>
    decreases |s|
  {
    if s == [] then [] else Feed(c, s[0], drop).msgs + Split(Feed(c, s[0], drop).next, s[1..], drop)
  }

  lemma {:induction false} SplitConcat(c: Splitter, a: seq<byte>, b: seq<byte>, drop: bool)
    ensures Finish(c, a + b, drop) == Finish(Finish(c, a, drop), b, drop)
    ensures Split(c, a + b, drop) == Split(c, a, drop) + Split(Finish(c, a, drop), b, drop)
    decreases |a|
  {
    hide Feed;
    if a == [] {
      assert a + b == b;
    } else {
      SplitConcat(Feed(c, a[0], drop).next, a[1..], b, drop);
      assert (a + b)[1..] == a[1..] + b;
    }
  }

  /** canonicalize, as the source writes it. */
  method Canonicalize(data: seq<byte>, dropRealtime: bool) returns (msgs: seq<Message>)
    ensures msgs == Split(START, data, dropRealtime)
  {
    msgs := [];
    var status: byte := 0;
    var cur: Message := [];
    var sysex: Message := [];
    var inSysex := false;
    for i := 0 to |data|
      invariant Splitter(status, cur, sysex, inSysex) == Finish(START, data[..i], dropRealtime)
      invariant msgs == Split(START, data[..i], dropRealtime)
    {
      var b := data[i];
      SplitConcat(START, data[..i], [b], dropRealtime);
      assert data[..i + 1] == data[..i] + [b];
      if b >= 0xF8 {
        if !dropRealtime {
          msgs := msgs + [[b]];
        }
        continue;
      }
      if inSysex {
        sysex := sysex + [b];
        if b == 0xF7 {
          msgs := msgs + [sysex];
          sysex := [];
          inSysex := false;
        }
        continue;
      }
      if b == 0xF0 {
        status := 0;
        inSysex := true;
        sysex := [0xF0];
        continue;
      }
      if b >= 0x80 {
        if b == 0xF7 {
          status := 0;
          continue;
        }
        var need := DataLength(b);
        if need == 0 {
          msgs := msgs + [[b]];
          status := 0;
        } else {
          status := b;
          cur := [b];
        }
        continue;
      }
      if status == 0 {
        continue;
      }
      cur := cur + [b];
      if |cur| == 1 + DataLength(status) {
        msgs := msgs + [cur];
        if status >= 0xF0 {
          status := 0;
          cur := [];
        } else {
          cur := [status];
        }
      }
    }
    assert data[..|data|] == data;
  }

  // ---- Reading packet payloads -----------------------------------------------------------

  lemma UnrollSplit(d: Splitter, s: seq<byte>, drop: bool)
    requires 1 <= |s| <= 3
    ensures var f1 := Feed(d, s[0], drop);
            if |s| == 1 then Split(d, s, drop) == f1.msgs && Finish(d, s, drop) == f1.next else
            var f2 := Feed(f1.next, s[1], drop);
            if |s| == 2 then Split(d, s, drop) == f1.msgs + f2.msgs && Finish(d, s, drop) == f2.next else
            var f3 := Feed(f2.next, s[2], drop);
            Split(d, s, drop) == f1.msgs + f2.msgs + f3.msgs && Finish(d, s, drop) == f3.next
  {
    hide Feed;
    SplitConcat(d, s[..|s| - 1], s[|s| - 1..], drop);
    assert s == s[..|s| - 1] + s[|s| - 1..];
    if |s| == 3 {
      SplitConcat(d, s[..1], [s[1]], drop);
      assert s[..2] == s[..1] + [s[1]];
    }
  }

  lemma FeedOpen(d: Splitter, b: byte, drop: bool)
    requires d.inSysex && b < 0xF8
    ensures Feed(d, b, drop) ==
            if b == SYSEX_END then Fed(d.(sysex := [], inSysex := false), [d.sysex + [b]])
            else Fed(d.(sysex := d.sysex + [b]), [])
  {
  }

  /** Bytes and then perhaps F7, read by a splitter with an open SysEx. */
  lemma {:induction false} SplitOpen(d: Splitter, pl: seq<byte>, drop: bool)
    requires d.inSysex && |pl| > 0
    requires forall i :: 0 <= i < |pl| ==> pl[i] < 0xF8 && (pl[i] == SYSEX_END ==> i == |pl| - 1)
    ensures var ends := pl[|pl| - 1] == SYSEX_END;
            && Split(d, pl, drop) == (if ends then [d.sysex + pl] else [])
            && Finish(d, pl, drop) == if ends then d.(sysex := [], inSysex := false) else d.(sysex := d.sysex + pl)
    decreases |pl|
  {
    hide Feed, Split, Finish;
    FeedOpen(d, pl[0], drop);
    SplitFirst(d, pl, drop);
    if |pl| == 1 {
      assert pl == [pl[0]];
    } else {
      var d' := d.(sysex := d.sysex + [pl[0]]);
      SplitOpen(d', pl[1..], drop);
      assert d'.sysex + pl[1..] == d.sysex + pl;
    }
  }

  lemma SplitFirst(d: Splitter, s: seq<byte>, drop: bool)
    requires s != []
    ensures var f := Feed(d, s[0], drop);
            && Split(d, s, drop) == f.msgs + Split(f.next, s[1..], drop)
            && Finish(d, s, drop) == Finish(f.next, s[1..], drop)
            && (|s| == 1 ==> Split(d, s, drop) == f.msgs && Finish(d, s, drop) == f.next)
  {
    hide Feed;
  }

  /** The same, possibly preceded by the F0 that opens the message. */
  lemma SplitSysex(d: Splitter, pl: seq<byte>, drop: bool)
    requires d.inSysex || (|pl| > 1 && pl[0] == SYSEX_START)
    requires |pl| > 0
    requires forall i :: 0 <= i < |pl| ==> pl[i] < 0xF8 && (pl[i] == SYSEX_END ==> i == |pl| - 1)
    ensures var all := (if d.inSysex then d.sysex else []) + pl;
            if pl[|pl| - 1] == SYSEX_END then
              Split(d, pl, drop) == [all] && !Finish(d, pl, drop).inSysex
            else
              Split(d, pl, drop) == [] && Finish(d, pl, drop).inSysex && Finish(d, pl, drop).sysex == all
  {
    if d.inSysex {
      SplitOpen(d, pl, drop);
    } else {
      var d' := Feed(d, SYSEX_START, drop).next;
      assert d'.sysex + pl[1..] == pl == [] + pl;
      SplitOpen(d', pl[1..], drop);
    }
  }
}
