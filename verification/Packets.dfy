/** USB-MIDI packets as the endpoint buffers hold them: four bytes each, the cable number in
    the high nibble of the first. */
module Packets {
  import opened Bytes
  import opened MidiParser

  datatype Packet = Packet(cable: nat, event: Event)

  /** The four bytes emit stores; the code index number is below 16, so "or" is a sum. */
  function Pack(cn: nat, e: Event): (r: seq<byte>)
    ensures |r| == 4
  {
    [U8(cn * 16 + e.cin), e.b0, e.b1, e.b2]
  }

  function Packet4(h: byte, b0: byte, b1: byte, b2: byte): Packet {
    Packet(h / 16, Event(h % 16, b0, b1, b2))
  }

  /** The packets of a byte string; up to three trailing bytes are ignored. */
  function Unpack(bs: seq<byte>): (ps: seq<Packet>)
    ensures |ps| == |bs| / 4
  {
    if |bs| < 4 then [] else [Packet4(bs[0], bs[1], bs[2], bs[3])] + Unpack(bs[4..])
  }

  /** The events of one cable, in order. */
  function Cable(ps: seq<Packet>, p: nat): seq<Event> {
    if ps == [] then [] else (if ps[0].cable == p then [ps[0].event] else []) + Cable(ps[1..], p)
  }

  lemma {:induction false} UnpackConcat(a: seq<byte>, b: seq<byte>)
    requires |a| % 4 == 0
    ensures Unpack(a + b) == Unpack(a) + Unpack(b)
    decreases |a|
  {
    hide Packet4, Unpack;
    UnpackFirst(a);
    if a == [] {
      assert a + b == b;
      assert [] + Unpack(b) == Unpack(b);
    } else {
      UnpackConcat(a[4..], b);
      UnpackFirst(a + b);
      assert (a + b)[4..] == a[4..] + b;
    }
  }

  lemma UnpackFirst(bs: seq<byte>)
    ensures Unpack(bs) == if |bs| < 4 then [] else [Packet4(bs[0], bs[1], bs[2], bs[3])] + Unpack(bs[4..])
  {
    hide Packet4;
  }

  lemma {:induction false} CableConcat(a: seq<Packet>, b: seq<Packet>, p: nat)
    ensures Cable(a + b, p) == Cable(a, p) + Cable(b, p)
    decreases |a|
  {
    hide Cable;
    CableFirst(a, p);
    if a == [] {
      assert a + b == b;
      assert [] + Cable(b, p) == Cable(b, p);
    } else {
      CableConcat(a[1..], b, p);
      CableFirst(a + b, p);
      assert (a + b)[1..] == a[1..] + b;
    }
  }

  lemma CableFirst(ps: seq<Packet>, p: nat)
    ensures Cable(ps, p) == if ps == [] then []
                            else (if ps[0].cable == p then [ps[0].event] else []) + Cable(ps[1..], p)
  {
  }

  lemma UnpackPack(cn: nat, e: Event)
    requires cn < 16 && e.cin < 16
    ensures Unpack(Pack(cn, e)) == [Packet(cn, e)]
  {
    assert Pack(cn, e)[4..] == [];
  }

  /** Appending one packet adds its event to its own cable and nothing to any other. */
  lemma AppendPacket(bs: seq<byte>, cn: nat, e: Event, p: nat)
    requires |bs| % 4 == 0 && cn < 16 && e.cin < 16
    ensures Cable(Unpack(bs + Pack(cn, e)), p) == Cable(Unpack(bs), p) + if p == cn then [e] else []
  {
    UnpackConcat(bs, Pack(cn, e));
    UnpackPack(cn, e);
    CableConcat(Unpack(bs), [Packet(cn, e)], p);
  }
}
