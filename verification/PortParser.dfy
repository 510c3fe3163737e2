/** midi_parser.c as it is written: the parser fields of one port and the shared ring, both updated
    in place, against the step function and the ring of values. */
module PortParser {
  import opened Bytes
  import opened Rings
  import opened MidiParser
  import opened Packets
  import opened RxPipeline

  /** rx_ring with its two single-byte indices. */
  class RxRing {
    const buf: array<byte>
    var head: byte
    var tail: byte

    ghost predicate Valid() {
      buf.Length == RX_RING_SIZE
    }

    ghost function Value(): (r: Ring)
      requires Valid()
      reads this, buf
      ensures r.Valid()
    {
      Ring(buf[..], head, tail)
    }

    constructor ()
      ensures Valid() && fresh(buf)
    {
      buf := new byte[RX_RING_SIZE];
    }

    /** rx_ring_count. */
    function Count(): (n: nat)
      requires Valid()
      reads this, buf
      ensures n == Value().Count() == |Value().Contents()|
    {
      Mask(U8(head - tail), RX_RING_SIZE)
    }

    method Put(x: byte)
      requires Valid()
      modifies this`head, buf
      ensures Value() == old(Value()).Put(x)
    {
      buf[head] := x;
      head := Mask(head + 1, RX_RING_SIZE);
    }

    /** emit: the caller sees to it that there is room. */
    method Emit(cn: nat, cin: byte, b0: byte, b1: byte, b2: byte)
      requires Valid()
      modifies this`head, buf
      ensures Value() == old(Value()).PutAll(Pack(cn, Event(cin, b0, b1, b2)))
    {
      hide Ring.Put, Ring.PutAll;
      PutFour(Value(), Pack(cn, Event(cin, b0, b1, b2)));
      Put(U8(cn * 16 + cin));
      Put(b0);
      Put(b1);
      Put(b2);
    }

    /** The byte at the read index, which then moves on. */
    method Take() returns (b: byte)
      requires Valid()
      modifies this`tail
      ensures b == old(Value()).Peek() && Value() == old(Value()).Pop()
    {
      b := buf[tail];
      tail := Mask(tail + 1, RX_RING_SIZE);
    }
  }

  lemma PutFour(r: Ring, xs: seq<byte>)
    requires r.Valid() && |xs| == 4
    ensures r.PutAll(xs) == r.Put(xs[0]).Put(xs[1]).Put(xs[2]).Put(xs[3])
  {
    hide Ring.Put;
    PutOne(r, xs);
    var r1 := r.Put(xs[0]);
    PutOne(r1, xs[1..]);
    var r2 := r1.Put(xs[1]);
    PutOne(r2, xs[1..][1..]);
    var r3 := r2.Put(xs[2]);
    PutOne(r3, xs[1..][1..][1..]);
  }

  lemma PutOne(r: Ring, xs: seq<byte>)
    requires r.Valid() && xs != []
    ensures r.Put(xs[0]).Valid() && r.PutAll(xs) == r.Put(xs[0]).PutAll(xs[1..])
    ensures |xs| == 1 ==> r.PutAll(xs) == r.Put(xs[0])
  {
  }

  /** struct port_parser. */
  class PortParser {
    var status: byte
    var cin: byte
    var need: byte
    var have: byte
    var d0: byte
    var inSysex: bool
    var sxn: byte
    const sx: array<byte>

    ghost predicate Valid()
      reads this
    {
      sx.Length == 3 && sxn <= 2
    }

    ghost function Value(): Parser
      requires sx.Length == 3
      reads this, sx
    {
      Parser(status, cin, need, have, d0, inSysex, sxn, sx[0], sx[1], sx[2])
    }

    constructor ()
      ensures sx.Length == 3 && fresh(sx)
    {
      sx := new byte[3];
    }

    /** midi_parser_reset for one port. */
    method Clear()
      requires sx.Length == 3
      modifies this
      ensures Valid() && status == 0 && have == 0 && !inSysex && sxn == 0
      ensures cin == old(cin) && need == old(need) && d0 == old(d0)
      ensures Value() == Reset(old(Value()))
    {
      status := 0;
      have := 0;
      inSysex := false;
      sxn := 0;
    }

    /** The part of parse_byte for channel voice and system common status bytes. */
    method StatusByte(cn: nat, b: byte, ring: RxRing)
      requires Valid() && ring.Valid() && sx != ring.buf && 0x80 <= b < 0xF7 && b != 0xF0
      modifies this, ring`head, ring.buf
      ensures Valid()
      ensures Value() == StatusStep(old(Value()), b).next
      ensures ring.Value() == old(ring.Value()).PutAll(EmitBytes(cn, StatusStep(old(Value()), b).out))
    {
      hide Ring.Put, Ring.PutAll, Pack;
      PutNothing(ring.Value());
      if b < 0xF0 {
        status := b;
        cin := b / 16;
        need := if cin == 0x0C || cin == 0x0D then 1 else 2;
      } else if b == 0xF1 || b == 0xF3 {
        status := b;
        cin := 0x02;
        need := 1;
      } else if b == 0xF2 {
        status := b;
        cin := 0x03;
        need := 2;
      } else {
        ring.Emit(cn, 0x05, b, 0, 0);
        status := 0;
      }
    }

    /** parse_byte on this port's state. */
    method ParseByte(cn: nat, b: byte, ring: RxRing)
      requires Valid() && ring.Valid() && sx != ring.buf
      modifies this, sx, ring`head, ring.buf
      ensures Valid()
      ensures Value() == Step(old(Value()), b).next
      ensures ring.Value() == old(ring.Value()).PutAll(EmitBytes(cn, Step(old(Value()), b).out))
    {
      hide Ring.Put, Ring.PutAll, Pack;
      PutNothing(ring.Value());
      if b >= 0xF8 {
        ring.Emit(cn, 0x0F, b, 0, 0);
        return;
      }
      if b >= 0x80 {
        if b == 0xF0 {
          status := 0;
          have := 0;
          inSysex := true;
          sx[0] := 0xF0;
          sxn := 1;
          return;
        }
        if b == 0xF7 {
          if inSysex {
            sx[sxn] := 0xF7;
            sxn := sxn + 1;
            ring.Emit(cn, 0x04 + sxn, sx[0], if sxn > 1 then sx[1] else 0, if sxn > 2 then sx[2] else 0);
            inSysex := false;
            sxn := 0;
          } else {
            ring.Emit(cn, 0x05, 0xF7, 0, 0);
          }
          status := 0;
          return;
        }
        inSysex := false;
        sxn := 0;
        have := 0;
        StatusByte(cn, b, ring);
        return;
      }
      if inSysex {
        sx[sxn] := b;
        sxn := sxn + 1;
        if sxn == 3 {
          ring.Emit(cn, 0x04, sx[0], sx[1], sx[2]);
          sxn := 0;
        }
        return;
      }
      if status == 0 {
        return;
      }
      if need == 2 && have == 0 {
        d0 := b;
        have := 1;
        return;
      }
      if need == 1 {
        ring.Emit(cn, cin, status, b, 0);
      } else {
        ring.Emit(cn, cin, status, d0, b);
      }
      have := 0;
      if status >= 0xF0 {
        status := 0;
      }
    }
  }
}
