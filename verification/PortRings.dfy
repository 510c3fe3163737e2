/** The per-port byte rings of uart.c and main.c: one row of slots a port, with the write indices
    and the read indices in two arrays of bytes beside it. */
module PortRings {
  import opened Bytes
  import opened Rings

  class PortRings {
    const slots: array2<byte>
    const head: array<byte>
    const tail: array<byte>

    ghost predicate Sized() {
      && slots.Length0 == head.Length == tail.Length == PORTS && head != tail
      && (slots.Length1 == 16 || slots.Length1 == 128)
    }

    ghost predicate Valid()
      reads head, tail
    {
      && Sized()
      && forall p :: 0 <= p < PORTS ==> head[p] < slots.Length1 && tail[p] < slots.Length1
    }

    ghost function Repr(): set<object> {
      {slots, head, tail}
    }

    ghost function Row(p: nat): (r: seq<byte>)
      requires p < slots.Length0
      reads slots
      ensures |r| == slots.Length1
    {
      seq(slots.Length1, k requires 0 <= k < slots.Length1 reads slots => slots[p, k])
    }

    ghost function At(p: nat): (r: Ring)
      requires Valid() && p < PORTS
      reads slots, head, tail
      ensures r.Valid() && |r.buf| == slots.Length1
    {
      Ring(Row(p), head[p], tail[p])
    }

    ghost function All(): (r: seq<Ring>)
      requires Valid()
      reads slots, head, tail
      ensures |r| == PORTS && forall p :: 0 <= p < PORTS ==> r[p] == At(p)
    {
      seq(PORTS, p requires Valid() && 0 <= p < PORTS reads slots, head, tail => At(p))
    }

    /** Memory comes up with anything in it, in the indices too. */
    constructor (size: nat)
      requires size == 16 || size == 128
      ensures Sized() && slots.Length1 == size && fresh(Repr())
    {
      slots := new byte[PORTS, size];
      head := new byte[PORTS];
      tail := new byte[PORTS];
    }

    /** The loop of tx_reset and uart_rx_reset: both indices of every port to zero. */
    method Clear()
      requires Sized()
      modifies head, tail
      ensures Valid()
      ensures forall p :: 0 <= p < PORTS ==> Row(p) == old(Row(p)) && head[p] == tail[p] == 0
    {
      for port := 0 to PORTS
        invariant forall p :: 0 <= p < port ==> head[p] == tail[p] == 0
      {
        head[port] := 0;
        tail[port] := 0;
      }
    }

    /** The test for a queued byte. */
    predicate Available(p: nat)
      requires Valid() && p < PORTS
      reads head, tail
    {
      head[p] != tail[p]
    }

    /** The write index of port p, advanced. */
    function NextHead(p: nat): byte
      requires Valid() && p < PORTS
      reads head, tail
    {
      Mask(head[p] + 1, slots.Length1)
    }

    /** Queued bytes of port p. */
    function Count(p: nat): (n: nat)
      requires Valid() && p < PORTS
      reads slots, head, tail
      ensures n == At(p).Count() == |At(p).Contents()|
    {
      Mask(U8(head[p] as int - tail[p] as int), slots.Length1)
    }

    method Put(p: nat, x: byte)
      requires Valid() && p < PORTS
      modifies slots, head
      ensures Valid()
      ensures All() == old(All())[p := old(At(p)).Put(x)]
    {
      ghost var was := All();
      slots[p, head[p]] := x;
      head[p] := NextHead(p);
      assert Row(p) == was[p].buf[old(head[p]) := x];
      assert forall q :: 0 <= q < PORTS && q != p ==> Row(q) == was[q].buf;
      assert All() == was[p := was[p].Put(x)];
    }

    function Peek(p: nat): (b: byte)
      requires Valid() && p < PORTS
      reads slots, head, tail
      ensures b == At(p).Peek()
    {
      slots[p, tail[p]]
    }

    method Pop(p: nat)
      requires Valid() && p < PORTS
      modifies tail
      ensures Valid()
      ensures All() == old(All())[p := old(At(p)).Pop()]
    {
      ghost var was := All();
      tail[p] := Mask(tail[p] + 1, slots.Length1);
      assert forall q :: 0 <= q < PORTS ==> Row(q) == was[q].buf;
      assert All() == was[p := was[p].Pop()];
    }
  }
}
