/** The byte rings of the firmware: a power-of-two buffer with a write index and a
    read index that are single bytes.  One slot stays free, so that equal indices
    always mean "empty". */
module Rings {
  import opened Bytes

  /** "& (n - 1)" for the three sizes in use. */
  function Mask(i: int, n: nat): (r: byte)
    requires n == 16 || n == 128 || n == 256
    ensures r < n
  {
    if n == 16 then i % 16 else if n == 128 then i % 128 else i % 256
  }

  datatype Ring = Ring(buf: seq<byte>, head: byte, tail: byte) {

    predicate Sized() {
      |buf| == 16 || |buf| == 128 || |buf| == 256
    }

    ghost predicate Valid() {
      && Sized()
      && head < |buf| && tail < |buf|
    }

    /** Queued bytes: the 8-bit difference of the indices, masked. */
    function Count(): nat
      requires Sized()
    {
      Mask(U8(head - tail), |buf|)
    }

    /** Store at the write index and advance it. */
    function Put(x: byte): Ring
      requires Sized() && head < |buf|
    {
      Ring(buf[head := x], Mask(head + 1, |buf|), tail)
    }

    function Peek(): byte
      requires tail < |buf|
    {
      buf[tail]
    }

    /** Advance the read index. */
    function Pop(): Ring
      requires Sized()
    {
      Ring(buf, head, Mask(tail + 1, |buf|))
    }

    /** The abstract queue: the slots from the read index up to the write index. */
    function Contents(): (q: seq<byte>)
      requires Valid()
      ensures |q| == Count()
    {
      seq(Count(), k requires 0 <= k < Count() => buf[Mask(tail + k, |buf|)])
    }

    function PutAll(xs: seq<byte>): Ring
      requires Sized() && head < |buf|
      decreases |xs|
    {
      if xs == [] then this else Put(xs[0]).PutAll(xs[1..])
    }
  }

  lemma Wrap(i: int, n: nat)
    requires n == 16 || n == 128 || n == 256
    requires -(n as int) < i < 2 * n
    ensures Mask(i, n) == if i < 0 then i + n else if i < n then i else i - n
    ensures Mask(U8(i), n) == Mask(i, n)
  {
    hide U8;
    if n == 16 {
      Mod16(i);
    } else if n == 128 {
      Mod128(i);
    } else {
      Mod256(i);
    }
  }

  lemma Mod16(i: int)
    requires -16 < i < 32
    ensures i % 16 == if i < 0 then i + 16 else if i < 16 then i else i - 16
    ensures U8(i) % 16 == i % 16
  {
  }

  lemma Mod128(i: int)
    requires -128 < i < 256
    ensures i % 128 == if i < 0 then i + 128 else if i < 128 then i else i - 128
    ensures U8(i) % 128 == i % 128
  {
  }

  lemma Mod256(i: int)
    requires -256 < i < 512
    ensures U8(i) == i % 256 == if i < 0 then i + 256 else if i < 256 then i else i - 256
    ensures U8(i) % 256 == U8(i)
  {
  }

  lemma CountValue(r: Ring)
    requires r.Valid()
    ensures r.Count() == if r.tail <= r.head then r.head - r.tail else r.head - r.tail + |r.buf|
  {
    Wrap(r.head - r.tail, |r.buf|);
  }

  /** The slot of the k-th queued byte, without the modulus. */
  lemma ContentsAt(r: Ring, k: nat)
    requires r.Valid() && k < r.Count()
    ensures r.tail + k < 2 * |r.buf|
    ensures r.Contents()[k] == r.buf[if r.tail + k < |r.buf| then r.tail + k else r.tail + k - |r.buf|]
  {
    CountValue(r);
    Wrap(r.tail + k, |r.buf|);
  }

  lemma PutCount(r: Ring, x: byte)
    requires r.Valid() && r.Count() < |r.buf| - 1
    ensures r.Put(x).Valid() && r.Put(x).Count() == r.Count() + 1
  {
    CountValue(r);
    Wrap(r.head + 1, |r.buf|);
    CountValue(r.Put(x));
  }

  /** Writing into a ring with a free slot appends to the queue and disturbs nothing in it. */
  lemma PutContents(r: Ring, x: byte)
    requires r.Valid() && r.Count() < |r.buf| - 1
    ensures r.Put(x).Valid() && r.Put(x).Contents() == r.Contents() + [x]
  {
    hide Ring.Contents, Ring.Count;
    var s := r.Put(x);
    PutCount(r, x);
    CountValue(r);
    forall k | 0 <= k < |s.Contents()|
      ensures s.Contents()[k] == (r.Contents() + [x])[k]
    {
      ContentsAt(s, k);
      if k < |r.Contents()| {
        ContentsAt(r, k);
      }
    }
  }

  lemma PopCount(r: Ring)
    requires r.Valid() && r.Count() > 0
    ensures r.Pop().Valid() && r.Pop().Count() == r.Count() - 1
    ensures r.Pop().tail == if r.tail + 1 < |r.buf| then r.tail + 1 else 0
  {
    CountValue(r);
    Wrap(r.tail + 1, |r.buf|);
    CountValue(r.Pop());
  }

  /** Advancing the read index removes exactly the first queued byte. */
  lemma PopContents(r: Ring)
    requires r.Valid() && r.Count() > 0
    ensures r.Pop().Valid() && r.Peek() == r.Contents()[0] && r.Pop().Contents() == r.Contents()[1..]
    ensures |r.Pop().buf| == |r.buf| && r.Pop().head == r.head
  {
    PopCount(r);
    ContentsAt(r, 0);
    var s := r.Pop();
    assert |s.buf| == |r.buf| && s.head == r.head && s.buf == r.buf;
    hide Ring.Contents, Ring.Count, Ring.Pop;
    forall k | 0 <= k < |s.Contents()|
      ensures s.Contents()[k] == r.Contents()[k + 1]
    {
      ContentsAt(s, k);
      ContentsAt(r, k + 1);
    }
  }

  lemma PutAllShape(r: Ring, xs: seq<byte>)
    requires r.Valid()
    ensures r.PutAll(xs).Valid() && |r.PutAll(xs).buf| == |r.buf|
    decreases |xs|
  {
    if xs == [] {
    } else {
      PutAllShape(r.Put(xs[0]), xs[1..]);
    }
  }

  lemma {:induction false} PutAllContents(r: Ring, xs: seq<byte>)
    requires r.Valid() && r.Count() + |xs| < |r.buf|
    ensures r.PutAll(xs).Valid() && |r.PutAll(xs).buf| == |r.buf| && r.PutAll(xs).tail == r.tail
    ensures r.PutAll(xs).Contents() == r.Contents() + xs
    decreases |xs|
  {
    if xs == [] {
    } else {
      PutContents(r, xs[0]);
      PutAllContents(r.Put(xs[0]), xs[1..]);
      assert r.Contents() + xs == r.Contents() + [xs[0]] + xs[1..];
    }
  }

  /** The two tests the firmware makes on the indices, read on the queue: equal indices mean
      empty, and an advanced write index that meets the read index means one slot left. */
  lemma IndexTests(r: Ring)
    requires r.Valid()
    ensures r.head == r.tail <==> r.Contents() == []
    ensures Mask(r.head + 1, |r.buf|) == r.tail <==> |r.Contents()| == |r.buf| - 1
  {
    CountValue(r);
    Wrap(r.head + 1, |r.buf|);
  }

  lemma PutNothing(r: Ring)
    requires r.Valid()
    ensures r.PutAll([]) == r
  {
  }

  lemma PutValid(r: Ring, x: byte)
    requires r.Valid()
    ensures r.Put(x).Valid() && |r.Put(x).buf| == |r.buf|
  {
  }

  lemma {:induction false} PutAllSnoc(r: Ring, xs: seq<byte>, x: byte)
    requires r.Valid()
    ensures r.PutAll(xs).Valid() && r.PutAll(xs + [x]) == r.PutAll(xs).Put(x)
    decreases |xs|
  {
    hide Ring.Put;
    PutValid(r, x);
    if xs == [] {
      assert ([] + [x])[1..] == [];
    } else {
      PutValid(r, xs[0]);
      PutAllSnoc(r.Put(xs[0]), xs[1..], x);
      assert (xs + [x])[1..] == xs[1..] + [x];
    }
  }
}
