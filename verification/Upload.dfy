/** The uploader's loop: records sent in chunks of at most 64 bytes leave device memory as if every
    record had been stored directly. */
module Upload {
  import opened Bytes
  import opened IntelHex

  const MEMORY := 0x1_0000
  const MAX_CHUNK := 64

  /** Bytes stored at consecutive 16-bit addresses. */
  function Store(mem: seq<byte>, addr: nat, data: seq<byte>): (r: seq<byte>)
    requires |mem| == MEMORY
    ensures |r| == MEMORY
    decreases |data|
  {
    if data == [] then mem else Store(mem[addr % MEMORY := data[0]], addr + 1, data[1..])
  }

  /** All records, in order. */
  function Apply(mem: seq<byte>, recs: seq<Record>): (r: seq<byte>)
    requires |mem| == MEMORY
    ensures |r| == MEMORY
    decreases |recs|
  {
    if recs == [] then mem else Apply(Store(mem, recs[0].addr, recs[0].data), recs[1..])
  }

  lemma {:induction false} StoreConcat(mem: seq<byte>, addr: nat, a: seq<byte>, b: seq<byte>)
    requires |mem| == MEMORY
    ensures Store(mem, addr, a + b) == Store(Store(mem, addr, a), addr + |a|, b)
    decreases |a|
  {
    if a == [] {
      assert a + b == b;
    } else {
      StoreConcat(mem[addr % MEMORY := a[0]], addr + 1, a[1..], b);
      assert (a + b)[1..] == a[1..] + b;
    }
  }

  lemma {:induction false} StoreWraps(mem: seq<byte>, addr: nat, addr': nat, data: seq<byte>)
    requires |mem| == MEMORY && addr % MEMORY == addr' % MEMORY
    ensures Store(mem, addr, data) == Store(mem, addr', data)
    decreases |data|
  {
    if data == [] {
    } else {
      StoreWraps(mem[addr % MEMORY := data[0]], addr + 1, addr' + 1, data[1..]);
    }
  }

  /** What a store does to each cell: the addressed cells hold the data, all others are unchanged. */
  lemma {:induction false} StoreCell(mem: seq<byte>, addr: nat, data: seq<byte>, x: nat)
    requires |mem| == MEMORY && x < MEMORY && addr < MEMORY && |data| <= MEMORY
    ensures var i := (x - addr) % MEMORY;
            Store(mem, addr, data)[x] == if i < |data| then data[i] else mem[x]
    decreases |data|
  {
    if data == [] {
    } else {
      StoreWraps(mem[addr := data[0]], addr + 1, (addr + 1) % MEMORY, data[1..]);
      StoreCell(mem[addr := data[0]], (addr + 1) % MEMORY, data[1..], x);
    }
  }

  lemma {:induction false} ApplyConcat(mem: seq<byte>, a: seq<Record>, b: seq<Record>)
    requires |mem| == MEMORY
    ensures Apply(mem, a + b) == Apply(Apply(mem, a), b)
    decreases |a|
  {
    if a == [] {
      assert a + b == b;
    } else {
      ApplyConcat(Store(mem, a[0].addr, a[0].data), a[1..], b);
      assert (a + b)[1..] == a[1..] + b;
    }
  }

  // ---- Chunks ------------------------------------------------------------------------------

  /** The transfers for one record from offset off on: at most 64 bytes each, addresses of 16 bits. */
  function Chunks(r: Record, off: nat): (cs: seq<Record>)
    requires off <= |r.data|
    ensures off < |r.data| ==> cs != []
    decreases |r.data| - off
  {
    if off == |r.data| then []
    else
      var n := if |r.data| - off > MAX_CHUNK then MAX_CHUNK else |r.data| - off;
      [Record((r.addr + off) % MEMORY, r.data[off..off + n])] + Chunks(r, off + n)
  }

  /** The transfers for all records. */
  function AllChunks(recs: seq<Record>): seq<Record> {
    if recs == [] then [] else Chunks(recs[0], 0) + AllChunks(recs[1..])
  }

  /** The chunks of a record leave memory as the record would. */
  lemma {:induction false} ChunksStore(mem: seq<byte>, r: Record, off: nat)
    requires |mem| == MEMORY && off <= |r.data|
    ensures Apply(mem, Chunks(r, off)) == Store(mem, r.addr + off, r.data[off..])
    decreases |r.data| - off
  {
    hide Store, Apply, Chunks;
    if off == |r.data| {
      ChunksEnd(r);
      StoreNothing(mem, r.addr + off);
      ApplyNothing(mem);
    } else {
      var n := if |r.data| - off > MAX_CHUNK then MAX_CHUNK else |r.data| - off;
      var addr, data := (r.addr + off) % MEMORY, r.data[off..off + n];
      ChunksStore(Store(mem, addr, data), r, off + n);
      ModTwice(r.addr + off);
      StoreWraps(mem, addr, r.addr + off, data);
      StoreConcat(mem, r.addr + off, data, r.data[off + n..]);
      assert data + r.data[off + n..] == r.data[off..];
      FirstChunk(r, off);
      ApplyFirst(mem, Record(addr, data), Chunks(r, off + n));
    }
  }

  lemma ApplyNothing(mem: seq<byte>)
    requires |mem| == MEMORY
    ensures Apply(mem, []) == mem
  {
  }

  lemma ModTwice(x: nat)
    ensures x % MEMORY % MEMORY == x % MEMORY
  {
  }

  lemma FirstChunk(r: Record, off: nat)
    requires off < |r.data|
    ensures var n := if |r.data| - off > MAX_CHUNK then MAX_CHUNK else |r.data| - off;
            Chunks(r, off) == [Record((r.addr + off) % MEMORY, r.data[off..off + n])] + Chunks(r, off + n)
  {
  }

  lemma ApplyFirst(mem: seq<byte>, r: Record, recs: seq<Record>)
    requires |mem| == MEMORY
    ensures Apply(mem, [r] + recs) == Apply(Store(mem, r.addr, r.data), recs)
  {
    hide Store;
    assert ([r] + recs)[1..] == recs;
  }

  /** So cutting the records into chunks does not change what is loaded. */
  lemma {:induction false} ChunkedUpload(mem: seq<byte>, recs: seq<Record>)
    requires |mem| == MEMORY
    ensures Apply(mem, AllChunks(recs)) == Apply(mem, recs)
    decreases |recs|
  {
    if recs == [] {
    } else {
      hide Store, Chunks;
      ChunksStore(mem, recs[0], 0);
      assert recs[0].data[0..] == recs[0].data;
      ApplyConcat(mem, Chunks(recs[0], 0), AllChunks(recs[1..]));
      ChunkedUpload(Store(mem, recs[0].addr, recs[0].data), recs[1..]);
    }
  }

  // ---- Transfers ---------------------------------------------------------------------------

  /** One control transfer and the answer of libusb: the number of bytes transferred or an error. */
  datatype Sent = Sent(chunk: Record, reply: int) {
    predicate Valid() {
      reply <= |chunk.data|
    }

    /** What anchor_write makes of the answer. */
    function Code(): int {
      if reply == |chunk.data| then 0 else reply
    }
  }

  /** Memory after some transfers: each stored as many bytes as were transferred. */
  function Applied(mem: seq<byte>, log: seq<Sent>): (r: seq<byte>)
    requires |mem| == MEMORY && forall t :: t in log ==> t.Valid()
    ensures |r| == MEMORY
    decreases |log|
  {
    if log == [] then mem
    else
      var t := log[|log| - 1];
      assert t.Valid() by { assert t in log; }
      var before := Applied(mem, log[..|log| - 1]);
      if t.reply <= 0 then before else Store(before, t.chunk.addr, t.chunk.data[..t.reply])
  }

  function ChunksOf(log: seq<Sent>): (cs: seq<Record>)
    ensures |cs| == |log|
  {
    seq(|log|, i requires 0 <= i < |log| => log[i].chunk)
  }

  lemma {:induction false} FullReplies(mem: seq<byte>, log: seq<Sent>)
    requires |mem| == MEMORY && forall t :: t in log ==> t.reply == |t.chunk.data|
    ensures Applied(mem, log) == Apply(mem, ChunksOf(log))
    decreases |log|
  {
    if log == [] {
    } else {
      hide Store;
      var before, t := log[..|log| - 1], log[|log| - 1];
      FullReplies(mem, before);
      assert ChunksOf(log) == ChunksOf(before) + [t.chunk];
      ApplyConcat(mem, ChunksOf(before), [t.chunk]);
      assert [t.chunk][1..] == [];
      assert t.chunk.data[..|t.chunk.data|] == t.chunk.data;
      assert |t.chunk.data| == 0 ==> Store(Applied(mem, before), t.chunk.addr, []) == Applied(mem, before) by {
        StoreNothing(Applied(mem, before), t.chunk.addr);
      }
    }
  }

  lemma StoreNothing(mem: seq<byte>, addr: nat)
    requires |mem| == MEMORY
    ensures Store(mem, addr, []) == mem
  {
  }

  lemma AppliedNothing(mem: seq<byte>)
    requires |mem| == MEMORY
    ensures Applied(mem, []) == mem
  {
  }

  lemma {:induction false} AppliedConcat(mem: seq<byte>, a: seq<Sent>, b: seq<Sent>)
    requires |mem| == MEMORY && (forall t :: t in a ==> t.Valid()) && (forall t :: t in b ==> t.Valid())
    ensures Applied(mem, a + b) == Applied(Applied(mem, a), b)
    decreases |b|
  {
    hide Store;
    if b == [] {
      assert a + b == a;
    } else {
      AppliedConcat(mem, a, b[..|b| - 1]);
      assert (a + b)[..|a + b| - 1] == a + b[..|b| - 1];
    }
  }

  /** All reported as successful. */
  predicate Complete(sent: seq<Sent>) {
    forall t :: t in sent ==> t.Code() == 0
  }

  /** The transfers made for some chunks: all of them, in order, each reported as successful; or those up to
      the first one that was not, whose code is the result. */
  ghost predicate Outcome(sent: seq<Sent>, cs: seq<Record>, code: int) {
    && ChunksOf(sent) <= cs
    && (code == 0 ==> |sent| == |cs| && Complete(sent))
    && (code != 0 ==> |sent| > 0 && Complete(sent[..|sent| - 1]) && sent[|sent| - 1].Code() == code)
  }

  /** One more transfer, for the next of the chunks. */
  lemma OneMore(sent: seq<Sent>, t: Sent, rest: seq<Record>, cs: seq<Record>)
    requires Complete(sent) && ChunksOf(sent) + ([t.chunk] + rest) == cs
    ensures ChunksOf(sent + [t]) + rest == cs
    ensures if t.Code() == 0 then Complete(sent + [t]) else Outcome(sent + [t], cs, t.Code())
  {
    var more := sent + [t];
    assert ChunksOf(more) == ChunksOf(sent) + [t.chunk];
    assert more[..|more| - 1] == sent;
    assert ChunksOf(sent) + [t.chunk] + rest == cs;
  }

  lemma AllSent(sent: seq<Sent>, cs: seq<Record>)
    requires Complete(sent) && ChunksOf(sent) + [] == cs
    ensures Outcome(sent, cs, 0)
  {
  }

  /** The transfers of one more record. */
  lemma ManyMore(sent: seq<Sent>, more: seq<Sent>, cs: seq<Record>, rest: seq<Record>, code: int)
    requires Complete(sent) && Outcome(more, cs, code)
    ensures Outcome(sent + more, ChunksOf(sent) + cs + rest, code) || code == 0
    ensures code == 0 ==> Complete(sent + more) && ChunksOf(sent + more) == ChunksOf(sent) + cs
  {
    var all := sent + more;
    assert ChunksOf(all) == ChunksOf(sent) + ChunksOf(more);
    if code != 0 {
      assert all[..|all| - 1] == sent + more[..|more| - 1];
    }
  }

  lemma NothingSent(cs: seq<Record>)
    ensures Complete([]) && ChunksOf([]) == [] && [] + cs == cs
  {
  }

  lemma ChunksEnd(r: Record)
    ensures Chunks(r, |r.data|) == []
  {
  }

  lemma AllChunksNothing(recs: seq<Record>)
    ensures AllChunks(recs[..0]) == []
  {
  }

  lemma {:induction false} AllChunksConcat(a: seq<Record>, b: seq<Record>)
    ensures AllChunks(a + b) == AllChunks(a) + AllChunks(b)
    decreases |a|
  {
    hide Chunks;
    if a == [] {
      assert a + b == b;
    } else {
      AllChunksConcat(a[1..], b);
      assert (a + b)[1..] == a[1..] + b;
    }
  }

  lemma AllChunksSplit(recs: seq<Record>, i: nat)
    requires i < |recs|
    ensures AllChunks(recs[..i + 1]) == AllChunks(recs[..i]) + Chunks(recs[i], 0)
  {
    hide Chunks, AllChunks;
    AllChunksConcat(recs[..i], [recs[i]]);
    AllChunksOne(recs[i]);
    assert recs[..i + 1] == recs[..i] + [recs[i]];
  }

  lemma AllChunksPrefix(recs: seq<Record>, i: nat)
    requires i <= |recs|
    ensures AllChunks(recs) == AllChunks(recs[..i]) + AllChunks(recs[i..])
  {
    hide Chunks, AllChunks;
    AllChunksConcat(recs[..i], recs[i..]);
    assert recs == recs[..i] + recs[i..];
  }

  lemma AllChunksOne(r: Record)
    ensures AllChunks([r]) == Chunks(r, 0)
  {
    hide Chunks;
    assert [r][1..] == [];
    assert AllChunks([r]) == Chunks(r, 0) + [];
  }

  /** An upload reported as successful has loaded the records, if no transfer moved nothing. */
  lemma UploadCorrect(mem: seq<byte>, sent: seq<Sent>, recs: seq<Record>)
    requires |mem| == MEMORY && Complete(sent) && ChunksOf(sent) == AllChunks(recs)
    requires forall t :: t in sent ==> t.Valid()
    ensures (forall t :: t in sent ==> t.reply != 0) ==> Applied(mem, sent) == Apply(mem, recs)
  {
    hide Store, Chunks, AllChunks, Apply, Applied;
    if forall t :: t in sent ==> t.reply != 0 {
      FullReplies(mem, sent);
      ChunkedUpload(mem, recs);
    }
  }

  // ---- A transfer that moves nothing -------------------------------------------------------

  /** anchor_write takes a transfer for complete exactly when everything or nothing was transferred. */
  lemma ReportedComplete(t: Sent)
    ensures t.Code() == 0 <==> t.reply == |t.chunk.data| || t.reply == 0
  {
  }

  lemma {:induction false} ChunkAt(r: Record, off: nat, k: nat)
    requires off <= |r.data| && k < |Chunks(r, off)|
    ensures var o := off + MAX_CHUNK * k;
            && o < |r.data|
            && Chunks(r, off)[k] ==
               Record((r.addr + o) % MEMORY, r.data[o..if |r.data| - o > MAX_CHUNK then o + MAX_CHUNK else |r.data|])
    decreases k
  {
    if k == 0 {
    } else {
      FirstChunk(r, off);
      var n := if |r.data| - off > MAX_CHUNK then MAX_CHUNK else |r.data| - off;
      hide Chunks;
      ChunksEnd(r);
      ChunkAt(r, off + n, k - 1);
    }
  }

  lemma CellsApart(addr: nat, j: nat, k: nat, n: nat)
    requires addr < MEMORY && j < 4 && k < 4 && j != k && n <= MAX_CHUNK
    ensures ((addr + MAX_CHUNK * k) % MEMORY - (addr + MAX_CHUNK * j) % MEMORY) % MEMORY >= n
  {
  }

  /** A cell whose chunk was not transferred keeps its value. */
  lemma {:induction false} SkippedCell(mem: seq<byte>, sent: seq<Sent>, r: Record, k: nat, j: nat)
    requires |mem| == MEMORY && r.Valid() && ChunksOf(sent) == Chunks(r, 0) && forall t :: t in sent ==> t.Valid()
    requires k < |sent| && sent[k].reply == 0 && j <= |sent|
    ensures Applied(mem, sent[..j])[(r.addr + MAX_CHUNK * k) % MEMORY] == mem[(r.addr + MAX_CHUNK * k) % MEMORY]
    decreases j
  {
    hide Store, Chunks, Applied;
    if j == 0 {
      assert sent[..0] == [];
      AppliedNothing(mem);
    } else {
      var t, x := sent[j - 1], (r.addr + MAX_CHUNK * k) % MEMORY;
      assert t in sent && ChunksOf(sent)[j - 1] == t.chunk && ChunksOf(sent)[k] == sent[k].chunk;
      SkippedCell(mem, sent, r, k, j - 1);
      assert sent[..j] == sent[..j - 1] + [t];
      AppliedSnoc(mem, sent[..j - 1], t);
      ChunkAt(r, 0, j - 1);
      ChunkAt(r, 0, k);
      if t.reply > 0 {
        CellsApart(r.addr, j - 1, k, t.reply);
        StoreCell(Applied(mem, sent[..j - 1]), t.chunk.addr, t.chunk.data[..t.reply], x);
      }
    }
  }

  lemma AppliedSnoc(mem: seq<byte>, sent: seq<Sent>, t: Sent)
    requires |mem| == MEMORY && t.Valid() && forall t :: t in sent ==> t.Valid()
    ensures Applied(mem, sent + [t]) ==
            if t.reply <= 0 then Applied(mem, sent) else Store(Applied(mem, sent), t.chunk.addr, t.chunk.data[..t.reply])
  {
    hide Store;
    assert (sent + [t])[..|sent|] == sent;
  }

  /** A record reported as loaded is loaded, whatever memory held before, if and only if no transfer of it
      moved nothing at all. */
  lemma LoadedExactly(r: Record, sent: seq<Sent>)
    requires r.Valid() && Outcome(sent, Chunks(r, 0), 0) && forall t :: t in sent ==> t.Valid()
    ensures (forall mem: seq<byte> :: |mem| == MEMORY ==> Applied(mem, sent) == Store(mem, r.addr, r.data))
            <==> forall t :: t in sent ==> t.reply != 0
  {
    hide Store, Chunks, Applied;
    if forall t :: t in sent ==> t.reply != 0 {
      forall mem: seq<byte> | |mem| == MEMORY
        ensures Applied(mem, sent) == Store(mem, r.addr, r.data)
      {
        assert forall t :: t in sent ==> t.Code() == 0;
        FullReplies(mem, sent);
        ChunksStore(mem, r, 0);
        assert r.data[0..] == r.data && ChunksOf(sent) == Chunks(r, 0);
      }
    } else {
      var k :| 0 <= k < |sent| && sent[k].reply == 0;
      var mem := LostCell(r, sent, k);
    }
  }

  lemma LostCell(r: Record, sent: seq<Sent>, k: nat) returns (mem: seq<byte>)
    requires r.Valid() && ChunksOf(sent) == Chunks(r, 0) && forall t :: t in sent ==> t.Valid()
    requires k < |sent| && sent[k].reply == 0
    ensures |mem| == MEMORY && Applied(mem, sent) != Store(mem, r.addr, r.data)
  {
    hide Store, Chunks, Applied;
    ChunkAt(r, 0, k);
    var v: byte := if r.data[MAX_CHUNK * k] == 0 then 1 else 0;
    mem := seq(MEMORY, i => v);
    var x := (r.addr + MAX_CHUNK * k) % MEMORY;
    SkippedCell(mem, sent, r, k, |sent|);
    assert sent[..|sent|] == sent;
    StoreCell(mem, r.addr, r.data, x);
    OffsetBack(r.addr, MAX_CHUNK * k);
    assert Applied(mem, sent)[x] != Store(mem, r.addr, r.data)[x];
  }

  lemma OffsetBack(addr: nat, off: nat)
    requires addr < MEMORY && off < 256
    ensures ((addr + off) % MEMORY - addr) % MEMORY == off
  {
  }

  /** The device in its loader, with the answers it is going to give; after those it accepts everything. */
  class Loader {
    const mem: array<byte>
    var replies: seq<int>
    ghost var log: seq<Sent>

    ghost predicate Valid()
      reads this
    {
      mem.Length == MEMORY && forall t :: t in log ==> t.Valid()
    }

    constructor (replies: seq<int>)
      ensures Valid() && fresh(mem) && log == [] && this.replies == replies
    {
      mem := new byte[MEMORY];
      this.replies := replies;
      log := [];
    }

    /** Bytes stored at consecutive 16-bit addresses. */
    method StoreBytes(addr: nat, data: seq<byte>)
      requires mem.Length == MEMORY
      modifies mem
      ensures mem[..] == Store(old(mem[..]), addr, data)
    {
      StoreNothing(mem[..], addr);
      for i := 0 to |data|
        invariant mem[..] == Store(old(mem[..]), addr, data[..i])
      {
        assert data[..i + 1] == data[..i] + [data[i]];
        StoreConcat(old(mem[..]), addr, data[..i], [data[i]]);
        var cell := (addr + i) % MEMORY;
        ghost var before := mem[..];
        mem[cell] := data[i];
        assert mem[..] == before[cell := data[i]];
        assert [data[i]][1..] == [];
      }
      assert data[..|data|] == data;
    }

    /** libusb_control_transfer: the bytes that were transferred are stored. */
    method ControlTransfer(addr: nat, data: seq<byte>) returns (r: int)
      requires Valid() && addr < MEMORY
      modifies this, mem
      ensures Valid() && r <= |data| && log == old(log) + [Sent(Record(addr, data), r)]
      ensures mem[..] == if r <= 0 then old(mem[..]) else Store(old(mem[..]), addr, data[..r])
    {
      r := |data|;
      if replies != [] {
        if replies[0] < r {
          r := replies[0];
        }
        replies := replies[1..];
      }
      log := log + [Sent(Record(addr, data), r)];
      if r > 0 {
        StoreBytes(addr, data[..r]);
      }
    }

    /** anchor_write: zero for a complete transfer, otherwise the answer of libusb, which is zero too
        when nothing at all was transferred. */
    method AnchorWrite(addr: nat, data: seq<byte>) returns (code: int)
      requires Valid() && addr < MEMORY
      modifies this, mem
      ensures Valid() && exists t :: log == old(log) + [t] && t.chunk == Record(addr, data) && code == t.Code()
      ensures mem[..] == Applied(old(mem[..]), log[|old(log)|..])
    {
      hide Store;
      var r := ControlTransfer(addr, data);
      code := if r == |data| then 0 else r;
      ghost var sent := log[|old(log)|..];
      assert sent == [Sent(Record(addr, data), r)] && sent[..0] == [];
    }

    /** The chunk loop for one record. */
    method UploadRecord(r: Record) returns (code: int)
      requires Valid() && r.Valid()
      modifies this, mem
      ensures Valid() && old(log) <= log
      ensures Outcome(log[|old(log)|..], Chunks(r, 0), code)
      ensures mem[..] == Applied(old(mem[..]), log[|old(log)|..])
    {
      hide Store, Chunks, Applied, ChunksOf, Complete, Outcome;
      ghost var cs := Chunks(r, 0);
      var off := 0;
      ghost var sent: seq<Sent> := [];
      AppliedNothing(mem[..]);
      NothingSent(cs);
      while off < |r.data|
        invariant Valid() && off <= |r.data| && log == old(log) + sent
        invariant Complete(sent) && ChunksOf(sent) + Chunks(r, off) == cs
        invariant mem[..] == Applied(old(mem[..]), sent)
        decreases |r.data| - off
      {
        var chunk := |r.data| - off;
        if chunk > MAX_CHUNK {
          chunk := MAX_CHUNK;
        }
        FirstChunk(r, off);
        ghost var was := log;
        code := AnchorWrite((r.addr + off) % MEMORY, r.data[off..off + chunk]);
        ghost var t := log[|was|];
        assert log == was + [t] && log[|was|..] == [t] && t in log;
        AppliedConcat(old(mem[..]), sent, [t]);
        OneMore(sent, t, Chunks(r, off + chunk), cs);
        sent := sent + [t];
        assert log[|old(log)|..] == sent;
        if code != 0 {
          return;
        }
        off := (off + chunk) % MEMORY;
      }
      ChunksEnd(r);
      AllSent(sent, cs);
      assert log[|old(log)|..] == sent;
      code := 0;
    }

    /** The upload loop: it stops at the first transfer that is reported as failed. */
    method UploadAll(recs: seq<Record>) returns (code: int)
      requires Valid() && forall r :: r in recs ==> r.Valid()
      modifies this, mem
      ensures Valid() && old(log) <= log
      ensures Outcome(log[|old(log)|..], AllChunks(recs), code)
      ensures mem[..] == Applied(old(mem[..]), log[|old(log)|..])
      ensures code == 0 && (forall t :: t in log[|old(log)|..] ==> t.reply != 0) ==> mem[..] == Apply(old(mem[..]), recs)
    {
      hide Store, Chunks, Applied, AllChunks, Apply, ChunksOf, Complete, Outcome;
      ghost var sent: seq<Sent> := [];
      AppliedNothing(mem[..]);
      NothingSent([]);
      AllChunksNothing(recs);
      for i := 0 to |recs|
        invariant Valid() && log == old(log) + sent
        invariant Complete(sent) && ChunksOf(sent) == AllChunks(recs[..i])
        invariant mem[..] == Applied(old(mem[..]), sent)
      {
        ghost var was := log;
        code := UploadRecord(recs[i]);
        ghost var more := log[|was|..];
        assert log == was + more;
        AppliedConcat(old(mem[..]), sent, more);
        AllChunksSplit(recs, i);
        AllChunksPrefix(recs, i + 1);
        ManyMore(sent, more, Chunks(recs[i], 0), AllChunks(recs[i + 1..]), code);
        sent := sent + more;
        assert log[|old(log)|..] == sent;
        if code != 0 {
          return;
        }
      }
      assert recs[..|recs|] == recs && log[|old(log)|..] == sent;
      code := 0;
      assert ChunksOf(sent) + [] == ChunksOf(sent);
      AllSent(sent, AllChunks(recs));
      UploadCorrect(old(mem[..]), sent, recs);
    }
  }
}
