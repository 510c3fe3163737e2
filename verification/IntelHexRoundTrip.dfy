/** Printing records as Intel HEX is undone by the reader, and the checksum notices every change of
    a single byte other than the length and the type. */
module IntelHexRoundTrip {
  import opened Bytes
  import opened IntelHex

  function DigitChar(n: nat): char
    requires n < 16
  {
    if n < 10 then '0' + n as char else 'A' + (n - 10) as char
  }

  /** Two upper-case digits a byte. */
  function HexText(bs: seq<byte>): (s: string)
    ensures |s| == 2 * |bs|
  {
    if bs == [] then "" else [DigitChar(bs[0] / 16), DigitChar(bs[0] % 16)] + HexText(bs[1..])
  }

  /** The two's complement of a sum, as a byte. */
  function Checksum(sum: nat): byte {
    (256 - sum % 256) % 256
  }

  /** The bytes of a data record: length, address, type zero, data and a checksum. */
  function RecordBytes(r: Record): seq<byte>
    requires r.Valid()
  {
    var bs := [|r.data|, r.addr / 256, r.addr % 256, 0] + r.data;
    bs + [Checksum(Sum(bs))]
  }

  function PrintRecord(r: Record): string
    requires r.Valid()
  {
    ":" + HexText(RecordBytes(r))
  }

  const EOF_LINE := ":00000001FF"

  /** One line a record, each ended by the same characters. */
  function PrintRecords(recs: seq<Record>, end: string): (lines: seq<string>)
    requires forall r :: r in recs ==> r.Valid()
    ensures |lines| == |recs|
  {
    if recs == [] then [] else [PrintRecord(recs[0]) + end] + PrintRecords(recs[1..], end)
  }

  lemma DigitRoundTrip(n: nat)
    requires n < 16
    ensures Digit(DigitChar(n)) == Some(n)
  {
  }

  lemma {:induction false} TextAt(bs: seq<byte>, k: nat)
    requires k < |bs|
    ensures HexText(bs)[2 * k] == DigitChar(bs[k] / 16) && HexText(bs)[2 * k + 1] == DigitChar(bs[k] % 16)
    decreases k
  {
    hide DigitChar;
    if k == 0 {
    } else {
      TextAt(bs[1..], k - 1);
    }
  }

  lemma ByteAt(bs: seq<byte>, k: nat, end: string)
    requires k < |bs|
    ensures HexByte(":" + HexText(bs) + end, 1 + 2 * k) == Some(bs[k])
  {
    hide DigitChar, Digit, HexText;
    TextAt(bs, k);
    DigitRoundTrip(bs[k] / 16);
    DigitRoundTrip(bs[k] % 16);
    var s := ":" + HexText(bs) + end;
    assert s[1 + 2 * k] == HexText(bs)[2 * k] && s[1 + 2 * k + 1] == HexText(bs)[2 * k + 1];
  }

  lemma {:induction false} RunAt(bs: seq<byte>, k: nat, n: nat, end: string)
    requires k + n <= |bs|
    ensures HexRun(":" + HexText(bs) + end, 1 + 2 * k, n).Some?
    ensures HexRun(":" + HexText(bs) + end, 1 + 2 * k, n).value == bs[k..k + n]
    decreases n
  {
    hide HexText, HexByte;
    if n == 0 {
    } else {
      ByteAt(bs, k, end);
      RunAt(bs, k + 1, n - 1, end);
      assert bs[k..k + n] == [bs[k]] + bs[k + 1..k + 1 + (n - 1)];
    }
  }

  lemma {:induction false} SumConcat(a: seq<byte>, b: seq<byte>)
    ensures Sum(a + b) == Sum(a) + Sum(b)
  {
    if a == [] {
      assert a + b == b;
    } else {
      SumConcat(a[1..], b);
      assert (a + b)[1..] == a[1..] + b;
    }
  }

  /** A line of bytes with the shape of a data record is one exactly when the bytes add up to zero
      modulo 256, and is refused otherwise, whatever follows them on the line. */
  lemma DataLine(bs: seq<byte>, end: string, base: nat)
    requires |bs| >= 5 && |bs| == bs[0] as nat + 5 && bs[3] == 0
    ensures ParseLine(":" + HexText(bs) + end, base) ==
            if Sum(bs) % 256 == 0 then Data(Record((base + Word(bs[1], bs[2])) % 0x1_0000, bs[4..|bs| - 1])) else Bad
  {
    hide HexText, HexRun, Sum, Word, U8;
    var n: nat := bs[0];
    RunAt(bs, 0, 4, end);
    RunAt(bs, 4, n + 1, end);
    SumConcat(bs[..4], bs[4..]);
    Slices(bs, n);
    U8Zero(Sum(bs));
  }

  lemma Slices(bs: seq<byte>, n: nat)
    requires |bs| == n + 5
    ensures bs == bs[..4] + bs[4..] && bs[0..4] == bs[..4]
    ensures bs[4..4 + (n + 1)] == bs[4..] && bs[4..][..n] == bs[4..|bs| - 1]
  {
  }

  lemma U8Zero(n: nat)
    ensures U8(n) == 0 <==> n % 256 == 0
  {
  }

  lemma ChecksumCloses(bs: seq<byte>)
    ensures Sum(bs + [Checksum(Sum(bs))]) % 256 == 0
  {
    hide Sum;
    SumSnoc(bs, Checksum(Sum(bs)));
  }

  lemma RecordRoundTrip(r: Record, end: string, base: nat)
    requires r.Valid()
    ensures ParseLine(PrintRecord(r) + end, base) == Data(r.(addr := (base + r.addr) % 0x1_0000))
  {
    var bs := RecordBytes(r);
    ChecksumCloses([|r.data|, r.addr / 256, r.addr % 256, 0] + r.data);
    hide HexText, Sum, U8, ParseLine;
    DataLine(bs, end, base);
    assert bs[4..|bs| - 1] == r.data;
  }

  /** So a printed record comes back at its address above the base exactly when that still fits in
      16 bits. */
  lemma BaseHonoured(r: Record, end: string, base: nat)
    requires r.Valid()
    ensures ParseLine(PrintRecord(r) + end, base) == Data(r.(addr := base + r.addr)) <==> base + r.addr < 0x1_0000
  {
    hide ParseLine, PrintRecord;
    RecordRoundTrip(r, end, base);
  }

  lemma EofLine(end: string, base: nat)
    ensures ParseLine(EOF_LINE + end, base) == Eof
  {
    var line := EOF_LINE + end;
    assert line[..11] == EOF_LINE;
    Header(line);
    assert HexByte(line, 1) == Some(0) && HexByte(line, 3) == Some(0);
    assert HexByte(line, 5) == Some(0) && HexByte(line, 7) == Some(1);
  }

  /** Records moved by an address base, with addresses cut to 16 bits. */
  function Moved(recs: seq<Record>, base: nat): (r: seq<Record>)
    ensures |r| == |recs|
  {
    seq(|recs|, i requires 0 <= i < |recs| => recs[i].(addr := (base + recs[i].addr) % 0x1_0000))
  }

  lemma {:induction false} RecordsThen(recs: seq<Record>, end: string, tail: seq<string>, base: nat)
    requires forall r :: r in recs ==> r.Valid()
    ensures Parse(PrintRecords(recs, end) + tail, base) == Prepend(Moved(recs, base), Parse(tail, base))
    decreases |recs|
  {
    hide ParseLine, PrintRecord, Parse;
    var lines, rest := PrintRecords(recs, end) + tail, Parse(tail, base);
    if recs == [] {
      assert lines == tail;
      PrependNothing(rest);
    } else {
      RecordRoundTrip(recs[0], end, base);
      RecordsThen(recs[1..], end, tail, base);
      ParseFirst(PrintRecord(recs[0]) + end, PrintRecords(recs[1..], end) + tail, base);
      assert lines == [PrintRecord(recs[0]) + end] + (PrintRecords(recs[1..], end) + tail);
      var first := [recs[0].(addr := (base + recs[0].addr) % 0x1_0000)];
      PrependPrepend(first, Moved(recs[1..], base), rest);
      assert first + Moved(recs[1..], base) == Moved(recs, base);
    }
  }

  lemma NotMoved(recs: seq<Record>)
    requires forall r :: r in recs ==> r.Valid()
    ensures Moved(recs, 0) == recs
  {
    forall i | 0 <= i < |recs|
      ensures Moved(recs, 0)[i] == recs[i]
    {
      assert recs[i] in recs;
    }
  }

  /** Reading back the lines that were printed gives the records, whatever follows the end record. */
  lemma FileRoundTrip(recs: seq<Record>, end: string, rest: seq<string>)
    requires forall r :: r in recs ==> r.Valid()
    ensures Parse(PrintRecords(recs, end) + ([EOF_LINE + end] + rest), 0) == Ok(recs)
  {
    hide ParseLine, PrintRecord, Parse;
    RecordsThen(recs, end, [EOF_LINE + end] + rest, 0);
    NotMoved(recs);
    EofLine(end, 0);
    ParseFirst(EOF_LINE + end, rest, 0);
    assert recs + [] == recs;
  }

  // ---- As a file --------------------------------------------------------------------------

  /** A line that one call of fgets takes whole. */
  predicate IsLine(line: string) {
    0 < |line| <= LINE_MAX && line[|line| - 1] == '\n' && forall i :: 0 <= i < |line| - 1 ==> line[i] != '\n'
  }

  function Text(lines: seq<string>): string {
    if lines == [] then "" else lines[0] + Text(lines[1..])
  }

  lemma {:induction false} PieceOfLine(line: string, rest: string, room: nat)
    requires IsLine(line) && |line| <= room
    ensures Piece(line + rest, room) == |line|
    decreases |line|
  {
    hide Piece;
    PieceFirst(line + rest, room);
    if |line| == 1 {
    } else {
      PieceOfLine(line[1..], rest, room - 1);
      assert (line + rest)[1..] == line[1..] + rest;
    }
  }

  lemma {:induction false} LinesOfText(lines: seq<string>, rest: string)
    requires forall l :: l in lines ==> IsLine(l)
    ensures Lines(Text(lines) + rest) == lines + Lines(rest)
    decreases |lines|
  {
    hide Piece, IsLine;
    if lines == [] {
      assert "" + rest == rest;
    } else {
      var tail := Text(lines[1..]) + rest;
      LinesOfText(lines[1..], rest);
      LineTaken(lines[0], tail);
      assert Text(lines) + rest == lines[0] + tail;
      assert lines == [lines[0]] + lines[1..];
    }
  }

  lemma LineTaken(line: string, rest: string)
    requires IsLine(line)
    ensures Lines(line + rest) == [line] + Lines(rest)
  {
    hide Piece;
    PieceOfLine(line, rest, LINE_MAX);
    assert (line + rest)[..|line|] == line && (line + rest)[|line|..] == rest;
  }

  lemma {:induction false} TextHasNoNewline(bs: seq<byte>)
    ensures forall i :: 0 <= i < |HexText(bs)| ==> HexText(bs)[i] != '\n'
  {
    if bs == [] {
    } else {
      TextHasNoNewline(bs[1..]);
    }
  }

  lemma {:induction false} PrintedAreLines(recs: seq<Record>)
    requires forall r :: r in recs ==> r.Valid()
    ensures forall l :: l in PrintRecords(recs, "\n") ==> IsLine(l)
    decreases |recs|
  {
    hide HexText;
    if recs == [] {
    } else {
      TextHasNoNewline(RecordBytes(recs[0]));
      PrintedAreLines(recs[1..]);
    }
  }

  /** A file of printed records, one a line, reads back as the records: no line is too long for the
      reader's buffer, and nothing after the end record matters. */
  lemma TextRoundTrip(recs: seq<Record>, rest: string)
    requires forall r :: r in recs ==> r.Valid()
    ensures Parse(Lines(Text(PrintRecords(recs, "\n") + [EOF_LINE + "\n"]) + rest), 0) == Ok(recs)
  {
    hide Parse, Piece, PrintRecord;
    var lines := PrintRecords(recs, "\n") + [EOF_LINE + "\n"];
    PrintedAreLines(recs);
    assert IsLine(EOF_LINE + "\n");
    LinesOfText(lines, rest);
    FileRoundTrip(recs, "\n", Lines(rest));
    assert lines + Lines(rest) == PrintRecords(recs, "\n") + ([EOF_LINE + "\n"] + Lines(rest));
  }

  // ---- Extended segments ------------------------------------------------------------------

  /** After an extended segment address record the same lines give the records moved by sixteen times
      its operand, whatever base was in force before. */
  lemma SegmentRoundTrip(line: string, recs: seq<Record>, end: string, rest: seq<string>, base: nat)
    requires forall r :: r in recs ==> r.Valid()
    requires |line| > 0 && line[0] == ':' && HexRun(line, 1, 4).Some? && HexRun(line, 1, 4).value[3] == 0x02
    requires HexRun(line, 9, 2).Some?
    ensures var x := HexRun(line, 9, 2).value;
            Parse([line] + (PrintRecords(recs, end) + ([EOF_LINE + end] + rest)), base) == Ok(Moved(recs, 16 * Word(x[0], x[1])))
  {
    hide PrintRecord, HexRun, Word, Sum, U8;
    var x := HexRun(line, 9, 2).value;
    var segment := 16 * Word(x[0], x[1]);
    var lines := PrintRecords(recs, end) + ([EOF_LINE + end] + rest);
    assert ParseLine(line, base) == Base(segment);
    hide ParseLine, Parse;
    ParseFirst(line, lines, base);
    RecordsThen(recs, end, [EOF_LINE + end] + rest, segment);
    EofLine(end, segment);
    ParseFirst(EOF_LINE + end, rest, segment);
    assert Moved(recs, segment) + [] == Moved(recs, segment);
  }

  lemma {:induction false} SumUpdate(bs: seq<byte>, k: nat, v: byte)
    requires k < |bs|
    ensures Sum(bs[k := v]) == Sum(bs) - bs[k] as nat + v as nat
    decreases k
  {
    if k > 0 {
      SumUpdate(bs[1..], k - 1, v);
      assert bs[k := v][1..] == bs[1..][k - 1 := v];
    } else {
      assert bs[k := v][1..] == bs[1..];
    }
  }

  /** Changing any one address, data or checksum byte of a record makes the line malformed. */
  lemma OneByteDamage(r: Record, k: nat, v: byte, end: string, base: nat)
    requires r.Valid() && k < |RecordBytes(r)| && k != 0 && k != 3 && v != RecordBytes(r)[k]
    ensures ParseLine(":" + HexText(RecordBytes(r)[k := v]) + end, base) == Bad
  {
    hide HexText, Sum, U8, ParseLine, Word;
    var bs := RecordBytes(r);
    ChecksumCloses([|r.data|, r.addr / 256, r.addr % 256, 0] + r.data);
    SumUpdate(bs, k, 0);
    SumUpdate(bs, k, v);
    NotAMultiple(Sum(bs), bs[k], v);
    DataLine(bs[k := v], end, base);
  }

  lemma NotAMultiple(sum: nat, was: byte, now: byte)
    requires sum % 256 == 0 && sum >= was && was != now
    ensures (sum - was as nat + now as nat) % 256 != 0
  {
  }

  /** And a file in which one record is damaged like that is refused as a whole. */
  lemma DamagedFileRefused(before: seq<Record>, r: Record, k: nat, v: byte, end: string, rest: seq<string>)
    requires forall o :: o in before ==> o.Valid()
    requires r.Valid() && k < |RecordBytes(r)| && k != 0 && k != 3 && v != RecordBytes(r)[k]
    ensures Parse(PrintRecords(before, end) + ([":" + HexText(RecordBytes(r)[k := v]) + end] + rest), 0) == Malformed
  {
    hide ParseLine, PrintRecord, HexText, RecordBytes, Parse;
    var line := ":" + HexText(RecordBytes(r)[k := v]) + end;
    RecordsThen(before, end, [line] + rest, 0);
    OneByteDamage(r, k, v, end, 0);
    ParseFirst(line, rest, 0);
  }

  // ---- Extended addresses ----------------------------------------------------------------

  /** Only the base modulo 65536 can matter, because record addresses are cut to 16 bits. */
  lemma {:induction false} BaseModulo(lines: seq<string>, base: nat)
    ensures Parse(lines, base) == Parse(lines, base % 0x1_0000)
    decreases |lines|
  {
    if lines == [] {
    } else {
      LineBase(lines[0], base);
      hide ParseLine;
      BaseModulo(lines[1..], base);
    }
  }

  lemma LineBase(line: string, base: nat)
    ensures ParseLine(line, base) == ParseLine(line, base % 0x1_0000)
  {
    hide HexRun, Sum, U8, Word;
  }

  lemma Multiple(n: nat)
    ensures n * 0x1_0000 % 0x1_0000 == 0
  {
  }

  /** So an extended linear address record has no effect at all: the next lines are read as if the
      base were zero. */
  lemma LinearBaseIgnored(line: string, rest: seq<string>, base: nat)
    requires |line| > 0 && line[0] == ':' && HexRun(line, 1, 4).Some? && HexRun(line, 1, 4).value[3] == 0x04
    requires HexRun(line, 9, 2).Some?
    ensures Parse([line] + rest, base) == Parse(rest, 0)
  {
    hide HexRun, Word, Sum, U8;
    var x := HexRun(line, 9, 2).value;
    Multiple(Word(x[0], x[1]));
    BaseModulo(rest, Word(x[0], x[1]) * 0x1_0000);
    assert ([line] + rest)[1..] == rest;
  }
}
