/** The host loader's Intel HEX reader: what it accepts, its inverse, and the checksum. */
module IntelHex {
  import opened Bytes

  /** struct fw_record; addresses are 16 bits wide and data is at most 255 bytes. */
  datatype Record = Record(addr: nat, data: seq<byte>) {
    predicate Valid() {
      addr < 0x1_0000 && |data| < 256
    }
  }

  /** What one line does to the loop of parse_ihex. */
  datatype Line = Skip | Eof | Base(base: nat) | Data(record: Record) | Bad

  /** The records, or the result -1. */
  datatype Parsed = Ok(records: seq<Record>) | Malformed

  function Digit(c: char): Option<nat> {
    if '0' <= c <= '9' then Some((c - '0') as nat)
    else if 'A' <= c <= 'F' then Some((c - 'A') as nat + 10)
    else if 'a' <= c <= 'f' then Some((c - 'a') as nat + 10)
    else None
  }

  /** isspace. */
  predicate IsSpace(c: char) {
    c == ' ' || '\t' <= c <= '\r'
  }

  /** hexbyte at position i: two characters that strtol takes whole.  Those are two hexadecimal digits,
      or white space or a sign and one digit. */
  function HexByte(s: string, i: nat): Option<byte> {
    if i + 2 > |s| then None
    else
      DigitBound(s[i]);
      DigitBound(s[i + 1]);
      match (Digit(s[i]), Digit(s[i + 1]))
      case (Some(h), Some(l)) => Some(16 * h + l)
      case (None, Some(l)) =>
        if IsSpace(s[i]) || s[i] == '+' then Some(l) else if s[i] == '-' then Some(U8(-(l as int))) else None
      case _ => None
  }

  lemma DigitBound(c: char)
    ensures Digit(c).Some? ==> Digit(c).value < 16
  {
  }

  /** n bytes in a row. */
  function HexRun(s: string, i: nat, n: nat): (r: Option<seq<byte>>)
    ensures r.Some? ==> |r.value| == n
    decreases n
  {
    if n == 0 then Some([])
    else
      match (HexByte(s, i), HexRun(s, i + 2, n - 1))
      case (Some(b), Some(bs)) => Some([b] + bs)
      case _ => None
  }

  /** Two bytes, the high one first. */
  function Word(hi: nat, lo: nat): nat {
    hi * 256 + lo
  }

  function Sum(bs: seq<byte>): nat {
    if bs == [] then 0 else bs[0] as nat + Sum(bs[1..])
  }

  /** One turn of the loop of parse_ihex.  Only data records are checksummed. */
  function ParseLine(line: string, base: nat): Line {
    if line == "" || line[0] != ':' then Skip
    else
      match HexRun(line, 1, 4)
      case None => Bad
      case Some(h) =>
        if h[3] == 0x01 then Eof
        else if h[3] == 0x02 || h[3] == 0x04 then
          match HexRun(line, 9, 2)
          case None => Bad
          case Some(x) => Base(Word(x[0], x[1]) * if h[3] == 0x04 then 0x1_0000 else 16)
        else if h[3] != 0x00 then Skip
        else
          var len: nat := h[0];
          match HexRun(line, 9, len + 1)
          case None => Bad
          case Some(d) =>
            if U8(Sum(h) + Sum(d)) != 0 then Bad
            else Data(Record((base + Word(h[1], h[2])) % 0x1_0000, d[..len]))
  }

  function Parse(lines: seq<string>, base: nat): Parsed {
    if lines == [] then Ok([])
    else
      match ParseLine(lines[0], base)
      case Bad => Malformed
      case Eof => Ok([])
      case Skip => Parse(lines[1..], base)
      case Base(b) => Parse(lines[1..], b)
      case Data(r) => Prepend([r], Parse(lines[1..], base))
  }

  function Prepend(recs: seq<Record>, p: Parsed): Parsed {
    if p.Ok? then Ok(recs + p.records) else Malformed
  }

  // ---- Lines of a file -------------------------------------------------------------------

  /** What fgets puts in the line buffer at most, sizeof(line) - 1. */
  const LINE_MAX := 599

  /** The length of the piece one call of fgets takes: up to a newline, the end or the buffer's size. */
  function Piece(text: string, room: nat): (n: nat)
    requires text != "" && room > 0
    ensures 1 <= n <= |text| && n <= room
    decreases room
  {
    if text[0] == '\n' || |text| == 1 || room == 1 then 1 else 1 + Piece(text[1..], room - 1)
  }

  /** The pieces in which fgets reads a file. */
  function Lines(text: string): seq<string>
    decreases |text|
  {
    if text == "" then []
    else
      var n := Piece(text, LINE_MAX);
      [text[..n]] + Lines(text[n..])
  }

  // ---- The reader as written -------------------------------------------------------------

  lemma {:induction false} HexRunSnoc(s: string, i: nat, n: nat)
    ensures HexRun(s, i, n + 1) == if HexRun(s, i, n).Some? && HexByte(s, i + 2 * n).Some?
                                   then Some(HexRun(s, i, n).value + [HexByte(s, i + 2 * n).value]) else None
    decreases n
  {
    hide HexByte;
    var first, rest := HexByte(s, i), HexRun(s, i + 2, n);
    assert HexRun(s, i, n + 1) == if first.Some? && rest.Some? then Some([first.value] + rest.value) else None;
    if n > 0 {
      HexRunSnoc(s, i + 2, n - 1);
      var mid, last := HexRun(s, i + 2, n - 1), HexByte(s, i + 2 * n);
      if first.Some? && mid.Some? && last.Some? {
        assert [first.value] + (mid.value + [last.value]) == [first.value] + mid.value + [last.value];
      }
    } else if first.Some? {
      assert [first.value] + [] == [] + [first.value];
    }
  }

  lemma {:induction false} SumSnoc(bs: seq<byte>, b: byte)
    ensures Sum(bs + [b]) == Sum(bs) + b as nat
  {
    if bs == [] {
    } else {
      SumSnoc(bs[1..], b);
      assert (bs + [b])[1..] == bs[1..] + [b];
    }
  }

  lemma HexRunFails(s: string, i: nat, k: nat, n: nat)
    requires k <= n && HexRun(s, i, k).None?
    ensures HexRun(s, i, n).None?
    decreases n
  {
    hide HexByte;
    if k == n {
    } else {
      HexRunFails(s, i, k, n - 1);
      HexRunSnoc(s, i, n - 1);
    }
  }

  lemma Header(s: string)
    ensures var a, b, c, d := HexByte(s, 1), HexByte(s, 3), HexByte(s, 5), HexByte(s, 7);
            && (HexRun(s, 1, 4).Some? <==> a.Some? && b.Some? && c.Some? && d.Some?)
            && (HexRun(s, 1, 4).Some? ==> HexRun(s, 1, 4).value == [a.value, b.value, c.value, d.value])
  {
    hide HexByte;
    HexRunSnoc(s, 1, 0);
    HexRunSnoc(s, 1, 1);
    HexRunSnoc(s, 1, 2);
    HexRunSnoc(s, 1, 3);
  }

  lemma HexPair(s: string)
    ensures var a, b := HexByte(s, 9), HexByte(s, 11);
            && (HexRun(s, 9, 2).Some? <==> a.Some? && b.Some?)
            && (HexRun(s, 9, 2).Some? ==> HexRun(s, 9, 2).value == [a.value, b.value])
  {
    hide HexByte;
    HexRunSnoc(s, 9, 0);
    HexRunSnoc(s, 9, 1);
  }

  lemma EmptySums(line: string, start: byte)
    ensures HexRun(line, 9, 0) == Some([]) && Sum([]) == 0 && U8(start) == start
  {
  }

  /** The data bytes and the checksum byte of a data record, with the 8-bit running sum. */
  method ReadData(line: string, len: nat, start: byte) returns (data: seq<byte>, good: bool)
    ensures var d := HexRun(line, 9, len + 1);
            good == (d.Some? && U8(start as nat + Sum(d.value)) == 0) && (good ==> data == d.value[..len])
  {
    hide U8, Sum, HexRun, HexByte;
    var sum := start;
    data := [];
    EmptySums(line, start);
    for i := 0 to len
      invariant HexRun(line, 9, i) == Some(data) && sum == U8(start as nat + Sum(data))
    {
      HexRunSnoc(line, 9, i);
      var b := HexByte(line, 9 + i * 2);
      if b.None? {
        HexRunFails(line, 9, i + 1, len + 1);
        return data, false;
      }
      SumSnoc(data, b.value);
      U8Sum(start as nat + Sum(data), b.value);
      data := data + [b.value];
      sum := U8(sum as nat + b.value as nat);
    }
    HexRunSnoc(line, 9, len);
    var b := HexByte(line, 9 + len * 2);
    if b.None? {
      return data, false;
    }
    SumSnoc(data, b.value);
    U8Sum(start as nat + Sum(data), b.value);
    assert (data + [b.value])[..len] == data;
    good := U8(sum as nat + b.value as nat) == 0;
  }

  lemma SumFour(a: byte, b: byte, c: byte, d: byte)
    ensures Sum([a, b, c, d]) == a as nat + b as nat + c as nat + d as nat
  {
    SumSnoc([a, b, c], d);
    SumSnoc([a, b], c);
    SumSnoc([a], b);
    assert [a, b, c, d] == [a, b, c] + [d] && [a, b, c] == [a, b] + [c] && [a, b] == [a] + [b];
  }

  lemma U8Sum(a: nat, b: nat)
    ensures U8(U8(a) as nat + b) == U8(a + b)
  {
  }

  lemma PrependPrepend(a: seq<Record>, b: seq<Record>, p: Parsed)
    ensures Prepend(a, Prepend(b, p)) == Prepend(a + b, p)
  {
    if p.Ok? {
      assert a + (b + p.records) == a + b + p.records;
    }
  }

  lemma WordParts(hi: byte, lo: byte)
    ensures Word(hi, lo) / 256 == hi && Word(hi, lo) % 256 == lo
  {
  }

  /** The body of the loop of parse_ihex. */
  method ReadLine(line: string, base: nat) returns (r: Line)
    ensures r == ParseLine(line, base)
  {
    hide HexByte, HexRun, Sum, U8, Word;
    if line == "" || line[0] != ':' {
      return Skip;
    }
    Header(line);
    var len, hi, lo, kind := HexByte(line, 1), HexByte(line, 3), HexByte(line, 5), HexByte(line, 7);
    if len.None? || hi.None? || lo.None? || kind.None? {
      return Bad;
    }
    WordParts(hi.value, lo.value);
    var addr := Word(hi.value, lo.value);
    var sum := U8(len.value as nat + addr / 256 + addr % 256 + kind.value as nat);
    if kind.value == 0x01 {
      return Eof;
    }
    if kind.value == 0x02 || kind.value == 0x04 {
      HexPair(line);
      var h, l := HexByte(line, 9), HexByte(line, 11);
      if h.None? || l.None? {
        return Bad;
      }
      return Base(Word(h.value, l.value) * if kind.value == 0x04 then 0x1_0000 else 16);
    }
    if kind.value != 0x00 {
      return Skip;
    }
    var count: nat := len.value;
    var data, good := ReadData(line, count, sum);
    SumFour(len.value, hi.value, lo.value, kind.value);
    var d := HexRun(line, 9, count + 1);
    if d.Some? {
      U8Sum(Sum([len.value, hi.value, lo.value, kind.value]), Sum(d.value));
    }
    if !good {
      return Bad;
    }
    return Data(Record((base + addr) % 0x1_0000, data));
  }

  lemma PieceFirst(text: string, room: nat)
    requires text != "" && room > 0
    ensures Piece(text, room) == if text[0] == '\n' || |text| == 1 || room == 1 then 1 else 1 + Piece(text[1..], room - 1)
  {
  }

  /** fgets: one piece of the text from position pos on. */
  method Fgets(text: string, pos: nat) returns (end: nat)
    requires pos < |text|
    ensures end == pos + Piece(text[pos..], LINE_MAX)
  {
    hide Piece;
    end := pos + 1;
    PieceFirst(text[pos..], LINE_MAX);
    while text[end - 1] != '\n' && end < |text| && end - pos < LINE_MAX
      invariant pos < end <= |text| && end - pos <= LINE_MAX
      invariant pos + Piece(text[pos..], LINE_MAX) == end - 1 + Piece(text[end - 1..], LINE_MAX - (end - 1 - pos))
      decreases |text| - end
    {
      PieceFirst(text[end - 1..], LINE_MAX - (end - 1 - pos));
      assert text[end - 1..][1..] == text[end..];
      end := end + 1;
    }
    PieceFirst(text[end - 1..], LINE_MAX - (end - 1 - pos));
  }

  lemma ParseFirst(line: string, rest: seq<string>, base: nat)
    ensures var l := ParseLine(line, base);
            Parse([line] + rest, base) ==
              if l.Bad? then Malformed else if l.Eof? then Ok([])
              else if l.Data? then Prepend([l.record], Parse(rest, base))
              else Parse(rest, if l.Base? then l.base else base)
  {
    hide ParseLine;
    assert ([line] + rest)[1..] == rest;
  }

  /** parse_ihex; file is the text of the file, if it can be opened. */
  method ParseIhex(file: Option<string>) returns (r: Parsed)
    ensures r == if file.None? then Malformed else Parse(Lines(file.value), 0)
  {
    hide ParseLine, Piece, Parse;
    if file.None? {
      return Malformed;
    }
    var text := file.value;
    var recs: seq<Record> := [];
    var base: nat := 0;
    var pos := 0;
    assert text[0..] == text;
    PrependNothing(Parse(Lines(text), 0));
    while pos < |text|
      invariant pos <= |text|
      invariant Parse(Lines(text), 0) == Prepend(recs, Parse(Lines(text[pos..]), base))
    {
      var end := Fgets(text, pos);
      var line := ReadLine(text[pos..end], base);
      assert text[pos..][..end - pos] == text[pos..end] && text[pos..][end - pos..] == text[end..];
      ParseFirst(text[pos..end], Lines(text[end..]), base);
      pos := end;
      match line {
        case Bad => return Malformed;
        case Eof => break;
        case Skip =>
        case Base(b) => base := b;
        case Data(record) =>
          PrependPrepend(recs, [record], Parse(Lines(text[pos..]), base));
          recs := recs + [record];
      }
    }
    ParseNothing(base);
    assert recs + [] == recs;
    r := Ok(recs);
  }

  lemma PrependNothing(p: Parsed)
    ensures Prepend([], p) == p
  {
    if p.Ok? {
      assert [] + p.records == p.records;
    }
  }

  lemma ParseNothing(base: nat)
    ensures Parse([], base) == Ok([])
  {
  }
}
