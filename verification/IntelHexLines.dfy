/** What the Intel HEX reader makes of lines that no printer of records writes: text between the records,
    other record types, cut lines, lower-case digits, and how a text falls into lines. */
module IntelHexLines {
  import opened Bytes
  import opened IntelHex
  import opened IntelHexRoundTrip

  // ---- Lines that do not matter ------------------------------------------------------------

  /** A line without a colon in front, or a record of a type other than data, end and extended address. */
  predicate Stray(line: string) {
    line == "" || line[0] != ':' || (HexRun(line, 1, 4).Some? && HexRun(line, 1, 4).value[3] !in {0, 1, 2, 4})
  }

  function Relevant(lines: seq<string>): seq<string> {
    if lines == [] then [] else (if Stray(lines[0]) then [] else [lines[0]]) + Relevant(lines[1..])
  }

  /** Whatever it holds after its header, a record of another type is stray: start addresses, for one. */
  lemma OtherTypeIsStray(bs: seq<byte>, end: string)
    requires |bs| >= 4 && bs[3] !in {0, 1, 2, 4}
    ensures Stray(":" + HexText(bs) + end)
  {
    hide HexRun, HexText;
    RunAt(bs, 0, 4, end);
  }

  lemma StrayLine(line: string, base: nat)
    requires Stray(line)
    ensures ParseLine(line, base) == Skip
  {
    hide HexRun;
  }

  /** Stray lines anywhere in a file change nothing. */
  lemma {:induction false} StrayIgnored(lines: seq<string>, base: nat)
    ensures Parse(lines, base) == Parse(Relevant(lines), base)
    decreases |lines|
  {
    hide ParseLine, Stray, Parse;
    if lines == [] {
    } else {
      var line, rest := lines[0], lines[1..];
      assert lines == [line] + rest;
      var l := ParseLine(line, base);
      ParseFirst(line, rest, base);
      StrayIgnored(rest, if l.Base? then l.base else base);
      if Stray(line) {
        StrayLine(line, base);
        assert Relevant(lines) == Relevant(rest);
      } else {
        ParseFirst(line, Relevant(rest), base);
        assert Relevant(lines) == [line] + Relevant(rest);
      }
    }
  }

  // ---- Cut lines ---------------------------------------------------------------------------

  predicate NoDigits(end: string) {
    forall c :: c in end ==> Digit(c).None?
  }

  lemma PastTheCut(cut: string, end: string, i: nat)
    requires i + 1 >= |cut| && NoDigits(end)
    ensures HexByte(cut + end, i).None?
  {
    var s := cut + end;
    if i + 2 <= |s| {
      assert s[i + 1] == end[i + 1 - |cut|];
    }
  }

  lemma {:induction false} HexTextConcat(a: seq<byte>, b: seq<byte>)
    ensures HexText(a + b) == HexText(a) + HexText(b)
    decreases |a|
  {
    hide HexText, DigitChar;
    HexTextFirst(a);
    if a == [] {
      assert a + b == b;
    } else {
      HexTextConcat(a[1..], b);
      HexTextFirst(a + b);
      assert (a + b)[1..] == a[1..] + b;
    }
  }

  lemma HexTextFirst(bs: seq<byte>)
    ensures HexText(bs) == if bs == [] then ""
                           else [DigitChar(bs[0] / 16), DigitChar(bs[0] % 16)] + HexText(bs[1..])
  {
    hide DigitChar;
  }

  lemma TextPrefix(bs: seq<byte>, m: nat)
    requires m <= |bs|
    ensures HexText(bs)[..2 * m] == HexText(bs[..m])
  {
    hide HexText;
    HexTextConcat(bs[..m], bs[m..]);
    assert bs == bs[..m] + bs[m..];
  }

  /** What is left of a record's text is that of its first bytes, and perhaps one more digit. */
  lemma CutText(bs: seq<byte>, k: nat) returns (m: nat, digit: string)
    requires 0 < k <= 1 + 2 * |bs|
    ensures m == (k - 1) / 2 <= |bs| && (":" + HexText(bs))[..k] == ":" + HexText(bs[..m]) + digit
  {
    hide HexText;
    m := (k - 1) / 2;
    TextPrefix(bs, m);
    var text := HexText(bs);
    digit := text[2 * m..k - 1];
    CutApart(text, 2 * m, k);
  }

  lemma CutApart(text: string, n: nat, k: nat)
    requires 0 < k && n <= k - 1 <= |text|
    ensures (":" + text)[..k] == ":" + text[..n] + text[n..k - 1]
  {
  }

  lemma ShortHeader(line: string, base: nat)
    requires line != "" && line[0] == ':' && HexByte(line, 7).None?
    ensures ParseLine(line, base) == Bad
  {
    hide HexRun, HexByte;
    HexRunSnoc(line, 1, 3);
  }

  lemma ShortData(line: string, base: nat)
    requires line != "" && line[0] == ':' && HexRun(line, 1, 4).Some? && HexRun(line, 1, 4).value[3] == 0
    requires HexByte(line, 9 + 2 * HexRun(line, 1, 4).value[0] as nat).None?
    ensures ParseLine(line, base) == Bad
  {
    hide HexRun, HexByte, Sum, U8, Word;
    HexRunSnoc(line, 9, HexRun(line, 1, 4).value[0]);
  }

  /** A record that is cut off anywhere after its colon is refused, whatever ends the line, as long as
      that has no digits. */
  lemma TruncatedRefused(r: Record, k: nat, end: string, base: nat)
    requires r.Valid() && 0 < k < |PrintRecord(r)| && NoDigits(end)
    ensures ParseLine(PrintRecord(r)[..k] + end, base) == Bad
  {
    var bs, cut := RecordBytes(r), PrintRecord(r)[..k];
    assert |bs| == |r.data| + 5 && bs[0] == |r.data| && bs[3] == 0;
    hide HexText, ParseLine, HexRun, HexByte, RecordBytes, NoDigits;
    var line := cut + end;
    assert line[0] == ':';
    if k < 9 {
      PastTheCut(cut, end, 7);
      ShortHeader(line, base);
    } else {
      var m, digit := CutText(bs, k);
      var tail := digit + end;
      assert line == ":" + HexText(bs[..m]) + tail;
      RunAt(bs[..m], 0, 4, tail);
      assert bs[..m][0..4] == bs[..4];
      PastTheCut(cut, end, 9 + 2 * |r.data|);
      ShortData(line, base);
    }
  }

  /** So a file that breaks off inside a record is refused. */
  lemma TruncatedFileRefused(before: seq<Record>, r: Record, k: nat, end: string)
    requires (forall o :: o in before ==> o.Valid()) && r.Valid() && 0 < k < |PrintRecord(r)|
    ensures Parse(PrintRecords(before, end) + [PrintRecord(r)[..k]], 0) == Malformed
  {
    hide ParseLine, PrintRecord, PrintRecords, Parse;
    var line := PrintRecord(r)[..k];
    assert line + "" == line;
    TruncatedRefused(r, k, "", 0);
    RecordsThen(before, end, [line], 0);
    ParseFirst(line, [], 0);
    assert [line] + [] == [line];
  }

  // ---- What strtol does --------------------------------------------------------------------

  /** The value strtol returns, and how many characters it has used. */
  datatype Number = Number(value: int, end: nat)

  function Spaces(s: string): (n: nat)
    ensures n <= |s|
  {
    if s != "" && IsSpace(s[0]) then 1 + Spaces(s[1..]) else 0
  }

  /** The digits from position i on, after the value so far. */
  function Digits(s: string, i: nat, value: nat): Number
    requires i <= |s|
    decreases |s| - i
  {
    if i < |s| && Digit(s[i]).Some? then Digits(s, i + 1, 16 * value + Digit(s[i]).value) else Number(value, i)
  }

  /** strtol for base 16: white space, a sign, a prefix if a digit follows it, digits; nothing is used if
      there are no digits. */
  function Strtol(s: string): Number {
    var i := Spaces(s);
    var j := if i < |s| && (s[i] == '+' || s[i] == '-') then i + 1 else i;
    var k := if j + 2 < |s| && s[j] == '0' && (s[j + 1] == 'x' || s[j + 1] == 'X') && Digit(s[j + 2]).Some? then j + 2 else j;
    var r := Digits(s, k, 0);
    if r.end == k then Number(0, 0) else r.(value := if j > i && s[i] == '-' then -r.value else r.value)
  }

  lemma TwoDigits(s: string)
    requires |s| == 2
    ensures Digits(s, 2, 0) == Number(0, 2)
    ensures Digits(s, 1, 0) == if Digit(s[1]).Some? then Number(Digit(s[1]).value, 2) else Number(0, 1)
    ensures Digits(s, 0, 0) == if Digit(s[0]).None? then Number(0, 0)
                               else if Digit(s[1]).None? then Number(Digit(s[0]).value, 1)
                               else Number(16 * Digit(s[0]).value + Digit(s[1]).value, 2)
  {
    hide Digit;
    LastDigit(s, 0);
    if Digit(s[0]).Some? {
      LastDigit(s, Digit(s[0]).value);
    }
  }

  lemma LastDigit(s: string, v: nat)
    requires |s| == 2
    ensures Digits(s, 1, v) == if Digit(s[1]).Some? then Number(16 * v + Digit(s[1]).value, 2) else Number(v, 1)
  {
    hide Digit;
  }

  lemma TwoSpaces(s: string)
    requires |s| == 2
    ensures Spaces(s) == if !IsSpace(s[0]) then 0 else if !IsSpace(s[1]) then 1 else 2
  {
    hide IsSpace;
    assert s[1..][1..] == "";
  }

  lemma CharKinds(c: char)
    ensures Digit(c).Some? ==> !IsSpace(c) && c != '+' && c != '-' && Digit(c).value < 16
    ensures IsSpace(c) ==> c != '+' && c != '-'
  {
  }

  /** hexbyte accepts two characters exactly when strtol uses both. */
  lemma HexByteIsStrtol(s: string, i: nat)
    requires i + 2 <= |s|
    ensures var r := Strtol(s[i..i + 2]);
            HexByte(s, i) == if r.end == 2 then Some(U8(r.value)) else None
  {
    hide Digit, IsSpace, Digits, Spaces;
    var t := s[i..i + 2];
    assert t[0] == s[i] && t[1] == s[i + 1];
    TwoDigits(t);
    TwoSpaces(t);
    CharKinds(t[0]);
    CharKinds(t[1]);
  }

  // ---- Letter case -------------------------------------------------------------------------

  function Lower(c: char): char {
    if 'A' <= c <= 'F' then 'a' + (c - 'A') else c
  }

  /** The same line but for the case of its hexadecimal digits. */
  predicate SameDigits(s: string, t: string) {
    |s| == |t| && forall i :: 0 <= i < |s| ==> Lower(s[i]) == Lower(t[i])
  }

  lemma DigitCase(c: char, d: char)
    requires Lower(c) == Lower(d)
    ensures Digit(c) == Digit(d) && IsSpace(c) == IsSpace(d)
    ensures (c == '+' <==> d == '+') && (c == '-' <==> d == '-') && (c == ':' <==> d == ':')
  {
  }

  lemma ByteCase(s: string, t: string, i: nat)
    requires SameDigits(s, t)
    ensures HexByte(s, i) == HexByte(t, i)
  {
    hide Digit, IsSpace, Lower, U8;
    if i + 2 <= |s| {
      DigitCase(s[i], t[i]);
      DigitCase(s[i + 1], t[i + 1]);
    }
  }

  lemma {:induction false} RunCase(s: string, t: string, i: nat, n: nat)
    requires SameDigits(s, t)
    ensures HexRun(s, i, n) == HexRun(t, i, n)
    decreases n
  {
    hide HexByte, SameDigits;
    if n == 0 {
    } else {
      ByteCase(s, t, i);
      RunCase(s, t, i + 2, n - 1);
    }
  }

  lemma LineCase(s: string, t: string, base: nat)
    requires SameDigits(s, t)
    ensures ParseLine(s, base) == ParseLine(t, base)
  {
    hide HexRun, Lower, Sum, U8, Word;
    if s != "" {
      DigitCase(s[0], t[0]);
      RunCase(s, t, 1, 4);
      RunCase(s, t, 9, 2);
      if HexRun(s, 1, 4).Some? {
        RunCase(s, t, 9, HexRun(s, 1, 4).value[0] as nat + 1);
      }
    }
  }

  /** The case of the digits never matters. */
  lemma {:induction false} FileCase(lines: seq<string>, lines': seq<string>, base: nat)
    requires |lines| == |lines'| && forall i :: 0 <= i < |lines| ==> SameDigits(lines[i], lines'[i])
    ensures Parse(lines, base) == Parse(lines', base)
    decreases |lines|
  {
    hide ParseLine, SameDigits, Parse;
    if lines == [] {
      assert lines == lines';
    } else {
      var l := ParseLine(lines[0], base);
      assert lines == [lines[0]] + lines[1..] && lines' == [lines'[0]] + lines'[1..];
      LineCase(lines[0], lines'[0], base);
      ParseFirst(lines[0], lines[1..], base);
      ParseFirst(lines'[0], lines'[1..], base);
      FileCase(lines[1..], lines'[1..], if l.Base? then l.base else base);
    }
  }

  /** A file whose lines are those of printed records and the end record, with digits in either case and
      any stray lines between them, reads back as the records. */
  lemma TolerantRoundTrip(recs: seq<Record>, end: string, rest: seq<string>, lines: seq<string>)
    requires forall r :: r in recs ==> r.Valid()
    requires var printed, found := PrintRecords(recs, end) + ([EOF_LINE + end] + rest), Relevant(lines);
             |found| == |printed| && forall i :: 0 <= i < |found| ==> SameDigits(found[i], printed[i])
    ensures Parse(lines, 0) == Ok(recs)
  {
    hide Parse, PrintRecords, PrintRecord, SameDigits, Relevant;
    StrayIgnored(lines, 0);
    FileCase(Relevant(lines), PrintRecords(recs, end) + ([EOF_LINE + end] + rest), 0);
    FileRoundTrip(recs, end, rest);
  }

  // ---- How a text falls into lines -----------------------------------------------------------

  /** One piece: up to a newline if there is one in reach, else to the end or as far as the buffer goes. */
  lemma {:induction false} PieceExactly(text: string, room: nat)
    requires text != "" && room > 0
    ensures var n := Piece(text, room);
            && (forall i :: 0 <= i < n - 1 ==> text[i] != '\n')
            && (text[n - 1] == '\n' || n == room || n == |text|)
    decreases room
  {
    if text[0] == '\n' || |text| == 1 || room == 1 {
    } else {
      PieceExactly(text[1..], room - 1);
    }
  }

  lemma LinesFirst(text: string)
    ensures text != "" ==> var n := Piece(text, LINE_MAX); Lines(text) == [text[..n]] + Lines(text[n..])
    ensures Lines("") == []
  {
    hide Piece;
  }

  /** A piece is not empty or too long and has no newline inside; unless it is the last one, it ends with a
      newline or fills the buffer. */
  predicate IsPiece(l: string, last: bool) {
    && 0 < |l| <= LINE_MAX && (forall i :: 0 <= i < |l| - 1 ==> l[i] != '\n')
    && (l[|l| - 1] == '\n' || |l| == LINE_MAX || last)
  }

  /** The lines of a text are such pieces, and put together they are the text. */
  lemma {:induction false} LinesExactly(text: string)
    ensures Text(Lines(text)) == text
    ensures forall k :: 0 <= k < |Lines(text)| ==> IsPiece(Lines(text)[k], k == |Lines(text)| - 1)
    decreases |text|
  {
    hide Piece, Lines, IsPiece;
    LinesFirst(text);
    if text != "" {
      var n := Piece(text, LINE_MAX);
      var first, rest := text[..n], Lines(text[n..]);
      LinesExactly(text[n..]);
      FirstPiece(text);
      assert Lines(text)[1..] == rest && text == first + text[n..];
      forall k | 0 <= k < |Lines(text)|
        ensures IsPiece(Lines(text)[k], k == |Lines(text)| - 1)
      {
        if k > 0 {
          assert Lines(text)[k] == rest[k - 1];
        }
      }
    }
  }

  lemma FirstPiece(text: string)
    requires text != ""
    ensures var n := Piece(text, LINE_MAX); IsPiece(text[..n], Lines(text[n..]) == [])
  {
    hide Piece;
    PieceExactly(text, LINE_MAX);
    LinesFirst("");
  }
}
