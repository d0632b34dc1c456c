/**
 The two output formats of the hex dump tool: lines of sixteen bytes with an offset and a character
 column, and a C array initializer in lines of twelve bytes.
 */
module HexDump {
  import opened Arithmetic
  import opened Bytes

  /* ---- hexadecimal ---- */

  function HexDigit(d: int): char
    requires 0 <= d < 16
  {
    "0123456789abcdef"[d]
  }

  function DigitValue(c: char): int
  {
    if '0' <= c <= '9' then c as int - '0' as int else c as int - 'a' as int + 10
  }

  lemma DigitRoundTrip(d: int)
    requires 0 <= d < 16
    ensures DigitValue(HexDigit(d)) == d && HexDigit(d) != ' ' && HexDigit(d) != ':'
    ensures HexDigit(d) as int == if d < 10 then 48 + d else 87 + d
  {
    assert HexDigit(d) == if d < 10 then (d + '0' as int) as char else (d - 10 + 'a' as int) as char;
  }

  function HexByte(b: byte): (s: string)
    ensures |s| == 2
  {
    [HexDigit(b / 16), HexDigit(b % 16)]
  }

  function Hex(n: nat): string
  {
    if n < 16 then [HexDigit(n)] else Hex(n / 16) + [HexDigit(n % 16)]
  }

  function HexValue(s: string): int
  {
    if s == [] then 0 else HexValue(s[..|s| - 1]) * 16 + DigitValue(s[|s| - 1])
  }

  function Zeros(n: nat): (s: string)
    ensures |s| == n
  {
    if n == 0 then "" else Zeros(n - 1) + "0"
  }

  function Spaces(n: nat): (s: string)
    ensures |s| == n
  {
    if n == 0 then "" else " " + Spaces(n - 1)
  }

  /** `%08x`: at least eight digits. */
  function Offset(n: nat): string
  {
    if |Hex(n)| < 8 then Zeros(8 - |Hex(n)|) + Hex(n) else Hex(n)
  }

  predicate AllHex(s: string)
  {
    forall c :: c in s ==> c != ':' && c != ' '
  }

  lemma {:induction false} HexRoundTrip(n: nat)
    ensures HexValue(Hex(n)) == n && AllHex(Hex(n)) && Hex(n) != []
  {
    DigitRoundTrip(n % 16);
    var s := Hex(n);
    if n < 16 {
      assert s[..0] == [];
    } else {
      HexRoundTrip(n / 16);
      assert s[..|s| - 1] == Hex(n / 16);
    }
  }

  lemma {:induction false} ZerosValue(n: nat, s: string)
    ensures HexValue(Zeros(n) + s) == HexValue(s)
    decreases n, |s|
  {
    var all := Zeros(n) + s;
    if s != [] {
      assert all[..|all| - 1] == Zeros(n) + s[..|s| - 1];
      ZerosValue(n, s[..|s| - 1]);
    } else if n > 0 {
      assert all == Zeros(n) && all[..|all| - 1] == Zeros(n - 1) == Zeros(n - 1) + [];
      ZerosValue(n - 1, []);
    }
  }

  lemma {:induction false} ZerosHex(n: nat)
    ensures AllHex(Zeros(n))
  {
    if n > 0 {
      ZerosHex(n - 1);
    }
  }

  lemma OffsetRoundTrip(n: nat)
    ensures HexValue(Offset(n)) == n && AllHex(Offset(n))
  {
    HexRoundTrip(n);
    if |Hex(n)| < 8 {
      ZerosValue(8 - |Hex(n)|, Hex(n));
      ZerosHex(8 - |Hex(n)|);
    }
  }

  function Pow16(k: nat): (p: nat)
    ensures p > 0
  {
    if k == 0 then 1 else 16 * Pow16(k - 1)
  }

  lemma DivideBound(n: int, p: int)
    ensures n < 16 * p <==> n / 16 < p
  {
  }

  /** A number takes `k` digits or fewer exactly when it is below the k-th power of sixteen, and begins with a
      zero only if it is zero. */
  lemma {:induction false} HexLength(n: nat, k: nat)
    ensures Hex(n) != [] && (n > 0 ==> DigitValue(Hex(n)[0]) > 0)
    ensures k > 0 ==> (|Hex(n)| <= k <==> n < Pow16(k))
  {
    if n < 16 {
      DigitRoundTrip(n);
      if k > 0 {
        assert Pow16(k) == 16 * Pow16(k - 1);
      }
    } else {
      HexLength(n / 16, if k > 0 then k - 1 else 0);
      DivideBound(n, if k > 0 then Pow16(k - 1) else 1);
      assert Hex(n)[0] == Hex(n / 16)[0];
    }
  }

  /** Eight digits for every number of 32 bits; a longer number takes the digits it needs and no zero before them. */
  lemma OffsetDigits(n: nat)
    ensures |Offset(n)| >= 8 && (|Offset(n)| == 8 <==> n < 0x1_0000_0000)
    ensures |Offset(n)| > 8 ==> DigitValue(Offset(n)[0]) > 0
  {
    HexLength(n, 8);
    assert Pow16(8) == 0x1_0000_0000;
  }

  /* ---- dump lines ---- */

  /** Bytes two by two, pairs separated by a space. */
  function Field(buf: seq<byte>): string
    decreases |buf|
  {
    if buf == [] then ""
    else if |buf| == 1 then HexByte(buf[0])
    else HexByte(buf[0]) + HexByte(buf[1]) + if |buf| == 2 then "" else " " + Field(buf[2..])
  }

  lemma {:induction false} FieldLength(buf: seq<byte>)
    ensures |buf| <= 16 ==> |Field(buf)| <= 39
    ensures buf != [] ==> |Field(buf)| == 2 * |buf| + (|buf| - 1) / 2
    decreases |buf|
  {
    if |buf| > 2 {
      FieldLength(buf[2..]);
    }
  }

  /** Left-justified in 39 columns. */
  function Pad(s: string): string
  {
    if |s| < 39 then s + Spaces(39 - |s|) else s
  }

  function Printable(b: byte): char
  {
    if 32 <= b < 127 then b as char else '.'
  }

  /** The visible ASCII characters and the blank stand for themselves, every other byte for a dot. */
  lemma PrintableIs(b: byte)
    ensures Printable(b) as int == if b < 32 || b > 126 then 46 else b
  {
  }

  lemma {:induction false} CharactersAt(buf: seq<byte>, i: nat)
    requires i < |buf|
    ensures Characters(buf)[i] as int == if buf[i] < 32 || buf[i] > 126 then 46 else buf[i]
  {
    PrintableIs(buf[0]);
    if i > 0 {
      CharactersAt(buf[1..], i - 1);
    }
  }

  function Characters(buf: seq<byte>): (s: string)
    ensures |s| == |buf|
  {
    if buf == [] then "" else [Printable(buf[0])] + Characters(buf[1..])
  }

  function DumpLine(counter: nat, buf: seq<byte>): string
  {
    Offset(counter * 16) + ": " + Pad(Field(buf)) + "  " + Characters(buf)
  }

  function Column(i: nat): (j: nat)
  {
    2 * i + i / 2
  }

  /** The two digits of `b` at column `j`, and a blank behind them if asked for. */
  predicate ByteAt(field: string, j: nat, b: byte, blank: bool)
  {
    && j + 2 <= |field| && field[j] == HexDigit(b / 16) && field[j + 1] == HexDigit(b % 16)
    && (blank ==> j + 2 < |field| && field[j + 2] == ' ')
  }

  lemma FieldFront(buf: seq<byte>)
    requires buf != []
    ensures ByteAt(Field(buf), 0, buf[0], false)
    ensures |buf| > 1 ==> ByteAt(Field(buf), 2, buf[1], |buf| > 2)
    ensures |buf| > 2 ==> |Field(buf)| >= 5 && Field(buf)[5..] == Field(buf[2..])
  {
  }

  lemma ByteShift(field: string, j: nat, b: byte, blank: bool)
    requires |field| >= 5 && ByteAt(field[5..], j, b, blank)
    ensures ByteAt(field, j + 5, b, blank)
  {
  }

  predicate PairFollows(n: nat, i: nat)
  {
    i % 2 == 1 && i + 1 < n
  }

  /** The digits of byte `i` stand two columns a byte further, one more for every pair before it, and a blank
      follows each pair that is not the last. */
  lemma {:induction false} FieldAt(buf: seq<byte>, i: nat)
    requires i < |buf|
    ensures ByteAt(Field(buf), Column(i), buf[i], PairFollows(|buf|, i))
    decreases |buf|
  {
    FieldFront(buf);
    if i >= 2 {
      var rest := buf[2..];
      FieldAt(rest, i - 2);
      FieldBehind(Field(buf), Field(rest), i, rest[i - 2], |buf|);
    }
  }

  lemma FieldBehind(field: string, rest: string, i: nat, b: byte, n: nat)
    requires 2 <= i < n && |field| >= 5 && field[5..] == rest
    requires ByteAt(rest, Column(i - 2), b, PairFollows(n - 2, i - 2))
    ensures ByteAt(field, Column(i), b, PairFollows(n, i))
  {
    assert Column(i) == Column(i - 2) + 5 && PairFollows(n, i) == PairFollows(n - 2, i - 2);
    ByteShift(field, Column(i - 2), b, PairFollows(n, i));
  }

  lemma {:induction false} SpacesBlank(n: nat, i: nat)
    requires i < n
    ensures Spaces(n)[i] == ' '
  {
    if i > 0 {
      SpacesBlank(n - 1, i - 1);
    }
  }

  lemma PadAt(s: string, j: nat)
    requires j < 39
    ensures j < |s| ==> j < |Pad(s)| && Pad(s)[j] == s[j]
    ensures j >= |s| ==> j < |Pad(s)| && Pad(s)[j] == ' '
  {
    if j >= |s| {
      SpacesBlank(39 - |s|, j - |s|);
    }
  }

  lemma LineParts16(offset: string, field: string, chars: string, line: string)
    requires |offset| == 8 && |field| == 39 && line == offset + ": " + field + "  " + chars
    ensures |line| == 51 + |chars| && line[..8] == offset && line[8] == ':' && line[9] == ' '
    ensures line[10..49] == field && line[49] == ' ' && line[50] == ' ' && line[51..] == chars
  {
    var head := offset + ": ";
    assert |head| == 10 && head[8] == ':' && head[9] == ' ' && head[..8] == offset;
    Slices(head, field, "  " + chars);
    Assoc(head + field, "  ", chars);
    assert line[..10] == head && line[49..] == "  " + chars;
    assert line[51..] == line[49..][2..] == chars;
  }

  /** The layout of a line below 2^32: a colon behind eight digits, the field from column 10, blanks behind the
      last byte, and the character of byte `i` in column 51 + i. */
  lemma LineLayout(counter: nat, buf: seq<byte>, i: nat)
    requires counter * 16 < 0x1_0000_0000 && i < |buf| <= 16
    ensures var line := DumpLine(counter, buf);
            && |line| == 51 + |buf| && line[8] == ':' && line[9] == ' ' && line[49] == ' ' && line[50] == ' '
            && HexValue(line[..8]) == counter * 16
            && ByteAt(line[10..49], 2 * i + i / 2, buf[i], i % 2 == 1 && i + 1 < |buf|)
            && line[51 + i] as int == if buf[i] < 32 || buf[i] > 126 then 46 else buf[i]
  {
    var o, field, chars, line := Offset(counter * 16), Pad(Field(buf)), Characters(buf), DumpLine(counter, buf);
    OffsetDigits(counter * 16);
    OffsetRoundTrip(counter * 16);
    PadRead(buf);
    LineParts16(o, field, chars, line);
    CharactersAt(buf, i);
    FieldAt(buf, i);
    var j := Column(i);
    PadAt(Field(buf), j);
    PadAt(Field(buf), j + 1);
    if i % 2 == 1 && i + 1 < |buf| {
      PadAt(Field(buf), j + 2);
    }
    assert line[51 + i] == line[51..][i];
  }

  /** Behind the last byte the field is blank. */
  lemma LineBlanks(counter: nat, buf: seq<byte>, j: nat)
    requires counter * 16 < 0x1_0000_0000 && 0 < |buf| <= 16 && 2 * |buf| + (|buf| - 1) / 2 <= j < 39
    ensures |DumpLine(counter, buf)| == 51 + |buf| && DumpLine(counter, buf)[10 + j] == ' '
  {
    var line := DumpLine(counter, buf);
    OffsetDigits(counter * 16);
    PadRead(buf);
    FieldLength(buf);
    LineParts16(Offset(counter * 16), Pad(Field(buf)), Characters(buf), line);
    PadAt(Field(buf), j);
    assert line[10 + j] == line[10..49][j];
  }

  function Dump(file: seq<byte>, counter: nat): seq<string>
    decreases |file|
  {
    if file == [] then []
    else
      var n := Min(16, |file|);
      [DumpLine(counter, file[..n])] + Dump(file[n..], counter + 1)
  }

  lemma DumpStep(file: seq<byte>, pos: nat, n: nat, counter: nat)
    requires pos < |file| && n == Min(16, |file| - pos)
    ensures Dump(file[pos..], counter) == [DumpLine(counter, file[pos..pos + n])] + Dump(file[pos + n..], counter + 1)
  {
    var rest := file[pos..];
    assert rest[..n] == file[pos..pos + n] && rest[n..] == file[pos + n..];
  }

  method Hexdump(file: seq<byte>) returns (lines: seq<string>)
    ensures lines == Dump(file, 0)
  {
    lines := [];
    var counter, pos := 0, 0;
    while true
      invariant 0 <= pos <= |file|
      invariant lines + Dump(file[pos..], counter) == Dump(file, 0)
      decreases |file| - pos
    {
      var n := Min(16, |file| - pos);
      var buf := file[pos..pos + n];
      if buf == [] {
        break;
      }
      DumpStep(file, pos, n, counter);
      Assoc(lines, [DumpLine(counter, buf)], Dump(file[pos + n..], counter + 1));
      lines := lines + [DumpLine(counter, buf)];
      pos := pos + n;
      counter := counter + 1;
    }
    assert file[pos..] == [] && lines + [] == lines;
  }

  /* ---- reading a dump back ---- */

  function ColonAt(line: string): (k: nat)
    ensures k <= |line|
  {
    if line == [] || line[0] == ':' then 0 else 1 + ColonAt(line[1..])
  }

  /** Pairs of digits, blanks skipped. */
  function ReadField(s: string): seq<int>
    decreases |s|
  {
    if s == [] then []
    else if s[0] == ' ' then ReadField(s[1..])
    else if |s| == 1 then []
    else [DigitValue(s[0]) * 16 + DigitValue(s[1])] + ReadField(s[2..])
  }

  datatype Line = Line(offset: int, bytes: seq<int>)

  /** The offset before the colon and the 39 columns after the blank that follows it. */
  function ReadLine(line: string): Option<Line>
  {
    var k := ColonAt(line);
    if k + 41 > |line| then None else Some(Line(HexValue(line[..k]), ReadField(line[k + 2..k + 41])))
  }

  lemma {:induction false} ColonAtIs(line: string, k: nat)
    requires k < |line| && line[k] == ':' && forall i :: 0 <= i < k ==> line[i] != ':'
    ensures ColonAt(line) == k
  {
    if k > 0 {
      ColonAtIs(line[1..], k - 1);
    }
  }

  lemma {:induction false} SpacesRead(n: nat)
    ensures ReadField(Spaces(n)) == []
  {
    if n > 0 {
      assert Spaces(n)[1..] == Spaces(n - 1);
      SpacesRead(n - 1);
    }
  }

  lemma ByteRead(b: byte, rest: string)
    ensures ReadField(HexByte(b) + rest) == [b] + ReadField(rest)
  {
    DigitRoundTrip(b / 16);
    DigitRoundTrip(b % 16);
    var s := HexByte(b) + rest;
    assert s[2..] == rest;
  }

  lemma PairRead(a: byte, b: byte, rest: string)
    ensures ReadField(HexByte(a) + HexByte(b) + rest) == [a, b] + ReadField(rest)
  {
    ByteRead(b, rest);
    ByteRead(a, HexByte(b) + rest);
    Assoc(HexByte(a), HexByte(b), rest);
  }

  lemma {:induction false} FieldRead(buf: seq<byte>, n: nat)
    ensures ReadField(Field(buf) + Spaces(n)) == buf
    decreases |buf|
  {
    SpacesRead(n);
    if buf == [] {
      assert "" + Spaces(n) == Spaces(n);
    } else if |buf| == 1 {
      ByteRead(buf[0], Spaces(n));
    } else if |buf| == 2 {
      PairRead(buf[0], buf[1], Spaces(n));
      assert HexByte(buf[0]) + HexByte(buf[1]) + "" == HexByte(buf[0]) + HexByte(buf[1]);
    } else {
      FieldRead(buf[2..], n);
      LongFieldRead(buf[0], buf[1], Field(buf[2..]), Spaces(n));
      assert buf == [buf[0], buf[1]] + buf[2..];
    }
  }

  lemma LongFieldRead(a: byte, b: byte, field: string, spaces: string)
    ensures ReadField(HexByte(a) + HexByte(b) + (" " + field) + spaces) == [a, b] + ReadField(field + spaces)
  {
    var tail := " " + field + spaces;
    PairRead(a, b, tail);
    Assoc(HexByte(a) + HexByte(b), " " + field, spaces);
    assert tail[1..] == field + spaces;
  }

  lemma PadRead(buf: seq<byte>)
    requires |buf| <= 16
    ensures |Pad(Field(buf))| == 39 && ReadField(Pad(Field(buf))) == buf
  {
    FieldLength(buf);
    FieldRead(buf, 39 - |Field(buf)|);
    if |Field(buf)| == 39 {
      assert Field(buf) + Spaces(0) == Field(buf);
    }
  }

  lemma LineSlices(o: string, f: string, tail: string)
    requires AllHex(o) && |f| == 39
    ensures var line := o + ": " + f + tail;
            ColonAt(line) == |o| && |o| + 41 <= |line| && line[..|o|] == o && line[|o| + 2..|o| + 41] == f
  {
    var line := o + ": " + f + tail;
    Slices(o + ": ", f, tail);
    assert line[..|o| + 2] == o + ": " && line[..|o|] == o && line[|o|] == line[..|o| + 2][|o|];
    forall i | 0 <= i < |o| ensures line[i] != ':' { assert line[i] == o[i] && o[i] in o; }
    ColonAtIs(line, |o|);
  }

  /** Each line reads back as its offset, sixteen times its number, and its bytes. */
  lemma LineRoundTrip(counter: nat, buf: seq<byte>)
    requires |buf| <= 16
    ensures ReadLine(DumpLine(counter, buf)) == Some(Line(16 * counter, buf))
  {
    OffsetRoundTrip(counter * 16);
    PadRead(buf);
    LineSlices(Offset(counter * 16), Pad(Field(buf)), "  " + Characters(buf));
    Assoc(Offset(counter * 16) + ": " + Pad(Field(buf)), "  ", Characters(buf));
  }

  /** A dump read line by line: None if a line is malformed or its offset is not the bytes read so far. */
  function ReadDump(lines: seq<string>, sofar: nat): Option<seq<int>>
    decreases |lines|
  {
    if lines == [] then Some([])
    else
      var first := ReadLine(lines[0]);
      if first.None? || first.value.offset != sofar then None
      else
        var rest := ReadDump(lines[1..], sofar + |first.value.bytes|);
        if rest.None? then None else Some(first.value.bytes + rest.value)
  }

  lemma ReadFirst(line: string, lines: seq<string>, sofar: nat, bytes: seq<byte>, rest: seq<byte>, next: nat)
    requires ReadLine(line) == Some(Line(sofar, bytes)) && next == sofar + |bytes|
    requires ReadDump(lines, next) == Some(rest)
    ensures ReadDump([line] + lines, sofar) == Some(bytes + rest)
  {
    var all := [line] + lines;
    assert all[0] == line && all[1..] == lines;
  }

  lemma DumpParts(buf: seq<byte>, rest: seq<byte>, counter: nat, file: seq<byte>)
    requires buf != [] && |buf| == Min(16, |file|) && file == buf + rest
    ensures Dump(file, counter) == [DumpLine(counter, buf)] + Dump(rest, counter + 1)
  {
    assert file[..|buf|] == buf && file[|buf|..] == rest;
  }

  ghost predicate Returns(file: seq<byte>, counter: nat, sofar: nat)
  {
    ReadDump(Dump(file, counter), sofar) == Some(file)
  }

  lemma NothingReturns(counter: nat, sofar: nat)
    ensures Returns([], counter, sofar)
  {
  }

  lemma FirstReturns(buf: seq<byte>, rest: seq<byte>, counter: nat, file: seq<byte>, next: nat)
    requires buf != [] && |buf| == Min(16, |file|) && file == buf + rest
    requires next == 16 * counter + |buf| && Returns(rest, counter + 1, next)
    ensures Returns(file, counter, 16 * counter)
  {
    DumpParts(buf, rest, counter, file);
    LineRoundTrip(counter, buf);
    ReadFirst(DumpLine(counter, buf), Dump(rest, counter + 1), 16 * counter, buf, rest, next);
  }

  lemma LastReturns(file: seq<byte>, counter: nat)
    requires 0 < |file| <= 16
    ensures Returns(file, counter, 16 * counter)
  {
    NothingReturns(counter + 1, 16 * counter + |file|);
    assert file == file + [];
    FirstReturns(file, [], counter, file, 16 * counter + |file|);
  }

  lemma {:induction false} DumpRoundTripFrom(file: seq<byte>, counter: nat)
    ensures Returns(file, counter, 16 * counter)
    decreases |file|
  {
    if file == [] {
      NothingReturns(counter, 16 * counter);
    } else if |file| <= 16 {
      LastReturns(file, counter);
    } else {
      var buf, rest := file[..16], file[16..];
      assert file == buf + rest;
      DumpRoundTripFrom(rest, counter + 1);
      FirstReturns(buf, rest, counter, file, 16 * (counter + 1));
    }
  }

  /** Every file comes back from its dump, and every line stands at sixteen times its number. */
  lemma DumpRoundTrip(file: seq<byte>)
    ensures ReadDump(Dump(file, 0), 0) == Some(file)
  {
    DumpRoundTripFrom(file, 0);
  }

  /* ---- C array initializer ---- */

  datatype Token = Item(b: byte) | Comma

  function Joined(buf: seq<byte>): seq<Token>
  {
    if buf == [] then []
    else if |buf| == 1 then [Item(buf[0])]
    else [Item(buf[0]), Comma] + Joined(buf[1..])
  }

  function IncludeLine(buf: seq<byte>): seq<Token>
  {
    Joined(buf) + if |buf| == 12 then [Comma] else []
  }

  function IncludeLines(file: seq<byte>): seq<Token>
    decreases |file|
  {
    if file == [] then []
    else
      var n := Min(12, |file|);
      IncludeLine(file[..n]) + IncludeLines(file[n..])
  }

  /* ---- its text ---- */

  function ItemText(b: byte): (s: string)
    ensures |s| == 4
  {
    "0x" + HexByte(b)
  }

  function JoinedText(buf: seq<byte>): string
  {
    if buf == [] then ""
    else if |buf| == 1 then ItemText(buf[0])
    else ItemText(buf[0]) + ", " + JoinedText(buf[1..])
  }

  function LineText(buf: seq<byte>): string
  {
    "  " + JoinedText(buf) + (if |buf| == 12 then "," else "") + "\n"
  }

  function LinesText(file: seq<byte>): string
    decreases |file|
  {
    if file == [] then ""
    else
      var n := Min(12, |file|);
      LineText(file[..n]) + LinesText(file[n..])
  }

  /** The array is named after the file, dots and dashes replaced. */
  function VarName(infilename: string): string
  {
    if infilename == "" then ""
    else [if infilename[0] == '.' || infilename[0] == '-' then '_' else infilename[0]] + VarName(infilename[1..])
  }

  lemma {:induction false} VarNameAt(infilename: string)
    ensures |VarName(infilename)| == |infilename|
    ensures forall i :: 0 <= i < |infilename| ==>
              VarName(infilename)[i] == if infilename[i] in {'.', '-'} then '_' else infilename[i]
  {
    if infilename != "" {
      VarNameAt(infilename[1..]);
    }
  }

  /** Item `i` of a line stands in column 6 * i, a comma and a blank behind it unless it is the last. */
  lemma {:induction false} JoinedAt(buf: seq<byte>, i: nat)
    requires i < |buf|
    ensures |JoinedText(buf)| == 6 * |buf| - 2
    ensures JoinedText(buf)[6 * i..6 * i + 4] == ItemText(buf[i])
    ensures i + 1 < |buf| ==> JoinedText(buf)[6 * i + 4..6 * i + 6] == ", "
    decreases |buf|
  {
    var text := JoinedText(buf);
    if |buf| > 1 {
      var head, rest := ItemText(buf[0]) + ", ", JoinedText(buf[1..]);
      JoinedAt(buf[1..], if i > 0 then i - 1 else 0);
      assert text == head + rest && |head| == 6;
      if i == 0 {
        assert text[..4] == ItemText(buf[0]) && text[4..6] == ", ";
      } else {
        JoinedShift(head, rest, 6 * (i - 1), 6 * (i - 1) + 4);
        if i + 1 < |buf| {
          JoinedShift(head, rest, 6 * (i - 1) + 4, 6 * (i - 1) + 6);
        }
      }
    } else {
      assert text == ItemText(buf[0]) && text[0..4] == text;
    }
  }

  lemma JoinedShift(head: string, rest: string, a: nat, b: nat)
    requires |head| == 6 && a <= b <= |rest|
    ensures (head + rest)[6 + a..6 + b] == rest[a..b]
  {
  }

  lemma LineTextIs(buf: seq<byte>, joined: string, close: string)
    requires joined == JoinedText(buf) && close == if |buf| == 12 then ",\n" else "\n"
    ensures LineText(buf) == "  " + joined + close
  {
    assert ",\n" == "," + "\n";
  }

  /** A line is indented by two blanks, takes six columns an item and ends in a line break; only a line of twelve
      has a comma before it. */
  lemma LineTextAt(buf: seq<byte>, i: nat)
    requires i < |buf|
    ensures var text := LineText(buf);
            && |text| == 6 * |buf| + 1 + (if |buf| == 12 then 1 else 0)
            && text[..2] == "  " && text[2 + 6 * i..6 + 6 * i] == ItemText(buf[i])
            && (i + 1 < |buf| ==> text[6 + 6 * i..8 + 6 * i] == ", ")
            && text[6 * |buf|..] == if |buf| == 12 then ",\n" else "\n"
  {
    JoinedAt(buf, i);
    var joined := JoinedText(buf);
    var close := if |buf| == 12 then ",\n" else "\n";
    LineTextIs(buf, joined, close);
    LineShift(joined, close, 6 * i, 6 * i + 4);
    if i + 1 < |buf| {
      LineShift(joined, close, 6 * i + 4, 6 * i + 6);
    }
  }

  lemma LineShift(joined: string, close: string, a: nat, b: nat)
    requires a <= b <= |joined|
    ensures ("  " + joined + close)[2 + a..2 + b] == joined[a..b]
    ensures ("  " + joined + close)[..2] == "  " && ("  " + joined + close)[2 + |joined|..] == close
  {
    Slices("  ", joined, close);
  }

  /** What stands between the braces. */
  function InitializerText(file: seq<byte>): string
  {
    LinesText(file) + ",0x00"
  }

  method IncludeHexdump(infilename: string, file: seq<byte>) returns (out: string)
    ensures out == "const char " + VarName(infilename) + "[] = {\n" + InitializerText(file) + "};\n"
  {
    var head := "const char " + VarName(infilename) + "[] = {\n";
    var lines := "";
    var pos := 0;
    while true
      invariant 0 <= pos <= |file|
      invariant lines + LinesText(file[pos..]) == LinesText(file)
      decreases |file| - pos
    {
      var n := Min(12, |file| - pos);
      var buf := file[pos..pos + n];
      if buf == [] {
        break;
      }
      ghost var rest := file[pos..];
      assert rest[..n] == buf && rest[n..] == file[pos + n..];
      Assoc(lines, LineText(buf), LinesText(rest[n..]));
      lines := lines + LineText(buf);
      pos := pos + n;
    }
    assert file[pos..] == [] && lines + "" == lines;
    out := head + (lines + ",0x00") + "};\n";
  }

  /** The tokens of a text: blanks and line breaks separate, anything but a comma or a byte is an error. */
  function Lex(s: string): Option<seq<Token>>
    decreases |s|
  {
    if s == "" then Some([])
    else if s[0] == ' ' || s[0] == '\n' then Lex(s[1..])
    else if s[0] == ',' then Prepend([Comma], Lex(s[1..]))
    else if |s| >= 4 && s[0] == '0' && s[1] == 'x' && 0 <= DigitValue(s[2]) < 16 && 0 <= DigitValue(s[3]) < 16 then
      Prepend([Item(DigitValue(s[2]) * 16 + DigitValue(s[3]))], Lex(s[4..]))
    else None
  }

  function Prepend(ts: seq<Token>, rest: Option<seq<Token>>): Option<seq<Token>>
  {
    if rest.None? then None else Some(ts + rest.value)
  }

  lemma PrependBoth(a: seq<Token>, b: seq<Token>, rest: Option<seq<Token>>)
    ensures Prepend(a, Prepend(b, rest)) == Prepend(a + b, rest)
  {
    if rest.Some? {
      Assoc(a, b, rest.value);
    }
  }

  lemma LexBlank(c: char, rest: string)
    requires c == ' ' || c == '\n'
    ensures Lex([c] + rest) == Lex(rest)
  {
    assert ([c] + rest)[1..] == rest;
  }

  lemma LexComma(rest: string)
    ensures Lex("," + rest) == Prepend([Comma], Lex(rest))
  {
    assert ("," + rest)[1..] == rest;
  }

  lemma LexItem(b: byte, rest: string)
    ensures Lex(ItemText(b) + rest) == Prepend([Item(b)], Lex(rest))
  {
    DigitRoundTrip(b / 16);
    DigitRoundTrip(b % 16);
    var s := ItemText(b) + rest;
    assert s[4..] == rest && s[2] == HexByte(b)[0] && s[3] == HexByte(b)[1];
  }

  lemma {:induction false} LexJoined(buf: seq<byte>, rest: string)
    ensures Lex(JoinedText(buf) + rest) == Prepend(Joined(buf), Lex(rest))
    decreases |buf|
  {
    if buf == [] {
      assert "" + rest == rest;
      if Lex(rest).Some? {
        assert [] + Lex(rest).value == Lex(rest).value;
      }
    } else if |buf| == 1 {
      LexItem(buf[0], rest);
    } else {
      var more := JoinedText(buf[1..]) + rest;
      LexJoined(buf[1..], rest);
      LexBlank(' ', more);
      LexComma([' '] + more);
      LexItem(buf[0], "," + ([' '] + more));
      JoinedParts(ItemText(buf[0]), JoinedText(buf[1..]), rest);
      PrependBoth([Comma], Joined(buf[1..]), Lex(rest));
      PrependBoth([Item(buf[0])], [Comma] + Joined(buf[1..]), Lex(rest));
      assert [Item(buf[0])] + ([Comma] + Joined(buf[1..])) == [Item(buf[0]), Comma] + Joined(buf[1..]);
    }
  }

  lemma JoinedParts(item: string, joined: string, rest: string)
    ensures item + ", " + joined + rest == item + ("," + ([' '] + (joined + rest)))
  {
    assert ", " == "," + [' '];
  }

  lemma LexLine(buf: seq<byte>, rest: string)
    ensures Lex(LineText(buf) + rest) == Prepend(IncludeLine(buf), Lex(rest))
  {
    var comma := if |buf| == 12 then "," else "";
    var tail := ['\n'] + rest;
    LexBlank('\n', rest);
    LexComma(tail);
    LexJoined(buf, comma + tail);
    LexBlank(' ', JoinedText(buf) + (comma + tail));
    LexBlank(' ', [' '] + (JoinedText(buf) + (comma + tail)));
    LineParts(JoinedText(buf), comma, rest);
    if |buf| == 12 {
      PrependBoth(Joined(buf), [Comma], Lex(rest));
    } else {
      assert "" + tail == tail && Joined(buf) + [] == Joined(buf);
    }
  }

  lemma LineParts(joined: string, comma: string, rest: string)
    ensures "  " + joined + comma + "\n" + rest == [' '] + ([' '] + (joined + (comma + (['\n'] + rest))))
  {
    assert "  " == [' '] + [' '] && "\n" == ['\n'];
  }

  lemma {:induction false} LexLines(file: seq<byte>, rest: string)
    ensures Lex(LinesText(file) + rest) == Prepend(IncludeLines(file), Lex(rest))
    decreases |file|
  {
    if file == [] {
      assert "" + rest == rest;
      if Lex(rest).Some? {
        assert [] + Lex(rest).value == Lex(rest).value;
      }
    } else {
      var n := Min(12, |file|);
      LexLines(file[n..], rest);
      LexLine(file[..n], LinesText(file[n..]) + rest);
      Assoc(LineText(file[..n]), LinesText(file[n..]), rest);
      PrependBoth(IncludeLine(file[..n]), IncludeLines(file[n..]), Lex(rest));
    }
  }

  /** The text between the braces consists of the file's lines, a comma and a zero byte. */
  lemma InitializerTokens(file: seq<byte>)
    ensures Lex(InitializerText(file)) == Some(IncludeLines(file) + [Comma, Item(0)])
  {
    LexLines(file, ",0x00");
    LexComma("0x00");
    LexItem(0, "");
    assert ItemText(0) + "" == "0x00" && "," + "0x00" == ",0x00";
    assert [Comma] + ([Item(0)] + []) == [Comma, Item(0)];
  }

  /** The grammar of an initializer list: items separated by single commas. */
  function ReadList(ts: seq<Token>): Option<seq<byte>>
    decreases |ts|
  {
    if ts == [] || ts[0].Comma? then None
    else if |ts| == 1 then Some([ts[0].b])
    else if ts[1].Item? then None
    else
      var rest := ReadList(ts[2..]);
      if rest.None? then None else Some([ts[0].b] + rest.value)
  }

  lemma ReadCons(b: byte, rest: seq<Token>)
    ensures ReadList([Item(b), Comma] + rest)
         == if ReadList(rest).None? then None else Some([b] + ReadList(rest).value)
  {
    assert ([Item(b), Comma] + rest)[2..] == rest;
  }

  lemma {:induction false} JoinedRead(buf: seq<byte>, rest: seq<Token>)
    requires buf != []
    ensures ReadList(Joined(buf) + [Comma] + rest)
         == if ReadList(rest).None? then None else Some(buf + ReadList(rest).value)
    decreases |buf|
  {
    if |buf| == 1 {
      ReadCons(buf[0], rest);
      assert Joined(buf) + [Comma] + rest == [Item(buf[0]), Comma] + rest;
      assert buf == [buf[0]];
    } else {
      JoinedRead(buf[1..], rest);
      ReadCons(buf[0], Joined(buf[1..]) + [Comma] + rest);
      assert Joined(buf) + [Comma] + rest == [Item(buf[0]), Comma] + (Joined(buf[1..]) + [Comma] + rest);
      if ReadList(rest).Some? {
        Assoc([buf[0]], buf[1..], ReadList(rest).value);
        assert buf == [buf[0]] + buf[1..];
      }
    }
  }

  /** What the lines say, continued by `rest`: a full line brings its own comma, a short one does not. */
  lemma {:induction false} LinesRead(file: seq<byte>, rest: seq<Token>)
    requires file != []
    ensures ReadList(IncludeLines(file) + ((if |file| % 12 == 0 then [] else [Comma]) + rest))
         == if ReadList(rest).None? then None else Some(file + ReadList(rest).value)
    decreases |file|
  {
    var n := Min(12, |file|);
    var buf, tail := file[..n], file[n..];
    var more := (if |file| % 12 == 0 then [] else [Comma]) + rest;
    if |file| <= 12 {
      assert tail == [] && buf == file && IncludeLines(tail) == [];
      assert IncludeLines(file) == IncludeLine(buf);
      JoinedRead(buf, rest);
      assert IncludeLine(buf) + more == Joined(buf) + [Comma] + rest;
    } else {
      assert |tail| % 12 == |file| % 12;
      LinesRead(tail, rest);
      FullLine(buf, IncludeLines(tail), more);
      if ReadList(rest).Some? {
        Assoc(buf, tail, ReadList(rest).value);
        assert file == buf + tail;
      }
    }
  }

  lemma FullLine(buf: seq<byte>, lines: seq<Token>, rest: seq<Token>)
    requires |buf| == 12
    ensures ReadList(IncludeLine(buf) + lines + rest)
         == if ReadList(lines + rest).None? then None else Some(buf + ReadList(lines + rest).value)
  {
    JoinedRead(buf, lines + rest);
    assert IncludeLine(buf) + lines + rest == Joined(buf) + [Comma] + (lines + rest);
  }

  /** The output is an initializer for the file and a final zero byte if and only if the length of the
      file is not a multiple of twelve; otherwise an element is missing and it is no list at all. */
  lemma InitializerIff(file: seq<byte>)
    ensures Lex(InitializerText(file)).Some?
    ensures var list := ReadList(Lex(InitializerText(file)).value);
            if |file| % 12 != 0 then list == Some(file + [0]) else list == None
  {
    InitializerTokens(file);
    TokensIff(file);
  }

  lemma TokensIff(file: seq<byte>)
    ensures var list := ReadList(IncludeLines(file) + [Comma, Item(0)]);
            if |file| % 12 != 0 then list == Some(file + [0]) else list == None
  {
    assert [Comma, Item(0)] == [Comma] + [Item(0)];
    assert ReadList([Item(0)]) == Some([0]);
    if file == [] {
      assert IncludeLines(file) + [Comma, Item(0)] == [Comma, Item(0)];
    } else if |file| % 12 != 0 {
      LinesRead(file, [Item(0)]);
    } else {
      LinesRead(file, [Comma, Item(0)]);
      assert [] + [Comma, Item(0)] == [Comma, Item(0)];
    }
  }
}
