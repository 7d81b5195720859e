/** The byte-array printer: the lines it emits, and a reader that gets the bytes back. */
module BinaryToArray {
  import opened Text

  newtype byte = x: int | 0 <= x < 256

  const WIDTH := 12
  const COMMENT := "// Extra \\0 to make it a C string"
  const TERMINATOR := "    " + ("0x00" + ("  " + COMMENT))

  function HexDigit(n: nat): char
    requires n < 16
  {
    if n < 10 then '0' + n as char else 'a' + (n - 10) as char
  }

  function HexValue(c: char): (r: Option<nat>)
    ensures r.Some? ==> r.value < 16
  {
    if '0' <= c <= '9' then Some((c - '0') as nat)
    else if 'a' <= c <= 'f' then Some((c - 'a') as nat + 10)
    else None
  }

  function Indent(first: bool): string {
    if first then "    " else " "
  }

  /** One byte as it is printed: indented or separated, and followed by a comma. */
  function Cell(b: byte, first: bool): (r: string)
    ensures |r| == if first then 9 else 6
  {
    Indent(first) + (['0', 'x', HexDigit(b as nat / 16), HexDigit(b as nat % 16)] + ",")
  }

  /** Prints a byte, as the first of its line or not. */
  type Printer = (byte, bool) -> string

  /** The cells of a line, of which `n` are already there. */
  function Cells(cell: Printer, bytes: seq<byte>, n: nat): string
    decreases |bytes|
  {
    if bytes == [] then "" else cell(bytes[0], n == 0) + Cells(cell, bytes[1..], n + 1)
  }

  /** Reads the bytes of a line: blanks and commas are skipped, a comment ends it. */
  function Read(s: string): Option<seq<byte>>
    decreases |s|
  {
    if s == "" then Some([])
    else if s[0] == ' ' || s[0] == ',' then Read(s[1..])
    else if |s| >= 2 && s[0] == '/' && s[1] == '/' then Some([])
    else if |s| >= 4 && s[0] == '0' && s[1] == 'x' then
      match (HexValue(s[2]), HexValue(s[3]), Read(s[4..]))
      case (Some(hi), Some(lo), Some(rest)) => Some([(16 * hi + lo) as byte] + rest)
      case _ => None
    else None
  }

  function ReadAll(lines: seq<string>): Option<seq<byte>> {
    if lines == [] then Some([])
    else
      match (Read(lines[0]), ReadAll(lines[1..]))
      case (Some(a), Some(b)) => Some(a + b)
      case _ => None
  }

  lemma HexRoundTrip(n: nat)
    requires n < 16
    ensures HexValue(HexDigit(n)) == Some(n)
  {
  }

  lemma ReadBlank(s: string)
    ensures Read(" " + s) == Read(s) && Read("," + s) == Read(s)
  {
    assert (" " + s)[1..] == s && ("," + s)[1..] == s;
  }

  lemma ReadBlanks(s: string)
    ensures Read("  " + s) == Read(s)
  {
    ReadBlank(s);
    ReadBlank(" " + s);
    assert "  " + s == " " + (" " + s);
  }

  lemma ReadIndent(first: bool, s: string)
    ensures Read(Indent(first) + s) == Read(s)
  {
    if first {
      ReadBlanks(s);
      ReadBlanks("  " + s);
      assert "    " + s == "  " + ("  " + s);
    } else {
      ReadBlank(s);
    }
  }

  lemma ReadHex(b: byte, rest: string)
    requires Read(rest).Some?
    ensures Read(['0', 'x', HexDigit(b as nat / 16), HexDigit(b as nat % 16)] + rest) == Some([b] + Read(rest).value)
  {
    var hi, lo := b as nat / 16, b as nat % 16;
    HexRoundTrip(hi);
    HexRoundTrip(lo);
    var s := ['0', 'x', HexDigit(hi), HexDigit(lo)] + rest;
    assert s[4..] == rest;
    assert (16 * hi + lo) as byte == b;
  }

  lemma ConcatFour(a: string, b: string, c: string, d: string)
    ensures (a + (b + c)) + d == a + (b + (c + d))
  {
  }

  lemma ReadCell(b: byte, first: bool, rest: string)
    requires Read(rest).Some?
    ensures Read(Cell(b, first) + rest) == Some([b] + Read(rest).value)
  {
    var hex := ['0', 'x', HexDigit(b as nat / 16), HexDigit(b as nat % 16)];
    ReadBlank(rest);
    ReadHex(b, "," + rest);
    ReadIndent(first, hex + ("," + rest));
    ConcatFour(Indent(first), hex, ",", rest);
  }

  lemma {:induction false} ReadCells(bytes: seq<byte>, n: nat)
    ensures Read(Cells(Cell, bytes, n)) == Some(bytes)
    decreases |bytes|
  {
    if bytes != [] {
      ReadCells(bytes[1..], n + 1);
      ReadCell(bytes[0], n == 0, Cells(Cell, bytes[1..], n + 1));
      assert [bytes[0]] + bytes[1..] == bytes;
    }
  }

  lemma {:induction false} CellsAppend(cell: Printer, bytes: seq<byte>, b: byte, n: nat)
    ensures Cells(cell, bytes + [b], n) == Cells(cell, bytes, n) + cell(b, n + |bytes| == 0)
    decreases |bytes|
  {
    if bytes == [] {
      assert (bytes + [b])[1..] == [];
    } else {
      assert (bytes + [b])[1..] == bytes[1..] + [b];
      CellsAppend(cell, bytes[1..], b, n + 1);
    }
  }

  lemma {:induction false} CellsWidth(bytes: seq<byte>, n: nat)
    ensures |Cells(Cell, bytes, n)| == 6 * |bytes| + if n == 0 && bytes != [] then 3 else 0
    decreases |bytes|
  {
    if bytes != [] {
      CellsWidth(bytes[1..], n + 1);
    }
  }

  /** The lines from byte `i` on: full lines of twelve bytes and a last line,
      perhaps empty, with the rest. */
  function DataLines(cell: Printer, bytes: seq<byte>, i: nat): seq<string>
    requires i <= |bytes|
    decreases |bytes| - i
  {
    if |bytes| - i < WIDTH then [Cells(cell, bytes[i..], 0)]
    else [Cells(cell, bytes[i..i + WIDTH], 0)] + DataLines(cell, bytes, i + WIDTH)
  }

  /** There is one line for each twelve bytes and one more; none is wider than 75 columns. */
  lemma {:induction false} DataLinesShape(bytes: seq<byte>, i: nat)
    requires i <= |bytes|
    ensures |DataLines(Cell, bytes, i)| == (|bytes| - i) / 12 + 1
    ensures forall k :: 0 <= k < |DataLines(Cell, bytes, i)| ==> |DataLines(Cell, bytes, i)[k]| <= 75
    decreases |bytes| - i
  {
    if |bytes| - i < WIDTH {
      CellsWidth(bytes[i..], 0);
    } else {
      CellsWidth(bytes[i..i + WIDTH], 0);
      DataLinesShape(bytes, i + WIDTH);
    }
  }

  lemma ReadZero(comment: string)
    requires |comment| >= 2 && comment[0] == '/' && comment[1] == '/'
    ensures Read("    " + ("0x00" + ("  " + comment))) == Some([0])
  {
    var none: seq<byte> := [];
    assert Read(comment) == Some(none);
    ReadBlanks(comment);
    ReadHex(0, "  " + comment);
    assert ['0', 'x', HexDigit(0), HexDigit(0)] == "0x00" && [0] + none == [0];
    ReadIndent(true, "0x00" + ("  " + comment));
  }

  lemma ReadTerminator()
    ensures Read(TERMINATOR) == Some([0])
  {
    ReadZero(COMMENT);
  }

  lemma ReadOne(line: string, lines: seq<string>, a: seq<byte>, b: seq<byte>)
    requires Read(line) == Some(a) && ReadAll(lines) == Some(b)
    ensures ReadAll([line] + lines) == Some(a + b)
  {
    assert ([line] + lines)[1..] == lines;
  }

  lemma ReadLast(line: string, last: string, bytes: seq<byte>)
    requires Read(line) == Some(bytes) && Read(last) == Some([0])
    ensures ReadAll([line] + [last]) == Some(bytes + [0])
  {
    ReadOne(last, [], [0], []);
    assert [last] + [] == [last] && [0] + [] == [0 as byte];
    ReadOne(line, [last], bytes, [0]);
  }

  lemma ReadMore(line: string, lines: seq<string>, last: string, chunk: seq<byte>, rest: seq<byte>)
    requires Read(line) == Some(chunk) && ReadAll(lines + [last]) == Some(rest + [0])
    ensures ReadAll(([line] + lines) + [last]) == Some((chunk + rest) + [0])
  {
    ReadOne(line, lines + [last], chunk, rest + [0]);
    assert ([line] + lines) + [last] == [line] + (lines + [last]);
    assert (chunk + rest) + [0] == chunk + (rest + [0]);
  }

  /** Reading the emitted lines gives the bytes back, and one zero byte after them. */
  lemma {:induction false} ReadEmitted(bytes: seq<byte>, i: nat, last: string)
    requires i <= |bytes| && Read(last) == Some([0])
    ensures ReadAll(DataLines(Cell, bytes, i) + [last]) == Some(bytes[i..] + [0])
    decreases |bytes| - i
  {
    if |bytes| - i < WIDTH {
      ReadCells(bytes[i..], 0);
      ReadLast(Cells(Cell, bytes[i..], 0), last, bytes[i..]);
    } else {
      var chunk := bytes[i..i + WIDTH];
      ReadCells(chunk, 0);
      ReadEmitted(bytes, i + WIDTH, last);
      ReadMore(Cells(Cell, chunk, 0), DataLines(Cell, bytes, i + WIDTH), last, chunk, bytes[i + WIDTH..]);
      assert chunk + bytes[i + WIDTH..] == bytes[i..];
    }
  }

  /** The text of two bytes, to the character. */
  lemma TwoBytesPrinted()
    ensures DataLines(Cell, [1, 175], 0) == ["    0x01, 0xaf,"]
  {
    var bytes: seq<byte> := [1, 175];
    assert bytes[0..] == bytes && bytes[1..] == [175] && bytes[1..][1..] == [];
    assert Cell(1, true) == "    0x01," && Cell(175, false) == " 0xaf,";
    assert Cells(Cell, [175], 1) == " 0xaf," + "" == " 0xaf,";
    assert Cells(Cell, bytes, 0) == "    0x01," + " 0xaf," == "    0x01, 0xaf,";
  }

  lemma LineGrows(cell: Printer, bytes: seq<byte>, start: nat, idx: nat, line: string)
    requires start <= idx < |bytes| && line == Cells(cell, bytes[start..idx], 0)
    ensures line + cell(bytes[idx], idx == start) == Cells(cell, bytes[start..idx + 1], 0)
  {
    assert bytes[start..idx + 1] == bytes[start..idx] + [bytes[idx]];
    CellsAppend(cell, bytes[start..idx], bytes[idx], 0);
  }

  lemma NextColumn(start: nat, idx: nat)
    requires start <= idx < start + WIDTH && idx % WIDTH == idx - start
    ensures (idx + 1) % WIDTH == if idx + 1 == start + WIDTH then 0 else idx + 1 - start
  {
  }

  lemma LineFlushed(cell: Printer, bytes: seq<byte>, start: nat, data: seq<string>, line: string, all: seq<string>)
    requires start + WIDTH <= |bytes| && line == Cells(cell, bytes[start..start + WIDTH], 0)
    requires all == data + DataLines(cell, bytes, start)
    ensures all == (data + [line]) + DataLines(cell, bytes, start + WIDTH)
    ensures Cells(cell, bytes[start + WIDTH..start + WIDTH], 0) == ""
  {
    var rest := DataLines(cell, bytes, start + WIDTH);
    assert DataLines(cell, bytes, start) == [line] + rest;
    assert data + ([line] + rest) == (data + [line]) + rest;
  }

  /** Emits the bytes line by line, the last line perhaps empty. */
  method EmitData(cell: Printer, bytes: seq<byte>) returns (data: seq<string>)
    ensures data == DataLines(cell, bytes, 0)
  {
    data := [];
    var line := "";
    ghost var start: nat, all := 0, DataLines(cell, bytes, 0);
    for idx := 0 to |bytes|
      invariant start <= idx < start + WIDTH && idx % WIDTH == idx - start
      invariant line == Cells(cell, bytes[start..idx], 0)
      invariant all == data + DataLines(cell, bytes, start)
    {
      LineGrows(cell, bytes, start, idx, line);
      NextColumn(start, idx);
      line := line + cell(bytes[idx], idx % WIDTH == 0);
      if idx % WIDTH == WIDTH - 1 {
        LineFlushed(cell, bytes, start, data, line, all);
        data := data + [line];
        line := "";
        start := idx + 1;
      }
    }
    assert bytes[start..|bytes|] == bytes[start..];
    data := data + [line];
  }

  /** The array body: the data lines and the terminating zero. */
  method EmitBytes(bytes: seq<byte>) returns (data: seq<string>)
    ensures data == DataLines(Cell, bytes, 0) + [TERMINATOR]
    ensures |data| == |bytes| / 12 + 2
    ensures ReadAll(data) == Some(bytes + [0])
  {
    data := EmitData(Cell, bytes);
    data := data + [TERMINATOR];
    DataLinesShape(bytes, 0);
    ReadTerminator();
    ReadEmitted(bytes, 0, TERMINATOR);
    assert bytes[0..] == bytes;
  }
}
