/**
 * What the text hex_dump builds looks like: the width of each part of a line,
 * the column where the text starts, the place of every full line, the end of
 * the dump, and where the loop as written and the corrected loop differ.
 */
module HexDumpLayout {
  import opened ByteUtil
  import opened TextUtil
  import opened HexDumping

  /** A cell is "XX " and, at position 7, one more space. */
  lemma CellLength(b: byte, q: nat)
    ensures q == 7 ==> |Cell(b, q)| == 4
    ensures q != 7 ==> |Cell(b, q)| == 3
  {
    FormatHexByte(b);
  }

  /** An open line of m > 0 cells is the one of k = m - 1 cells and the cell at position k. */
  lemma OpenLineSplit(buffer: seq<byte>, start: nat, m: nat, k: nat)
    requires 0 < m && k == m - 1 && start + m <= |buffer|
    ensures OpenLine(buffer, start, m) == OpenLine(buffer, start, k) + Cell(buffer[start + k], k)
  {
    OpenLineStep(buffer, start, k);
  }

  /** The offset and the first m cells of a line: 6 digits, ": ", 3 characters a cell and the space after the eighth. */
  lemma {:induction false} OpenLineLength(buffer: seq<byte>, start: nat, m: nat)
    requires start + m <= |buffer| && start < 0x100_0000
    ensures m < 8 ==> |OpenLine(buffer, start, m)| == 8 + 3 * m
    ensures m >= 8 ==> |OpenLine(buffer, start, m)| == 9 + 3 * m
  {
    if m == 0 {
      OpenLineStart(buffer, start);
      FormatHexOffset(start);
    } else {
      var k := m - 1;
      OpenLineLength(buffer, start, k);
      OpenLineSplit(buffer, start, m, k);
      var b := buffer[start + k];
      CellLength(b, k);
    }
  }

  /** The corrected padding: three spaces for each missing position, one more when position 7 is missing. */
  lemma {:induction false} PadIntendedLength(q0: nat, q: nat)
    requires q0 <= q
    ensures q0 <= 7 < q ==> |PadIntended(q0, q)| == 3 * (q - q0) + 1
    ensures !(q0 <= 7 < q) ==> |PadIntended(q0, q)| == 3 * (q - q0)
  {
    if q > q0 {
      PadIntendedLength(q0, q - 1);
    }
  }

  /** The padding as written over positions q0 .. q - 1 (q <= 15): one more space when 7 is among them. */
  lemma {:induction false} PadAsWrittenLength(q0: nat, q: nat)
    requires q0 <= q <= 15
    ensures q0 <= 7 < q ==> |PadAsWritten(q0, q)| == 3 * (q - q0) + 1
    ensures !(q0 <= 7 < q) ==> |PadAsWritten(q0, q)| == 3 * (q - q0)
  {
    if q > q0 {
      PadAsWrittenLength(q0, q - 1);
    }
  }

  /** The corrected hex area of a line of n bytes, padding and separating space included, is 58 characters wide. */
  lemma HexAreaWidth(buffer: seq<byte>, start: nat, n: nat)
    requires 1 <= n <= 16 && start + n <= |buffer| && start < 0x100_0000
    ensures |OpenLine(buffer, start, n) + ClosingPad(n, true) + " "| == 58
  {
    OpenLineLength(buffer, start, n);
    PadIntendedLength(n, 16);
  }

  /**
   * As written, the hex area of a line of exactly 8 bytes is 59 wide: the eighth
   * cell already carries the extra space and the loop adds it again.
   */
  lemma HexAreaWidthAsWritten(buffer: seq<byte>, start: nat, n: nat)
    requires 1 <= n <= 16 && start + n <= |buffer| && start < 0x100_0000
    ensures n == 8 ==> |OpenLine(buffer, start, n) + ClosingPad(n, false) + " "| == 59
    ensures n != 8 ==> |OpenLine(buffer, start, n) + ClosingPad(n, false) + " "| == 58
  {
    OpenLineLength(buffer, start, n);
    PadAsWrittenLength(n - 1, 15);
  }

  /** The n characters of the text column, each the byte at that place shown. */
  lemma {:induction false} CharsAt(buffer: seq<byte>, start: nat, n: nat, k: nat)
    requires start + n <= |buffer| && k < n
    ensures Chars(buffer, start, n)[k] == Shown(buffer[start + k])
  {
    if k < n - 1 {
      CharsAt(buffer, start, n - 1, k);
    }
  }

  /** A shown byte is a letter, a digit or '.'. */
  lemma ShownIsLetterDigitOrDot(b: byte)
    ensures Shown(b) == '.' || Shown(b) in UpperCaseLetters + LowerCaseLetters + DecimalDigits
    ensures Shown(b) != '.' <==> IsPrintable(b)
  {
    PrintableIsLetterOrDigit(b);
  }

  /** A line is its open line, its padding, a space and its text column. */
  lemma LinePieces(buffer: seq<byte>, start: nat, n: nat, fixPad: bool)
    requires 1 <= n <= 16 && start + n <= |buffer|
    ensures Line(buffer, start, n, fixPad)
         == OpenLine(buffer, start, n) + ((ClosingPad(n, fixPad) + " ") + Chars(buffer, start, n))
  {
    LineParts(buffer, start, n, fixPad);
    SameClosing(buffer, start, n, start, n, fixPad);
  }

  lemma DropHexArea(a: string, b: string, c: string, d: string)
    requires |a + b + c| == 58
    ensures (a + ((b + c) + d))[58..] == d
  {
    Assoc(a, b + c, d);
    Assoc(a, b, c);
  }

  lemma KeepPrefix(a: string, b: string)
    requires |a| >= 8
    ensures |a + b| >= 8 && (a + b)[..8] == a[..8]
  {
  }

  /** A corrected line of n bytes is 58 + n characters long. */
  lemma LineLength(buffer: seq<byte>, start: nat, n: nat)
    requires 1 <= n <= 16 && start + n <= |buffer| && start < 0x100_0000
    ensures |Line(buffer, start, n, true)| == 58 + n
  {
    LinePieces(buffer, start, n, true);
    HexAreaWidth(buffer, start, n);
  }

  /** The text column of a corrected line starts at column 58. */
  lemma LineText(buffer: seq<byte>, start: nat, n: nat)
    requires 1 <= n <= 16 && start + n <= |buffer| && start < 0x100_0000
    ensures |Line(buffer, start, n, true)| == 58 + n
    ensures Line(buffer, start, n, true)[58..] == Chars(buffer, start, n)
  {
    LinePieces(buffer, start, n, true);
    HexAreaWidth(buffer, start, n);
    DropHexArea(OpenLine(buffer, start, n), ClosingPad(n, true), " ", Chars(buffer, start, n));
  }

  /** Every open line starts with its offset and ": ". */
  lemma {:induction false} OpenLinePrefix(buffer: seq<byte>, start: nat, m: nat)
    requires start + m <= |buffer| && start < 0x100_0000
    ensures |OpenLine(buffer, start, m)| >= 8
    ensures OpenLine(buffer, start, m)[..8] == FormatHex(start, 6) + ": "
  {
    if m == 0 {
      OpenLineStart(buffer, start);
      FormatHexOffset(start);
    } else {
      var k := m - 1;
      OpenLinePrefix(buffer, start, k);
      OpenLineSplit(buffer, start, m, k);
      var cell := Cell(buffer[start + k], k);
      KeepPrefix(OpenLine(buffer, start, k), cell);
    }
  }

  /** Every line, under either padding loop, starts with its offset in six hex digits and ": ". */
  lemma LinePrefix(buffer: seq<byte>, start: nat, n: nat, fixPad: bool)
    requires 1 <= n <= 16 && start + n <= |buffer| && start < 0x100_0000
    ensures Line(buffer, start, n, fixPad)[..8] == FormatHex(start, 6) + ": "
  {
    LinePieces(buffer, start, n, fixPad);
    OpenLinePrefix(buffer, start, n);
    KeepPrefix(OpenLine(buffer, start, n), (ClosingPad(n, fixPad) + " ") + Chars(buffer, start, n));
  }

  /** The first six characters of every line read back, in hex, to the offset of its first byte. */
  lemma LineOffset(buffer: seq<byte>, start: nat, n: nat, fixPad: bool)
    requires 1 <= n <= 16 && start + n <= |buffer| && start < 0x100_0000
    ensures var line := Line(buffer, start, n, fixPad);
      && |line| >= 8
      && line[..6] == FormatHex(start, 6)
      && HexValue(line[..6]) == start
      && line[6..8] == ": "
  {
    LineParts(buffer, start, n, fixPad);
    OpenLinePrefix(buffer, start, n);
    LinePrefix(buffer, start, n, fixPad);
    FormatHexOffset(start);
    var line := Line(buffer, start, n, fixPad);
    assert line[..6] == line[..8][..6];
    assert line[6..8] == line[..8][6..8];
  }

  /** l full lines are the first l - 1 ones, line l - 1 and its newline. */
  lemma FullLinesSplit(buffer: seq<byte>, l: nat, k: nat, fixPad: bool)
    requires 0 < l && k == l - 1 && 16 * l <= |buffer|
    ensures FullLines(buffer, l, fixPad) == FullLines(buffer, k, fixPad) + Line(buffer, 16 * k, 16, fixPad) + "\n"
  {
    FullLinesStep(buffer, k, fixPad);
  }

  /** A corrected full line is 74 characters long. */
  lemma FullLineLength(buffer: seq<byte>, k: nat)
    requires 16 * k + 16 <= |buffer| && 16 * k < 0x100_0000
    ensures |Line(buffer, 16 * k, 16, true)| == 74
  {
    var start := 16 * k;
    LineLength(buffer, start, 16);
  }

  /** The corrected full lines are 75 characters each, 74 for the line and one for its newline. */
  lemma {:induction false} FullLinesLength(buffer: seq<byte>, l: nat)
    requires 16 * l <= |buffer| && 16 * l <= 0x100_0000
    ensures |FullLines(buffer, l, true)| == 75 * l
  {
    if l > 0 {
      var k := l - 1;
      FullLinesLength(buffer, k);
      FullLinesSplit(buffer, l, k, true);
      FullLineLength(buffer, k);
    }
  }

  lemma LineInFirst(a: string, b: string, c: string, k: nat)
    requires 75 * k + 75 <= |a|
    ensures (a + b + c)[75 * k..75 * k + 74] == a[75 * k..75 * k + 74]
    ensures (a + b + c)[75 * k + 74] == a[75 * k + 74]
  {
  }

  lemma LineAtEnd(a: string, b: string, c: string, k: nat)
    requires |a| == 75 * k && |b| == 74 && c == "\n"
    ensures (a + b + c)[75 * k..75 * k + 74] == b
    ensures (a + b + c)[75 * k + 74] == '\n'
  {
  }

  /** Line k of the corrected dump of l full lines sits at 75k, followed by its newline. */
  lemma {:induction false} FullLineAt(buffer: seq<byte>, l: nat, k: nat)
    requires 16 * l <= |buffer| && 16 * l <= 0x100_0000 && k < l
    ensures |FullLines(buffer, l, true)| == 75 * l
    ensures FullLines(buffer, l, true)[75 * k..75 * k + 74] == Line(buffer, 16 * k, 16, true)
    ensures FullLines(buffer, l, true)[75 * k + 74] == '\n'
  {
    FullLinesLength(buffer, l);
    var p := l - 1;
    FullLinesSplit(buffer, l, p, true);
    var prev := FullLines(buffer, p, true);
    var line := Line(buffer, 16 * p, 16, true);
    FullLinesLength(buffer, p);
    FullLineLength(buffer, p);
    if k < p {
      FullLineAt(buffer, p, k);
      LineInFirst(prev, line, "\n", k);
    } else {
      SameFullLine(buffer, p, k);
      LineAtEnd(prev, line, "\n", k);
    }
  }

  /** A congruence step: the same full line, whether its index is written p or k. */
  lemma SameFullLine(buffer: seq<byte>, p: nat, k: nat)
    requires p == k && 16 * p + 16 <= |buffer|
    ensures Line(buffer, 16 * p, 16, true) == Line(buffer, 16 * k, 16, true)
  {
  }

  lemma LastOfAppend(a: string, b: string, c: string)
    requires |c| > 0
    ensures |a + (b + c)| > 0 && (a + (b + c))[|a + (b + c)| - 1] == c[|c| - 1]
  {
  }

  lemma LastOfTwo(a: string, b: string)
    requires |b| > 0
    ensures |a + b| > 0 && (a + b)[|a + b| - 1] == b[|b| - 1]
  {
  }

  /** The last text character of the n bytes before size is the last byte shown. */
  lemma CharsLast(buffer: seq<byte>, start: nat, n: nat, size: nat)
    requires 0 < n && start + n == size <= |buffer|
    ensures var c := Chars(buffer, start, n); c[|c| - 1] == Shown(buffer[size - 1])
  {
    var k := size - 1;
    assert Chars(buffer, start, n) == Chars(buffer, start, n - 1) + [Shown(buffer[k])];
  }

  /** A line ends with the text character of its last byte. */
  lemma LineLast(buffer: seq<byte>, l: nat, q: nat, size: nat, fixPad: bool)
    requires q < 16 && size == 16 * l + q + 1 && size <= |buffer|
    ensures var line := Line(buffer, 16 * l, q + 1, fixPad); |line| > 0 && line[|line| - 1] == Shown(buffer[size - 1])
  {
    var start := 16 * l;
    var n := q + 1;
    SameLine(buffer, start, n, 16 * l, q + 1, fixPad);
    LinePieces(buffer, start, n, fixPad);
    CharsLast(buffer, start, n, size);
    LastOfAppend(OpenLine(buffer, start, n), ClosingPad(n, fixPad) + " ", Chars(buffer, start, n));
  }

  /** A dump of at least one byte ends with the last byte's text character, never a newline. */
  lemma DumpEndsWithText(buffer: seq<byte>, size: nat, fixPad: bool)
    requires 0 < size <= |buffer|
    ensures |Dump(buffer, size, fixPad)| > 0
    ensures Dump(buffer, size, fixPad)[|Dump(buffer, size, fixPad)| - 1] == Shown(buffer[size - 1])
    ensures Dump(buffer, size, fixPad)[|Dump(buffer, size, fixPad)| - 1] != '\n'
  {
    var l := (size - 1) / 16;
    var q := (size - 1) % 16;
    DumpSplit(buffer, size, l, q, fixPad);
    LineLast(buffer, l, q, size, fixPad);
    LastOfTwo(FullLines(buffer, l, fixPad), Line(buffer, 16 * l, q + 1, fixPad));
    ShownIsLetterDigitOrDot(buffer[size - 1]);
    LettersAndDigitsAt();
  }

  /** Strings of spaces only. */
  predicate AllSpaces(s: string)
  {
    forall k :: 0 <= k < |s| ==> s[k] == ' '
  }

  lemma {:induction false} PadIntendedSpaces(q0: nat, q: nat)
    requires q0 <= q
    ensures AllSpaces(PadIntended(q0, q))
  {
    if q > q0 {
      PadIntendedSpaces(q0, q - 1);
    }
  }

  lemma {:induction false} PadAsWrittenSpaces(q0: nat, q: nat)
    requires q0 <= q
    ensures AllSpaces(PadAsWritten(q0, q))
  {
    if q > q0 {
      PadAsWrittenSpaces(q0, q - 1);
    }
  }

  lemma SpacesEqual(a: string, b: string)
    requires AllSpaces(a) && AllSpaces(b) && |a| == |b|
    ensures a == b
  {
  }

  /**
   * The two padding loops give the same padding except after a line of exactly
   * 8 bytes, where the loop as written adds one space.
   */
  lemma ClosingPadsAgree(n: nat)
    requires 1 <= n <= 16
    ensures n != 8 ==> ClosingPad(n, false) == ClosingPad(n, true)
    ensures n == 8 ==> ClosingPad(n, false) == ClosingPad(n, true) + " "
  {
    PadAsWrittenSpaces(n - 1, 15);
    PadIntendedSpaces(n, 16);
    PadAsWrittenLength(n - 1, 15);
    PadIntendedLength(n, 16);
    if n == 8 {
      SpacesEqual(ClosingPad(n, false), ClosingPad(n, true) + " ");
    } else {
      SpacesEqual(ClosingPad(n, false), ClosingPad(n, true));
    }
  }

  /** A full line has no padding, so both loops give the same full line. */
  lemma FullLineAgrees(buffer: seq<byte>, k: nat)
    requires 16 * k + 16 <= |buffer|
    ensures Line(buffer, 16 * k, 16, false) == Line(buffer, 16 * k, 16, true)
  {
    var start := 16 * k;
    LinePieces(buffer, start, 16, false);
    LinePieces(buffer, start, 16, true);
  }

  /** Full lines are the same under both padding loops. */
  lemma {:induction false} FullLinesAgree(buffer: seq<byte>, l: nat)
    requires 16 * l <= |buffer|
    ensures FullLines(buffer, l, false) == FullLines(buffer, l, true)
  {
    if l > 0 {
      var k := l - 1;
      FullLinesAgree(buffer, k);
      FullLinesSplit(buffer, l, k, false);
      FullLinesSplit(buffer, l, k, true);
      FullLineAgrees(buffer, k);
    }
  }

  /**
   * hex_dump as written and corrected agree unless the last line holds exactly
   * 8 bytes; then the written one has one space more before that line's text.
   */
  lemma DumpsAgree(buffer: seq<byte>, size: nat)
    requires size <= |buffer|
    ensures (size == 0 || (size - 1) % 16 != 7) ==> Dump(buffer, size, false) == Dump(buffer, size, true)
    ensures size > 0 && (size - 1) % 16 == 7 ==> |Dump(buffer, size, false)| == |Dump(buffer, size, true)| + 1
  {
    if size > 0 {
      var l := (size - 1) / 16;
      var m := size - 16 * l;
      FullLinesAgree(buffer, l);
      ClosingPadsAgree(m);
    }
  }
}
