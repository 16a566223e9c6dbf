/**
 * util.hex_dump: a 16-bytes-per-line dump. Each line is the offset in six
 * upper-case hex digits and ": ", one "XX " cell per byte with an extra space
 * after the eighth, padding up to the width of a full line, a space, and the
 * bytes again as letters and digits ('.' for any other byte). Lines are joined
 * by newlines, with none after the last.
 */
module HexDumping {
  import opened Bits
  import opened ByteUtil
  import opened TextUtil
  import opened Wrappers

  /** The cell of one byte at position q of its line: two digits, a space, and one more after position 7. */
  function Cell(b: byte, q: nat): string
  {
    if q == 7 then FormatHex(b, 2) + " " + " " else FormatHex(b, 2) + " "
  }

  /** A byte in the text column: itself when it is a letter or a digit, '.' otherwise. */
  function Shown(b: byte): char
  {
    if IsPrintable(b) then b as char else '.'
  }

  /** The text column of the n bytes from start on. */
  function Chars(buffer: seq<byte>, start: nat, n: nat): (s: string)
    requires start + n <= |buffer|
    ensures |s| == n
  {
    if n == 0 then "" else Chars(buffer, start, n - 1) + [Shown(buffer[start + n - 1])]
  }

  /**
   * The padding hex_dump's while loop writes for the positions q0, ..., q - 1 of a
   * line: three spaces each, and one more after a position p with p & 7 == 7.
   */
  function PadAsWritten(q0: nat, q: nat): string
    requires q0 <= q
    decreases q - q0
  {
    if q == q0 then ""
    else
      var p := PadAsWritten(q0, q - 1) + "   ";
      if (q - 1) % 8 == 7 then p + " " else p
  }

  /**
   * The padding that takes the place of the missing cells q0, ..., q - 1: three
   * spaces each, and the extra space of position 7 when that cell is missing.
   */
  function PadIntended(q0: nat, q: nat): string
    requires q0 <= q
    decreases q - q0
  {
    if q == q0 then ""
    else
      var p := PadIntended(q0, q - 1) + "   ";
      if q - 1 == 7 then p + " " else p
  }

  /**
   * The padding after a line of n bytes: as written, the loop starts at the
   * position of the last byte (n - 1) and stops before position 15; as intended,
   * it covers the missing positions n, ..., 15.
   */
  function ClosingPad(n: nat, fixPad: bool): string
    requires 1 <= n <= 16
  {
    if fixPad then PadIntended(n, 16) else PadAsWritten(n - 1, 15)
  }

  /** The offset of the line at start and the cells of its first m bytes. */
  function OpenLine(buffer: seq<byte>, start: nat, m: nat): string
    requires start + m <= |buffer|
  {
    if m == 0 then FormatHex(start, 6) + ": " else OpenLine(buffer, start, m - 1) + Cell(buffer[start + m - 1], m - 1)
  }

  /** What closes a line of n bytes: the padding, a space and the text column. */
  function Tail(buffer: seq<byte>, start: nat, n: nat, fixPad: bool): string
    requires 1 <= n <= 16 && start + n <= |buffer|
  {
    ClosingPad(n, fixPad) + " " + Chars(buffer, start, n)
  }

  /** The line of the n bytes from start on. */
  function Line(buffer: seq<byte>, start: nat, n: nat, fixPad: bool): string
    requires 1 <= n <= 16 && start + n <= |buffer|
  {
    OpenLine(buffer, start, n) + Tail(buffer, start, n, fixPad)
  }

  /** The first l full lines, each followed by a newline. */
  function FullLines(buffer: seq<byte>, l: nat, fixPad: bool): string
    requires 16 * l <= |buffer|
  {
    if l == 0 then "" else FullLines(buffer, l - 1, fixPad) + Line(buffer, 16 * (l - 1), 16, fixPad) + "\n"
  }

  /** The dump of the first size bytes: the full lines before the last line, then the last line. */
  function Dump(buffer: seq<byte>, size: nat, fixPad: bool): string
    requires size <= |buffer|
  {
    if size == 0 then ""
    else
      var l := (size - 1) / 16;
      FullLines(buffer, l, fixPad) + Line(buffer, 16 * l, size - 16 * l, fixPad)
  }

  /**
   * The text hex_dump has built once it has passed the first q bytes of line l
   * (q < 16), every earlier line being full: the earlier lines with their
   * newlines, then the offset and cells of line l when q > 0.
   */
  function Written(buffer: seq<byte>, l: nat, q: nat, fixPad: bool): string
    requires q < 16 && 16 * l + q <= |buffer|
  {
    if q == 0 then FullLines(buffer, l, fixPad) else FullLines(buffer, l, fixPad) + OpenLine(buffer, 16 * l, q)
  }

  /** The split of index i into its line and its position in the line. */
  lemma LineAndPosition(i: nat, l: nat, q: nat)
    requires q < 16 && i == 16 * l + q
    ensures i / 16 == l && i % 16 == q
  {
    DivModUnique(i, 16, l, q);
  }

  /** `x & 7` and `x & 15`, the tests hex_dump makes, are `x % 8` and `x % 16`. */
  lemma LowBitsTest(x: nat)
    ensures BitAnd(x, 7) == x % 8 && BitAnd(x, 15) == x % 16
  {
    Pow2Constants();
    LowMask(x, 3);
    LowMask(x, 4);
  }

  /** Index i at position q of the line that starts at start. */
  lemma AlignedAt(start: nat, q: nat, i: nat)
    requires start % 16 == 0 && q < 16 && i == start + q
    ensures i % 16 == q && i % 8 == q % 8
  {
    DivModUnique(i, 16, start / 16, q);
    DivModUnique(i, 8, 2 * (start / 16) + q / 8, q % 8);
  }

  /** The position after that of i. */
  lemma NextPosition(i: nat)
    ensures i % 16 == 15 ==> (i + 1) % 16 == 0
    ensures i % 16 != 15 ==> (i + 1) % 16 == i % 16 + 1
  {
    if i % 16 == 15 {
      DivModUnique(i + 1, 16, i / 16 + 1, 0);
    } else {
      DivModUnique(i + 1, 16, i / 16, i % 16 + 1);
    }
  }

  /** The position of j in the line that starts at base, for base < j <= base + 16. */
  lemma PositionAfter(base: nat, j: nat)
    requires base % 16 == 0 && base < j <= base + 16
    ensures j < base + 16 ==> j % 16 == j - base
    ensures j == base + 16 ==> j % 16 == 0
  {
    if j < base + 16 {
      DivModUnique(j, 16, base / 16, j - base);
    } else {
      DivModUnique(j, 16, base / 16 + 1, 0);
    }
  }

  /*
   * Congruence steps. Each states that a definition gives equal results on
   * arguments that are equal but written differently (a call argument and the
   * expression it was computed from). Proved in a context of their own, they
   * spare the solver from matching such terms inside the larger proofs below.
   */
  lemma SamePadAsWritten(a1: nat, b1: nat, a2: nat, b2: nat)
    requires a1 == a2 && b1 == b2 && a1 <= b1
    ensures PadAsWritten(a1, b1) == PadAsWritten(a2, b2)
  {
  }

  lemma SamePadIntended(a1: nat, b1: nat, a2: nat, b2: nat)
    requires a1 == a2 && b1 == b2 && a1 <= b1
    ensures PadIntended(a1, b1) == PadIntended(a2, b2)
  {
  }

  lemma SameMod8(a: int, b: int)
    requires a == b
    ensures a % 8 == b % 8
  {
  }

  /** One turn of the padding loop as written, from j0 to j = j0 + 1. */
  lemma AsWrittenStep(base: nat, q0: nat, j0: nat, j: nat)
    requires base % 16 == 0 && base + q0 <= j0 < base + 15 && j == j0 + 1
    ensures BitAnd(j0, 7) == 7 ==> PadAsWritten(q0, j - base) == PadAsWritten(q0, j0 - base) + "   " + " "
    ensures BitAnd(j0, 7) != 7 ==> PadAsWritten(q0, j - base) == PadAsWritten(q0, j0 - base) + "   "
  {
    LowBitsTest(j0);
    AlignedAt(base, j0 - base, j0);
    SameMod8(j - base - 1, j0 - base);
    SamePadAsWritten(q0, j - base - 1, q0, j0 - base);
  }

  /** One turn of the corrected padding loop, from j0 to j = j0 + 1. */
  lemma IntendedStep(base: nat, q0: nat, j0: nat, j: nat)
    requires base % 16 == 0 && base + q0 + 1 <= j0 < base + 16 && j == j0 + 1
    ensures BitAnd(j0, 15) == 7 ==> PadIntended(q0 + 1, j - base) == PadIntended(q0 + 1, j0 - base) + "   " + " "
    ensures BitAnd(j0, 15) != 7 ==> PadIntended(q0 + 1, j - base) == PadIntended(q0 + 1, j0 - base) + "   "
    ensures j < base + 16 ==> j % 16 == j - base
    ensures j == base + 16 ==> j % 16 == 0
  {
    LowBitsTest(j0);
    AlignedAt(base, j0 - base, j0);
    SamePadIntended(q0 + 1, j - base - 1, q0 + 1, j0 - base);
    PositionAfter(base, j);
  }

  /** The padding loop after the last byte of a line, at i; fixPad selects the corrected loop. */
  method PadLoop(i: nat, fixPad: bool) returns (pad: string)
    ensures pad == ClosingPad(i % 16 + 1, fixPad)
  {
    ghost var q0 := i % 16;
    ghost var base := i - q0;
    AlignedAt(base, 0, base);
    pad := "";
    if !fixPad {
      var j := i;
      while (j + 1) % 16 != 0
        invariant base + q0 <= j <= base + 15
        invariant pad == PadAsWritten(q0, j - base)
        decreases base + 15 - j
      {
        PositionAfter(base, j + 1);
        ghost var j0 := j;
        pad := pad + "   ";
        if BitAnd(j, 7) == 7 {
          pad := pad + " ";
        }
        j := j + 1;
        AsWrittenStep(base, q0, j0, j);
      }
      PositionAfter(base, j + 1);
      SamePadAsWritten(q0, j - base, i % 16 + 1 - 1, 15);
    } else {
      var j := i + 1;
      PositionAfter(base, j);
      while j % 16 != 0
        invariant base + q0 + 1 <= j <= base + 16
        invariant j < base + 16 ==> j % 16 == j - base
        invariant j == base + 16 ==> j % 16 == 0
        invariant pad == PadIntended(q0 + 1, j - base)
        decreases base + 16 - j
      {
        ghost var j0 := j;
        pad := pad + "   ";
        if BitAnd(j, 15) == 7 {
          pad := pad + " ";
        }
        j := j + 1;
        IntendedStep(base, q0, j0, j);
      }
      SamePadIntended(q0 + 1, j - base, i % 16 + 1, 16);
    }
  }

  /** The text column of the line of i up to i, one character per byte. */
  method TextColumn(buffer: seq<byte>, i: nat) returns (text: string)
    requires i < |buffer|
    ensures text == Chars(buffer, i - i % 16, i % 16 + 1)
  {
    var base := i - i % 16;
    text := "";
    for j := base to i + 1
      invariant text == Chars(buffer, base, j - base)
    {
      var k := '.';
      if IsPrintable(buffer[j]) {
        k := buffer[j] as char;
      }
      text := text + [k];
    }
  }

  /** hex_dump(buffer, size) with the given padding loop; None is the IndexError of a size past the buffer. */
  method HexDumpWith(buffer: seq<byte>, size: int, fixPad: bool) returns (r: Option<string>)
    ensures size > |buffer| ==> r == None
    ensures 0 <= size <= |buffer| ==> r == Some(Dump(buffer, size, fixPad))
    ensures size < 0 ==> r == Some(Dump(buffer, |buffer|, fixPad))
  {
    var n: nat := if size < 0 then |buffer| else size;
    var result := "";
    ghost var l: nat, q: nat := 0, 0;
    for i := 0 to n
      invariant i == 16 * l + q && q < 16
      invariant i <= |buffer|
      invariant i < n ==> result == Written(buffer, l, q, fixPad)
      invariant i == n ==> result == Dump(buffer, n, fixPad)
    {
      if i >= |buffer| {
        return None;
      }
      LineAndPosition(i, l, q);
      LowBitsTest(i);
      ghost var before := result;
      if i % 16 == 0 {
        result := result + FormatHex(i, 6) + ": ";
      }
      ghost var withOffset := result;
      result := result + FormatHex(buffer[i], 2) + " ";
      if BitAnd(i, 15) == 7 {
        result := result + " ";
      }
      CellAppended(withOffset, buffer[i], i % 16);
      if (i + 1) % 16 == 0 || i + 1 == n {
        var pad := PadLoop(i, fixPad);
        var text := TextColumn(buffer, i);
        result := result + pad + " " + text;
        if i + 1 != n {
          NextPosition(i);
          result := result + "\n";
          WrittenLine(buffer, i, l, q, fixPad);
        } else {
          if q == 0 {
            LastFirst(buffer, n, i, l, q, fixPad);
          } else {
            LastNext(buffer, n, i, l, q, fixPad);
          }
        }
      } else {
        NextPosition(i);
        if q == 0 {
          OpenFirst(buffer, i, l, q, fixPad);
        } else {
          OpenNext(buffer, i, l, q, fixPad);
        }
      }
      ghost var nl: nat, nq: nat := l, q + 1;
      if q == 15 {
        nl, nq := l + 1, 0;
      }
      if i + 1 < n {
        SameWritten(buffer, nl, nq, if q == 15 then l + 1 else l, if q == 15 then 0 else q + 1, fixPad);
      }
      l, q := nl, nq;
    }
    return Some(result);
  }

  /*
   * Congruence steps. Each states that a definition gives equal results on
   * arguments that are equal but written differently (a call argument and the
   * expression it was computed from). Proved in a context of their own, they
   * spare the solver from matching such terms inside the larger proofs below.
   */
  lemma SameOffset(a: nat, b: nat)
    requires a == b
    ensures FormatHex(a, 6) == FormatHex(b, 6)
  {
  }

  lemma SameCell(buffer: seq<byte>, i: nat, j: nat, q: nat, r: nat)
    requires i == j < |buffer| && q == r
    ensures Cell(buffer[i], q) == Cell(buffer[j], r)
  {
  }

  lemma SameFullLines(buffer: seq<byte>, a: nat, b: nat, fixPad: bool)
    requires a == b && 16 * a <= |buffer|
    ensures FullLines(buffer, a, fixPad) == FullLines(buffer, b, fixPad)
  {
  }

  lemma SameLine(buffer: seq<byte>, s1: nat, m1: nat, s2: nat, m2: nat, fixPad: bool)
    requires s1 == s2 && m1 == m2 && 1 <= m1 <= 16 && s1 + m1 <= |buffer|
    ensures Line(buffer, s1, m1, fixPad) == Line(buffer, s2, m2, fixPad)
  {
  }

  lemma SameWritten(buffer: seq<byte>, l1: nat, q1: nat, l2: nat, q2: nat, fixPad: bool)
    requires l1 == l2 && q1 == q2 && q1 < 16 && 16 * l1 + q1 <= |buffer|
    ensures Written(buffer, l1, q1, fixPad) == Written(buffer, l2, q2, fixPad)
  {
  }

  lemma SameClosing(buffer: seq<byte>, s1: nat, n1: nat, s2: nat, n2: nat, fixPad: bool)
    requires s1 == s2 && n1 == n2 && 1 <= n1 <= 16 && s1 + n1 <= |buffer|
    ensures ClosingPad(n1, fixPad) + " " + Chars(buffer, s1, n1) == Tail(buffer, s2, n2, fixPad)
  {
  }

  lemma SameOpenLine(buffer: seq<byte>, s1: nat, m1: nat, s2: nat, m2: nat)
    requires s1 == s2 && m1 == m2 && s1 + m1 <= |buffer|
    ensures OpenLine(buffer, s1, m1) == OpenLine(buffer, s2, m2)
  {
  }

  lemma WrittenAtStart(buffer: seq<byte>, l: nat, fixPad: bool)
    requires 16 * l <= |buffer|
    ensures Written(buffer, l, 0, fixPad) == FullLines(buffer, l, fixPad)
  {
  }

  lemma WrittenInside(buffer: seq<byte>, l: nat, q: nat, fixPad: bool)
    requires 0 < q < 16 && 16 * l + q <= |buffer|
    ensures Written(buffer, l, q, fixPad) == FullLines(buffer, l, fixPad) + OpenLine(buffer, 16 * l, q)
  {
  }

  lemma LineParts(buffer: seq<byte>, start: nat, n: nat, fixPad: bool)
    requires 1 <= n <= 16 && start + n <= |buffer|
    ensures Line(buffer, start, n, fixPad) == OpenLine(buffer, start, n) + Tail(buffer, start, n, fixPad)
  {
  }

  lemma OpenLineStart(buffer: seq<byte>, start: nat)
    requires start <= |buffer|
    ensures OpenLine(buffer, start, 0) == FormatHex(start, 6) + ": "
  {
  }

  /** Regrouping of an append, stated once so that proofs can name exactly the step they need. */
  lemma Assoc(a: string, b: string, c: string)
    ensures a + (b + c) == (a + b) + c
  {
  }

  /** The appends of a cell, one piece at a time, add the cell. */
  lemma CellAppended(w: string, b: byte, q: nat)
    ensures q != 7 ==> w + FormatHex(b, 2) + " " == w + Cell(b, q)
    ensures q == 7 ==> w + FormatHex(b, 2) + " " + " " == w + Cell(b, q)
  {
    Assoc(w, FormatHex(b, 2), " ");
    Assoc(w, FormatHex(b, 2) + " ", " ");
  }

  /** A line, appended as a whole, regrouped into the pieces the loop appends one after another. */
  lemma RegroupLine(a: string, b: string, c: string, d: string, e: string, g: string)
    ensures a + ((b + c) + ((d + e) + g)) == ((((a + b) + c) + d) + e) + g
  {
    Assoc(a, b + c, (d + e) + g);
    Assoc(a + (b + c), d + e, g);
    Assoc(a + (b + c), d, e);
    Assoc(a, b, c);
  }

  /** One more cell on an open line. */
  lemma OpenLineStep(buffer: seq<byte>, start: nat, q: nat)
    requires start + q + 1 <= |buffer|
    ensures OpenLine(buffer, start, q + 1) == OpenLine(buffer, start, q) + Cell(buffer[start + q], q)
  {
    assert buffer[start + (q + 1) - 1] == buffer[start + q];
  }

  /** One more full line. */
  lemma FullLinesStep(buffer: seq<byte>, l: nat, fixPad: bool)
    requires 16 * l + 16 <= |buffer|
    ensures FullLines(buffer, l + 1, fixPad) == FullLines(buffer, l, fixPad) + Line(buffer, 16 * l, 16, fixPad) + "\n"
  {
  }

  /** A dump of n = 16l + q + 1 bytes: the l full lines, then the q + 1 bytes of line l. */
  lemma DumpSplit(buffer: seq<byte>, n: nat, l: nat, q: nat, fixPad: bool)
    requires q < 16 && n == 16 * l + q + 1 && n <= |buffer|
    ensures Dump(buffer, n, fixPad) == FullLines(buffer, l, fixPad) + Line(buffer, 16 * l, q + 1, fixPad)
  {
    LineAndPosition(n - 1, l, q);
    SameFullLines(buffer, (n - 1) / 16, l, fixPad);
    SameLine(buffer, 16 * ((n - 1) / 16), n - 16 * ((n - 1) / 16), 16 * l, q + 1, fixPad);
  }

  /** The open line of l at position q (q = 0), as the loop wrote it: the offset of i = 16l. */
  lemma OpenAtStart(buffer: seq<byte>, i: nat, l: nat, q: nat)
    requires i == 16 * l + q && q == 0 && i <= |buffer|
    ensures OpenLine(buffer, 16 * l, q) == FormatHex(i, 6) + ": "
  {
    SameOpenLine(buffer, 16 * l, q, 16 * l, 0);
    OpenLineStart(buffer, 16 * l);
    SameOffset(i, 16 * l);
  }

  /** The first byte of a line that does not end the dump: the offset and its cell. */
  lemma OpenFirst(buffer: seq<byte>, i: nat, l: nat, q: nat, fixPad: bool)
    requires i == 16 * l + q && q == 0 && i + 1 <= |buffer|
    ensures Written(buffer, l, q + 1, fixPad) == Written(buffer, l, q, fixPad) + FormatHex(i, 6) + ": " + Cell(buffer[i], i % 16)
  {
    LineAndPosition(i, l, q);
    SameCell(buffer, i, 16 * l + q, i % 16, q);
    OpenLineStep(buffer, 16 * l, q);
    OpenAtStart(buffer, i, l, q);
    WrittenInside(buffer, l, q + 1, fixPad);
    SameWritten(buffer, l, q, l, 0, fixPad);
    WrittenAtStart(buffer, l, fixPad);
    var full := FullLines(buffer, l, fixPad);
    var cell := Cell(buffer[i], i % 16);
    Assoc(full, FormatHex(i, 6) + ": ", cell);
    Assoc(full, FormatHex(i, 6), ": ");
  }

  /** A later byte of a line, not the last of its line: its cell. */
  lemma OpenNext(buffer: seq<byte>, i: nat, l: nat, q: nat, fixPad: bool)
    requires i == 16 * l + q && 0 < q < 15 && i + 1 <= |buffer|
    ensures Written(buffer, l, q + 1, fixPad) == Written(buffer, l, q, fixPad) + Cell(buffer[i], i % 16)
  {
    LineAndPosition(i, l, q);
    SameCell(buffer, i, 16 * l + q, i % 16, q);
    OpenLineStep(buffer, 16 * l, q);
    WrittenInside(buffer, l, q + 1, fixPad);
    WrittenInside(buffer, l, q, fixPad);
    Assoc(FullLines(buffer, l, fixPad), OpenLine(buffer, 16 * l, q), Cell(buffer[i], i % 16));
  }

  /** The line l that ends at i = 16l + q: its open part up to q, the cell of i and the closing, in the loop's terms. */
  lemma LineAt(buffer: seq<byte>, i: nat, l: nat, q: nat, fixPad: bool)
    requires i == 16 * l + q && q < 16 && i + 1 <= |buffer|
    ensures Line(buffer, 16 * l, q + 1, fixPad) ==
      (OpenLine(buffer, 16 * l, q) + Cell(buffer[i], i % 16)) + (ClosingPad(i % 16 + 1, fixPad) + " " + Chars(buffer, i - i % 16, i % 16 + 1))
  {
    LinePartsAt(buffer, l, q, fixPad);
    CellAt(buffer, i, l, q);
    TailAt(buffer, i, l, q, fixPad);
  }

  lemma LinePartsAt(buffer: seq<byte>, l: nat, q: nat, fixPad: bool)
    requires q < 16 && 16 * l + q + 1 <= |buffer|
    ensures Line(buffer, 16 * l, q + 1, fixPad) == OpenLine(buffer, 16 * l, q + 1) + Tail(buffer, 16 * l, q + 1, fixPad)
  {
  }

  /** The cell of i = 16l + q closes the open line of l at q + 1. */
  lemma CellAt(buffer: seq<byte>, i: nat, l: nat, q: nat)
    requires i == 16 * l + q && q < 16 && i + 1 <= |buffer|
    ensures OpenLine(buffer, 16 * l, q + 1) == OpenLine(buffer, 16 * l, q) + Cell(buffer[i], i % 16)
  {
    LineAndPosition(i, l, q);
    SameCell(buffer, i, 16 * l + q, i % 16, q);
    OpenLineStep(buffer, 16 * l, q);
  }

  /** The closing of the line that ends at i = 16l + q, in terms of i. */
  lemma TailAt(buffer: seq<byte>, i: nat, l: nat, q: nat, fixPad: bool)
    requires i == 16 * l + q && q < 16 && i + 1 <= |buffer|
    ensures Tail(buffer, 16 * l, q + 1, fixPad) == ClosingPad(i % 16 + 1, fixPad) + " " + Chars(buffer, i - i % 16, i % 16 + 1)
  {
    LineAndPosition(i, l, q);
    SameClosing(buffer, i - i % 16, i % 16 + 1, 16 * l, q + 1, fixPad);
  }

  /** The sixteenth byte of a line that is not the last: the line's closing and a newline. */
  lemma WrittenLine(buffer: seq<byte>, i: nat, l: nat, q: nat, fixPad: bool)
    requires i == 16 * l + q && q == 15 && i + 1 <= |buffer|
    ensures Written(buffer, l + 1, 0, fixPad) ==
      Written(buffer, l, q, fixPad) + Cell(buffer[i], i % 16) + ClosingPad(i % 16 + 1, fixPad) + " " + Chars(buffer, i - i % 16, i % 16 + 1) + "\n"
  {
    LineAt(buffer, i, l, q, fixPad);
    SameLine(buffer, 16 * l, 16, 16 * l, q + 1, fixPad);
    FullLinesStep(buffer, l, fixPad);
    WrittenAtStart(buffer, l + 1, fixPad);
    WrittenInside(buffer, l, q, fixPad);
    RegroupLine(FullLines(buffer, l, fixPad), OpenLine(buffer, 16 * l, q), Cell(buffer[i], i % 16), ClosingPad(i % 16 + 1, fixPad), " ",
      Chars(buffer, i - i % 16, i % 16 + 1));
  }

  /** The last byte of the dump, first of its line: the offset, its cell and the line's closing. */
  lemma LastFirst(buffer: seq<byte>, n: nat, i: nat, l: nat, q: nat, fixPad: bool)
    requires i == 16 * l + q && q == 0 && n == i + 1 && n <= |buffer|
    ensures Dump(buffer, n, fixPad) ==
      Written(buffer, l, q, fixPad) + FormatHex(i, 6) + ": " + Cell(buffer[i], i % 16) + ClosingPad(i % 16 + 1, fixPad) + " "
        + Chars(buffer, i - i % 16, i % 16 + 1)
  {
    LineAt(buffer, i, l, q, fixPad);
    DumpSplit(buffer, n, l, q, fixPad);
    OpenAtStart(buffer, i, l, q);
    SameWritten(buffer, l, q, l, 0, fixPad);
    WrittenAtStart(buffer, l, fixPad);
    var full := FullLines(buffer, l, fixPad);
    RegroupLine(full, FormatHex(i, 6) + ": ", Cell(buffer[i], i % 16), ClosingPad(i % 16 + 1, fixPad), " ", Chars(buffer, i - i % 16, i % 16 + 1));
    Assoc(full, FormatHex(i, 6), ": ");
  }

  /** The last byte of the dump, not first of its line: its cell and the line's closing. */
  lemma LastNext(buffer: seq<byte>, n: nat, i: nat, l: nat, q: nat, fixPad: bool)
    requires i == 16 * l + q && 0 < q < 16 && n == i + 1 && n <= |buffer|
    ensures Dump(buffer, n, fixPad) ==
      Written(buffer, l, q, fixPad) + Cell(buffer[i], i % 16) + ClosingPad(i % 16 + 1, fixPad) + " " + Chars(buffer, i - i % 16, i % 16 + 1)
  {
    LineAt(buffer, i, l, q, fixPad);
    DumpSplit(buffer, n, l, q, fixPad);
    WrittenInside(buffer, l, q, fixPad);
    RegroupLine(FullLines(buffer, l, fixPad), OpenLine(buffer, 16 * l, q), Cell(buffer[i], i % 16), ClosingPad(i % 16 + 1, fixPad), " ",
      Chars(buffer, i - i % 16, i % 16 + 1));
  }

  /** util.hex_dump as written. */
  method HexDump(buffer: seq<byte>, size: int) returns (r: Option<string>)
    ensures size > |buffer| ==> r == None
    ensures 0 <= size <= |buffer| ==> r == Some(Dump(buffer, size, false))
    ensures size < 0 ==> r == Some(Dump(buffer, |buffer|, false))
  {
    r := HexDumpWith(buffer, size, false);
  }

  /** hex_dump with the padding loop corrected to cover exactly the missing cells. */
  method HexDumpFixed(buffer: seq<byte>, size: int) returns (r: Option<string>)
    ensures size > |buffer| ==> r == None
    ensures 0 <= size <= |buffer| ==> r == Some(Dump(buffer, size, true))
    ensures size < 0 ==> r == Some(Dump(buffer, |buffer|, true))
  {
    r := HexDumpWith(buffer, size, true);
  }
}
