/**
 * The string helpers of util.py: `%u` and `%0NX` formatting, `int_to_ip4_addr`,
 * `hex_dump3`, `hex_dump2`, `hexstr_to_bytearray`, `is_printable`, `is_in_range`
 * and `make_address`.
 */
module TextUtil {
  import opened Bits
  import opened ByteUtil
  import opened Wrappers

  predicate IsDecimalDigit(c: char)
  {
    '0' <= c <= '9'
  }

  predicate IsUpperHexDigit(c: char)
  {
    '0' <= c <= '9' || 'A' <= c <= 'F'
  }

  /** The decimal digit character of d. */
  function DigitChar(d: nat): (c: char)
    requires d < 10
    ensures IsDecimalDigit(c)
  {
    ('0' as int + d) as char
  }

  /** The upper-case hexadecimal digit character of v. */
  function HexDigitChar(v: nat): (c: char)
    requires v < 16
    ensures IsUpperHexDigit(c)
  {
    if v < 10 then ('0' as int + v) as char else ('A' as int + v - 10) as char
  }

  predicate AllDecimalDigits(s: string)
  {
    forall k :: 0 <= k < |s| ==> IsDecimalDigit(s[k])
  }

  /** Python's `"%u" % n` for a non-negative n. */
  function Decimal(n: nat): (s: string)
    ensures |s| >= 1 && AllDecimalDigits(s)
    ensures |s| > 1 ==> s[0] != '0'
  {
    if n < 10 then [DigitChar(n)] else Decimal(n / 10) + [DigitChar(n % 10)]
  }

  /** The value of a string of decimal digits, the inverse reading of Decimal. */
  function DecimalValue(s: string): nat
    requires AllDecimalDigits(s)
  {
    if s == [] then 0 else DecimalValue(s[..|s| - 1]) * 10 + (s[|s| - 1] as int - '0' as int)
  }

  lemma {:induction false} DecimalRoundTrip(n: nat)
    ensures DecimalValue(Decimal(n)) == n
  {
    if n >= 10 {
      var s := Decimal(n);
      assert s[..|s| - 1] == Decimal(n / 10);
      DecimalRoundTrip(n / 10);
    }
  }

  lemma DecimalInjective(m: nat, n: nat)
    requires Decimal(m) == Decimal(n)
    ensures m == n
  {
    DecimalRoundTrip(m);
    DecimalRoundTrip(n);
  }

  /** A digit string followed by '.' is a unique prefix: the '.' cannot sit inside a digit run. */
  lemma DotSplit(a: string, r1: string, b: string, r2: string)
    requires AllDecimalDigits(a) && AllDecimalDigits(b)
    requires a + ("." + r1) == b + ("." + r2)
    ensures a == b && r1 == r2
  {
    var s := a + ("." + r1);
    assert s[|a|] == '.';
    assert s[|b|] == '.';
    assert |a| == |b|;
    assert a == s[..|a|] && b == s[..|b|];
    assert r1 == s[|a| + 1..] && r2 == s[|b| + 1..];
  }

  /** Four bytes printed as Python's "%u.%u.%u.%u". */
  function DottedQuad(o: seq<byte>): string
    requires |o| == 4
  {
    Decimal(o[0]) + ("." + (Decimal(o[1]) + ("." + (Decimal(o[2]) + ("." + Decimal(o[3]))))))
  }

  /** A byte takes one to three decimal digits. */
  lemma DecimalOfByte(b: byte)
    ensures 1 <= |Decimal(b)| <= 3
  {
    if b >= 10 {
      var t := b / 10;
      if t >= 10 {
        var h := t / 10;
        assert h < 10;
        assert Decimal(t) == Decimal(h) + [DigitChar(t % 10)];
      }
    }
  }

  /** util.int_to_ip4_addr: the octets (a >> 24) & 0xFF, ..., a & 0xFF in dotted decimal. */
  function IntToIp4Addr(a: nat): (r: string)
    ensures 7 <= |r| <= 15
  {
    var o := Octets(a);
    DecimalOfByte(o[0]);
    DecimalOfByte(o[1]);
    DecimalOfByte(o[2]);
    DecimalOfByte(o[3]);
    DottedQuad(o)
  }

  /** The dotted quad determines its four bytes. */
  lemma DottedQuadInjective(o: seq<byte>, p: seq<byte>)
    requires |o| == 4 && |p| == 4 && DottedQuad(o) == DottedQuad(p)
    ensures o == p
  {
    var a1, a2, a3 := Decimal(o[1]), Decimal(o[2]), Decimal(o[3]);
    var b1, b2, b3 := Decimal(p[1]), Decimal(p[2]), Decimal(p[3]);
    DotSplit(Decimal(o[0]), a1 + ("." + (a2 + ("." + a3))), Decimal(p[0]), b1 + ("." + (b2 + ("." + b3))));
    DotSplit(a1, a2 + ("." + a3), b1, b2 + ("." + b3));
    DotSplit(a2, a3, b2, b3);
    DecimalInjective(o[0], p[0]);
    DecimalInjective(o[1], p[1]);
    DecimalInjective(o[2], p[2]);
    DecimalInjective(o[3], p[3]);
  }

  /** Distinct 32-bit addresses print differently. */
  lemma IntToIp4AddrInjective(a: nat, b: nat)
    requires a < Pow2(32) && b < Pow2(32)
    requires IntToIp4Addr(a) == IntToIp4Addr(b)
    ensures a == b
  {
    DottedQuadInjective(Octets(a), Octets(b));
    OctetsBigEndian(a);
    OctetsBigEndian(b);
  }

  /** The address read big-endian from four bytes prints exactly those bytes. */
  lemma IntToIp4AddrOfBytes(s: seq<byte>)
    requires |s| == 4
    ensures IntToIp4Addr(BigEndian(s)) == DottedQuad(s)
  {
    BigEndianOctets(s);
  }

  /** The digits of n in upper-case hexadecimal, without leading zeros. */
  function HexDigits(n: nat): (s: string)
    ensures |s| >= 1
    ensures forall k :: 0 <= k < |s| ==> IsUpperHexDigit(s[k])
  {
    if n < 16 then [HexDigitChar(n)] else HexDigits(n / 16) + [HexDigitChar(n % 16)]
  }

  function Zeros(n: nat): (s: string)
    ensures |s| == n && forall k :: 0 <= k < n ==> s[k] == '0'
  {
    if n == 0 then "" else "0" + Zeros(n - 1)
  }

  /** Python's `"%0*X" % (width, n)`: upper-case hex, left-padded with zeros to at least width. */
  function FormatHex(n: nat, width: nat): (s: string)
    ensures |s| >= width
    ensures forall k :: 0 <= k < |s| ==> IsUpperHexDigit(s[k])
  {
    var d := HexDigits(n);
    if |d| < width then Zeros(width - |d|) + d else d
  }

  /** `"%02X" % b` for a byte is its two upper-case hex digits. */
  lemma FormatHexByte(b: byte)
    ensures FormatHex(b, 2) == [HexDigitChar(b / 16), HexDigitChar(b % 16)]
  {
    if b >= 16 {
      assert HexDigits(b) == HexDigits(b / 16) + [HexDigitChar(b % 16)];
    }
  }

  /** The value of an upper-case hex digit. */
  function UpperHexDigitValue(c: char): nat
    requires IsUpperHexDigit(c)
  {
    if c <= '9' then c as int - '0' as int else c as int - 'A' as int + 10
  }

  predicate AllUpperHexDigits(s: string)
  {
    forall k :: 0 <= k < |s| ==> IsUpperHexDigit(s[k])
  }

  /** The value of a string of upper-case hex digits, the inverse reading of FormatHex. */
  function HexValue(s: string): nat
    requires AllUpperHexDigits(s)
  {
    if s == [] then 0 else HexValue(s[..|s| - 1]) * 16 + UpperHexDigitValue(s[|s| - 1])
  }

  lemma {:induction false} HexDigitsRoundTrip(n: nat)
    ensures HexValue(HexDigits(n)) == n
  {
    if n >= 16 {
      var s := HexDigits(n);
      assert s[..|s| - 1] == HexDigits(n / 16);
      HexDigitsRoundTrip(n / 16);
    }
  }

  lemma {:induction false} ZerosValue(k: nat)
    ensures HexValue(Zeros(k)) == 0
  {
    if k > 0 {
      var z := Zeros(k);
      assert z[..k - 1] == Zeros(k - 1);
      ZerosValue(k - 1);
    }
  }

  /** Leading zeros do not change the value. */
  lemma {:induction false} ZerosPrefix(k: nat, d: string)
    requires AllUpperHexDigits(d)
    ensures AllUpperHexDigits(Zeros(k) + d) && HexValue(Zeros(k) + d) == HexValue(d)
    decreases |d|
  {
    if d == [] {
      assert Zeros(k) + d == Zeros(k);
      ZerosValue(k);
    } else {
      var s := Zeros(k) + d;
      var e := d[..|d| - 1];
      assert s[..|s| - 1] == Zeros(k) + e;
      ZerosPrefix(k, e);
    }
  }

  /**
   * `"%0*X" % (width, n)` denotes n: it reads back to n, and it is as long as
   * the digits of n or as width, whichever is longer.
   */
  lemma FormatHexRoundTrip(n: nat, width: nat)
    ensures HexValue(FormatHex(n, width)) == n
    ensures |FormatHex(n, width)| == if width > |HexDigits(n)| then width else |HexDigits(n)|
  {
    var d := HexDigits(n);
    HexDigitsRoundTrip(n);
    if |d| < width {
      ZerosPrefix(width - |d|, d);
    }
  }

  /** `"%06X" % n` for n below 2^24 is exactly six digits, and they read back to n. */
  lemma FormatHexOffset(n: nat)
    requires n < 0x100_0000
    ensures |FormatHex(n, 6)| == 6
    ensures HexValue(FormatHex(n, 6)) == n
  {
    Pow2Constants();
    HexDigitsLength(n, 6);
    FormatHexRoundTrip(n, 6);
  }

  lemma {:induction false} HexDigitsLength(n: nat, w: nat)
    requires 1 <= w && n < Pow2(4 * w)
    ensures |HexDigits(n)| <= w
  {
    if n >= 16 {
      Pow2Add(4 * (w - 1), 4);
      Pow2Constants();
      assert w > 1 by {
        if w == 1 {
          assert Pow2(4) == 16;
        }
      }
      DivModUnique(n, 16, n / 16, n % 16);
      assert n / 16 < Pow2(4 * (w - 1));
      HexDigitsLength(n / 16, w - 1);
    }
  }

  /** Python's `buf[lo:hi]` for 0 <= lo <= hi: both ends clamped to the length. */
  function Slice<T>(buf: seq<T>, lo: nat, hi: nat): seq<T>
    requires lo <= hi
  {
    var l := if lo < |buf| then lo else |buf|;
    var h := if hi < |buf| then hi else |buf|;
    buf[l..h]
  }

  /** Two upper-case hex digits per byte. */
  function HexOfBytes(s: seq<byte>): (r: string)
    ensures |r| == 2 * |s|
    ensures forall k :: 0 <= k < |s| ==> r[2 * k..2 * k + 2] == FormatHex(s[k], 2)
  {
    if s == [] then ""
    else
      FormatHexByte(s[0]);
      var tail := HexOfBytes(s[1..]);
      var r := FormatHex(s[0], 2) + tail;
      assert forall k :: 1 <= k < |s| ==> r[2 * k..2 * k + 2] == tail[2 * (k - 1)..2 * (k - 1) + 2];
      r
  }

  /** util.hex_dump3: the hex of buf[offset:offset+length]. */
  function HexDump3(buf: seq<byte>, offset: nat, length: nat): (r: string)
    ensures offset + length <= |buf| ==> r == HexOfBytes(buf[offset..offset + length])
    ensures offset + length > |buf| ==> |r| == 2 * (if offset < |buf| then |buf| - offset else 0)
  {
    HexOfBytes(Slice(buf, offset, offset + length))
  }

  /** util.hex_dump2: the hex of the whole buffer. */
  function HexDump2(buf: seq<byte>): (r: string)
    ensures |r| == 2 * |buf|
    ensures forall k :: 0 <= k < |buf| ==> r[2 * k..2 * k + 2] == FormatHex(buf[k], 2)
  {
    assert Slice(buf, 0, |buf|) == buf;
    HexDump3(buf, 0, |buf|)
  }

  /** The digit value of an ASCII hex digit of either case, as `int(_, 16)` reads it. */
  function HexDigitValue(c: char): Option<nat>
  {
    if '0' <= c <= '9' then Some(c as int - '0' as int)
    else if 'a' <= c <= 'f' then Some(c as int - 'a' as int + 10)
    else if 'A' <= c <= 'F' then Some(c as int - 'A' as int + 10)
    else None
  }

  /** The ASCII characters Python's `int()` strips around a number. */
  predicate IsAsciiSpace(c: char)
  {
    c == ' ' || c == '\t' || c == '\n' || c == '\r' || c == '\U{000B}' || c == '\U{000C}'
  }

  /** Why `int(chunk, 16)` or `struct.pack("B", _)` raised. */
  datatype HexError = InvalidLiteral(chunk: string) | NegativeByte(chunk: string)

  /**
   * `struct.pack("B", int(c1 + c2, 16))` for one two-character chunk: two hex
   * digits, or one digit with a sign or surrounding whitespace.
   */
  function HexPairValue(c1: char, c2: char): Result<byte, HexError>
  {
    match (HexDigitValue(c1), HexDigitValue(c2))
    case (Some(h1), Some(h2)) => Ok(16 * h1 + h2)
    case (None, Some(h2)) =>
      if IsAsciiSpace(c1) || c1 == '+' then Ok(h2)
      else if c1 == '-' then (if h2 == 0 then Ok(0) else Err(NegativeByte([c1, c2])))
      else Err(InvalidLiteral([c1, c2]))
    case (Some(h1), None) =>
      if IsAsciiSpace(c2) then Ok(h1) else Err(InvalidLiteral([c1, c2]))
    case (None, None) => Err(InvalidLiteral([c1, c2]))
  }

  /** The bytes of consecutive two-character chunks; a trailing odd character is ignored. */
  function DecodeHex(a: string): (r: Result<seq<byte>, HexError>)
    ensures r.Ok? ==> |r.value| == |a| / 2
    decreases |a|
  {
    if |a| < 2 then Ok([])
    else
      match HexPairValue(a[0], a[1])
      case Err(e) => Err(e)
      case Ok(b) =>
        match DecodeHex(a[2..])
        case Err(e) => Err(e)
        case Ok(rest) => Ok([b] + rest)
  }

  /** `bytes` followed by the outcome of decoding the rest. */
  function PrependBytes(prefix: seq<byte>, r: Result<seq<byte>, HexError>): Result<seq<byte>, HexError>
  {
    match r
    case Err(e) => Err(e)
    case Ok(rest) => Ok(prefix + rest)
  }

  lemma PrependAssociative(b: seq<byte>, x: byte, r: Result<seq<byte>, HexError>)
    ensures PrependBytes(b, PrependBytes([x], r)) == PrependBytes(b + [x], r)
  {
    if r.Ok? {
      assert b + ([x] + r.value) == (b + [x]) + r.value;
    }
  }

  /** util.hexstr_to_bytearray: one byte per two-character chunk, raising on a bad chunk. */
  method HexStrToByteArray(a: string) returns (r: Result<seq<byte>, HexError>)
    ensures r == DecodeHex(a)
  {
    var b: seq<byte> := [];
    var c := 0;
    assert a[2 * c..] == a;
    assert PrependBytes(b, DecodeHex(a)) == DecodeHex(a) by {
      if DecodeHex(a).Ok? {
        assert [] + DecodeHex(a).value == DecodeHex(a).value;
      }
    }
    while c < |a| / 2
      invariant 0 <= c <= |a| / 2
      invariant DecodeHex(a) == PrependBytes(b, DecodeHex(a[2 * c..]))
    {
      var rest := a[2 * c..];
      assert rest[2..] == a[2 * (c + 1)..];
      var v := HexPairValue(a[2 * c], a[2 * c + 1]);
      if v.Err? {
        assert DecodeHex(rest) == Err(v.error);
        return Err(v.error);
      }
      assert DecodeHex(rest) == PrependBytes([v.value], DecodeHex(rest[2..]));
      PrependAssociative(b, v.value, DecodeHex(rest[2..]));
      b := b + [v.value];
      c := c + 1;
    }
    assert |a[2 * c..]| < 2;
    assert b + [] == b;
    r := Ok(b);
  }

  /** A hex digit character reads back as its value. */
  lemma HexDigitValueOfChar(v: nat)
    requires v < 16
    ensures HexDigitValue(HexDigitChar(v)) == Some(v)
  {
  }

  /** The two hex digits of a byte decode back to it. */
  lemma HexPairOfByte(b: byte)
    ensures HexPairValue(HexDigitChar(b / 16), HexDigitChar(b % 16)) == Ok(b)
  {
    HexDigitValueOfChar(b / 16);
    HexDigitValueOfChar(b % 16);
  }

  /** `hexstr_to_bytearray(hex_dump2(b)) == b`. */
  lemma {:induction false} DecodeHexDump(b: seq<byte>)
    ensures DecodeHex(HexDump2(b)) == Ok(b)
  {
    var h := HexDump2(b);
    if b != [] {
      FormatHexByte(b[0]);
      assert h[0..2] == FormatHex(b[0], 2);
      HexPairOfByte(b[0]);
      assert h[2..] == HexDump2(b[1..]) by {
        assert Slice(b, 0, |b|) == b;
        assert Slice(b[1..], 0, |b| - 1) == b[1..];
      }
      DecodeHexDump(b[1..]);
      assert [b[0]] + b[1..] == b;
    }
  }

  /** util.is_in_range: low <= a <= high, both bounds included. */
  function IsInRange(a: int, low: int, high: int): (r: bool)
    ensures r ==> low <= high
    ensures r <==> 0 <= a - low <= high - low
  {
    a >= low && a <= high
  }

  lemma IsInRangeInclusive(low: int, high: int)
    requires low <= high
    ensures IsInRange(low, low, high) && IsInRange(high, low, high)
    ensures !IsInRange(low - 1, low, high) && !IsInRange(high + 1, low, high)
  {
  }

  const UpperCaseLetters: string := "ABCDEFGHIJKLMNOPQRSTUVWXYZ"
  const LowerCaseLetters: string := "abcdefghijklmnopqrstuvwxyz"
  const DecimalDigits: string := "0123456789"

  /**
   * util.is_printable: three inclusive ranges of character codes. A printable
   * code is an ASCII character other than the '.' hex_dump shows in its place.
   */
  function IsPrintable(ch: int): (r: bool)
    ensures r ==> 0 <= ch < 128 && ch != '.' as int
  {
    IsInRange(ch, 'A' as int, 'Z' as int)
    || IsInRange(ch, 'a' as int, 'z' as int)
    || IsInRange(ch, '0' as int, '9' as int)
  }

  /** The printable codes are exactly those of the ASCII letters and decimal digits. */
  lemma PrintableIsLetterOrDigit(ch: int)
    ensures IsPrintable(ch) <==>
      0 <= ch < 128 && (ch as char) in UpperCaseLetters + LowerCaseLetters + DecimalDigits
  {
    LettersAndDigitsAt();
  }

  lemma LettersAndDigitsAt()
    ensures forall k :: 0 <= k < |UpperCaseLetters| ==> UpperCaseLetters[k] as int == 'A' as int + k
    ensures forall k :: 0 <= k < |LowerCaseLetters| ==> LowerCaseLetters[k] as int == 'a' as int + k
    ensures forall k :: 0 <= k < |DecimalDigits| ==> DecimalDigits[k] as int == '0' as int + k
  {
    forall k | 0 <= k < |UpperCaseLetters|
      ensures UpperCaseLetters[k] as int == 'A' as int + k
    {
      assert UpperCaseLetters[k] in UpperCaseLetters;
    }
    forall k | 0 <= k < |LowerCaseLetters|
      ensures LowerCaseLetters[k] as int == 'a' as int + k
    {
      assert LowerCaseLetters[k] in LowerCaseLetters;
    }
    forall k | 0 <= k < |DecimalDigits|
      ensures DecimalDigits[k] as int == '0' as int + k
    {
      assert DecimalDigits[k] in DecimalDigits;
    }
  }

  const EventsPath: string := "/metadata/scheduledevents?api-version=2017-03-01"

  /** util.make_address: the scheduled-events URL on the given host. */
  function MakeAddress(ip: string): (url: string)
    ensures |url| == 7 + |ip| + |EventsPath|
    ensures url[..7] == "http://" && url[|url| - |EventsPath|..] == EventsPath
    ensures url[7..|url| - |EventsPath|] == ip
  {
    "http://" + ip + EventsPath
  }

  lemma MakeAddressInjective(a: string, b: string)
    requires MakeAddress(a) == MakeAddress(b)
    ensures a == b
  {
    assert MakeAddress(a)[7..|MakeAddress(a)| - |EventsPath|] == a;
  }
}
