/**
 * The byte helpers of util.py: big-endian unpacking (`unpack`,
 * `unpack_big_endian`), range comparison (`compare_bytes`) and the octets of a
 * 32-bit value as `int_to_ip4_addr` extracts them.
 */
module ByteUtil {
  import opened Bits

  type byte = x: int | 0 <= x < 256

  /** The value of s read as an unsigned big-endian integer. */
  function BigEndian(s: seq<byte>): (v: nat)
    ensures v < Pow2(8 * |s|)
  {
    if s == [] then 0
    else
      var init := s[..|s| - 1];
      Pow2Add(8 * |init|, 8);
      Pow2Constants();
      BigEndian(init) * 256 + s[|s| - 1]
  }

  /** The value of the n bytes of s from index k on, read as `unpack_big_endian` indexes them. */
  function BigEndianAt(s: seq<byte>, k: nat, n: nat): nat
    requires k + n <= |s|
  {
    if n == 0 then 0 else BigEndianAt(s, k, n - 1) * 256 + s[k + n - 1]
  }

  /** Reading in place is reading the slice. */
  lemma {:induction false} BigEndianAtSlice(s: seq<byte>, k: nat, n: nat)
    requires k + n <= |s|
    ensures BigEndianAt(s, k, n) == BigEndian(s[k..k + n])
  {
    if n > 0 {
      BigEndianAtSlice(s, k, n - 1);
      assert s[k..k + n][..n - 1] == s[k..k + n - 1];
    }
  }

  /** n bytes read in place are below 2^(8n). */
  lemma BigEndianAtBound(s: seq<byte>, k: nat, n: nat)
    requires k + n <= |s|
    ensures BigEndianAt(s, k, n) < Pow2(8 * n)
  {
    BigEndianAtSlice(s, k, n);
  }

  /** The n bytes of x, found in place in s, read back as x. */
  lemma ReadBack(s: seq<byte>, k: nat, n: nat, x: nat)
    requires x < Pow2(8 * n) && k + n <= |s| && s[k..k + n] == BytesOf(x, n)
    ensures BigEndianAt(s, k, n) == x
  {
    BigEndianAtSlice(s, k, n);
    BigEndianBytesOf(x, n);
  }

  /** The positional sum of s[k]·256^(|s|-1-k), written from the first byte. */
  function WeightedSum(s: seq<byte>): nat
  {
    if s == [] then 0 else s[0] * Pow2(8 * (|s| - 1)) + WeightedSum(s[1..])
  }

  lemma {:induction false} WeightedSumAppend(s: seq<byte>, b: byte)
    ensures WeightedSum(s + [b]) == WeightedSum(s) * 256 + b
  {
    if s == [] {
      assert WeightedSum([b]) == b * Pow2(0) + WeightedSum([]);
    } else {
      assert (s + [b])[1..] == s[1..] + [b];
      WeightedSumAppend(s[1..], b);
      Pow2Add(8 * (|s| - 1), 8);
      Pow2Constants();
      assert s[0] * Pow2(8 * |s|) == s[0] * Pow2(8 * (|s| - 1)) * 256;
    }
  }

  /** The recursive reading agrees with the positional sum. */
  lemma {:induction false} BigEndianIsWeightedSum(s: seq<byte>)
    ensures BigEndian(s) == WeightedSum(s)
  {
    if s != [] {
      var init := s[..|s| - 1];
      BigEndianIsWeightedSum(init);
      WeightedSumAppend(init, s[|s| - 1]);
      assert init + [s[|s| - 1]] == s;
    }
  }

  lemma BigEndianAppend(s: seq<byte>, b: byte)
    ensures BigEndian(s + [b]) == BigEndian(s) * 256 + b
  {
    assert (s + [b])[..|s|] == s;
  }

  /** The k-th bytes of the input, gathered as `unpack` reads them. */
  function Gather(buf: seq<byte>, offset: nat, indices: seq<nat>): (g: seq<byte>)
    requires forall k :: 0 <= k < |indices| ==> offset + indices[k] < |buf|
    ensures |g| == |indices|
  {
    seq(|indices|, k requires 0 <= k < |indices| => buf[offset + indices[k]])
  }

  /** util.unpack: fold `result = (result << 8) | byte` over the given indices. */
  method Unpack(buf: seq<byte>, offset: nat, indices: seq<nat>) returns (result: nat)
    requires forall k :: 0 <= k < |indices| ==> offset + indices[k] < |buf|
    ensures result == BigEndian(Gather(buf, offset, indices))
  {
    ghost var g := Gather(buf, offset, indices);
    result := 0;
    Pow2Constants();
    for k := 0 to |indices|
      invariant result == BigEndian(g[..k])
    {
      var b := buf[offset + indices[k]];
      OrIntoLowBits(result, 8, b);
      BigEndianAppend(g[..k], b);
      assert g[..k + 1] == g[..k] + [b];
      result := BitOr(result * Pow2(8), b);
    }
    assert g[..|indices|] == g;
  }

  /** util.unpack_big_endian: the big-endian value of buf[offset .. offset+length). */
  method UnpackBigEndian(buf: seq<byte>, offset: nat, length: nat) returns (result: nat)
    requires offset + length <= |buf|
    ensures result == WeightedSum(buf[offset..offset + length])
    ensures result == BigEndian(buf[offset..offset + length])
    ensures result == BigEndianAt(buf, offset, length)
    ensures result < Pow2(8 * length)
  {
    var indices := seq(length, k requires 0 <= k < length => k);
    result := Unpack(buf, offset, indices);
    assert Gather(buf, offset, indices) == buf[offset..offset + length];
    BigEndianIsWeightedSum(buf[offset..offset + length]);
    BigEndianAtSlice(buf, offset, length);
  }

  /** The byte ranges [start, start+length) of a and b are equal. */
  predicate SameBytes(a: seq<byte>, b: seq<byte>, start: nat, length: nat)
    requires start + length <= |a| && start + length <= |b|
  {
    a[start..start + length] == b[start..start + length]
  }

  /** util.compare_bytes: early-exit comparison of one byte range. */
  method CompareBytes(a: seq<byte>, b: seq<byte>, start: nat, length: nat) returns (same: bool)
    requires start + length <= |a| && start + length <= |b|
    ensures same <==> forall k :: start <= k < start + length ==> a[k] == b[k]
    ensures same == SameBytes(a, b, start, length)
  {
    for offset := start to start + length
      invariant forall k :: start <= k < offset ==> a[k] == b[k]
    {
      if a[offset] != b[offset] {
        assert a[start..start + length][offset - start] != b[start..start + length][offset - start];
        return false;
      }
    }
    assert a[start..start + length] == b[start..start + length];
    return true;
  }

  /** `(x >> shift) & 0xFF`, one octet of x. */
  function Octet(x: nat, shift: nat): (o: byte)
    ensures o == (x / Pow2(shift)) % 256
  {
    Pow2Constants();
    LowMask(x / Pow2(shift), 8);
    BitAnd(x / Pow2(shift), 0xFF)
  }

  /** The four octets of x, most significant first, as `int_to_ip4_addr` takes them. */
  function Octets(x: nat): (o: seq<byte>)
    ensures |o| == 4
  {
    [Octet(x, 24), Octet(x, 16), Octet(x, 8), Octet(x, 0)]
  }

  /** The octets `int_to_ip4_addr` extracts are the four low bytes of x, most significant first. */
  lemma OctetsAreBytes(x: nat)
    ensures Octets(x) == BytesOf(x, 4)
  {
    Pow2Constants();
    var q1 := x / 256;
    var q2 := q1 / 256;
    var q3 := q2 / 256;
    DivDiv(x, 256, 256);
    DivDiv(x, 65536, 256);
    assert BytesOf(q3, 1) == [q3 % 256];
    assert BytesOf(q2, 2) == [q3 % 256, q2 % 256];
    assert BytesOf(q1, 3) == [q3 % 256, q2 % 256, q1 % 256];
  }

  /** A 32-bit value is recovered from its octets. */
  lemma OctetsBigEndian(x: nat)
    requires x < Pow2(32)
    ensures BigEndian(Octets(x)) == x
  {
    OctetsAreBytes(x);
    BigEndianBytesOf(x, 4);
  }

  /** The octets of a 4-byte big-endian value are those 4 bytes. */
  lemma BigEndianOctets(s: seq<byte>)
    requires |s| == 4
    ensures Octets(BigEndian(s)) == s
  {
    OctetsAreBytes(BigEndian(s));
    BytesOfBigEndian(s);
  }

  /** Writing the value of s back on |s| bytes gives s. */
  lemma {:induction false} BytesOfBigEndian(s: seq<byte>)
    ensures BytesOf(BigEndian(s), |s|) == s
  {
    if s != [] {
      var init := s[..|s| - 1];
      BytesOfBigEndian(init);
      DivModUnique(BigEndian(s), 256, BigEndian(init), s[|s| - 1]);
      assert init + [s[|s| - 1]] == s;
    }
  }

  /** A part of a segment of s is the matching part of s. */
  lemma SliceOfSegment<T>(s: seq<T>, j: nat, e: seq<T>, a: nat, b: nat)
    requires j + |e| <= |s| && s[j..j + |e|] == e && a <= b <= |e|
    ensures s[j + a..j + b] == e[a..b]
  {
    forall k | 0 <= k < b - a
      ensures s[j + a..j + b][k] == e[a..b][k]
    {
      assert s[j..j + |e|][a + k] == s[j + a + k];
    }
  }

  /** A segment holding a + b holds a, and b right after it. */
  lemma SplitSegment<T>(s: seq<T>, j: nat, a: seq<T>, b: seq<T>)
    requires j + |a + b| <= |s| && s[j..j + |a + b|] == a + b
    ensures s[j..j + |a|] == a
    ensures s[j + |a|..j + |a| + |b|] == b
  {
    SliceOfSegment(s, j, a + b, 0, |a|);
    assert (a + b)[0..|a|] == a;
    SliceOfSegment(s, j, a + b, |a|, |a + b|);
    assert (a + b)[|a|..|a + b|] == b;
  }

  /** The middle part of a three-part concatenation. */
  lemma MiddleOf<T>(a: seq<T>, b: seq<T>, c: seq<T>)
    ensures (a + b + c)[|a|..|a| + |b|] == b
  {
    assert (a + b + c)[|a|..|a| + |b|] == ((a + b) + c)[..|a + b|][|a|..];
  }

  /** The n low octets of x, most significant first. */
  function BytesOf(x: nat, n: nat): (s: seq<byte>)
    ensures |s| == n
  {
    if n == 0 then [] else BytesOf(x / 256, n - 1) + [x % 256]
  }

  /** Reading back the n octets of a value below 2^(8n) gives the value. */
  lemma {:induction false} BigEndianBytesOf(x: nat, n: nat)
    requires x < Pow2(8 * n)
    ensures BigEndian(BytesOf(x, n)) == x
  {
    if n > 0 {
      Pow2Add(8 * (n - 1), 8);
      Pow2Constants();
      DivLess(x, 256, Pow2(8 * (n - 1)));
      BigEndianBytesOf(x / 256, n - 1);
      BigEndianAppend(BytesOf(x / 256, n - 1), x % 256);
    }
  }
}
