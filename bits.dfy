/**
 * Python integer operations on non-negative values: shifts are multiplication and
 * division by powers of two, and `&`, `|` are defined bit by bit, as Python
 * defines them on non-negative ints.
 */
module Bits {

  /** 2 to the power n. */
  function Pow2(n: nat): (r: nat)
    ensures r >= 1
  {
    if n == 0 then 1 else 2 * Pow2(n - 1)
  }

  /** Python's `x << n` for non-negative x, one bit at a time. */
  function Shl(x: nat, n: nat): nat
  {
    if n == 0 then x else 2 * Shl(x, n - 1)
  }

  /** Python's `x >> n` for non-negative x, one bit at a time. */
  function Shr(x: nat, n: nat): nat
  {
    if n == 0 then x else Shr(x / 2, n - 1)
  }

  /** Python's `a & b` for non-negative a and b. */
  function BitAnd(a: nat, b: nat): nat
    decreases a
  {
    if a == 0 || b == 0 then 0
    else 2 * BitAnd(a / 2, b / 2) + (if a % 2 == 1 && b % 2 == 1 then 1 else 0)
  }

  /** Python's `a | b` for non-negative a and b. */
  function BitOr(a: nat, b: nat): nat
    decreases a + b
  {
    if a == 0 then b
    else if b == 0 then a
    else 2 * BitOr(a / 2, b / 2) + (if a % 2 == 1 || b % 2 == 1 then 1 else 0)
  }

  lemma {:induction false} Pow2Add(a: nat, b: nat)
    ensures Pow2(a + b) == Pow2(a) * Pow2(b)
  {
    if a > 0 {
      Pow2Add(a - 1, b);
    }
  }

  lemma Pow2Constants()
    ensures Pow2(3) == 8 && Pow2(4) == 16 && Pow2(8) == 256 && Pow2(9) == 512
    ensures Pow2(16) == 65536 && Pow2(24) == 16777216 && Pow2(32) == 4294967296
  {
    assert Pow2(8) == 256;
    Pow2Add(8, 8);
    Pow2Add(16, 8);
    Pow2Add(24, 8);
  }

  lemma {:induction false} Pow2Monotone(a: nat, b: nat)
    requires a <= b
    ensures Pow2(a) <= Pow2(b)
  {
    if a < b {
      Pow2Monotone(a, b - 1);
    }
  }

  /** Division and remainder are determined by any exact decomposition. */
  lemma DivModUnique(x: int, d: int, q: int, r: int)
    requires d > 0 && 0 <= r < d && x == q * d + r
    ensures x / d == q && x % d == r
  {
    var q', r' := x / d, x % d;
    assert x == q' * d + r';
    MulSign(q - q', d);
    assert (q - q') * d == q * d - q' * d;
  }

  /** A non-zero multiple of d is at least d away from zero. */
  lemma MulSign(a: int, d: int)
    requires d > 0
    ensures a >= 1 ==> a * d >= d
    ensures a <= -1 ==> a * d <= -d
  {
    if a >= 1 {
      var b := a - 1;
      assert a * d == b * d + d;
    } else if a <= -1 {
      var b := -a - 1;
      assert a * d == -(b * d) - d;
    }
  }

  /** Dividing twice is dividing by the product. */
  lemma DivDiv(x: nat, d: nat, e: nat)
    requires d > 0 && e > 0
    ensures x / d / e == x / (d * e)
    ensures (x / (d * e)) * e + (x / d) % e == x / d
  {
    var q := x / d / e;
    var r := (x / d) % e * d + x % d;
    assert x / d == q * e + (x / d) % e;
    assert x == (x / d) * d + x % d;
    assert x == q * (d * e) + r;
    assert r < d * e by {
      assert (x / d) % e <= e - 1;
      assert (x / d) % e * d <= (e - 1) * d;
    }
    DivModUnique(x, d * e, q, r);
  }

  /** The remainder modulo 2^(m+1) splits into the remainder of x/2 and the low bit. */
  lemma ModHalf(x: nat, m: nat)
    ensures x % Pow2(m + 1) == 2 * ((x / 2) % Pow2(m)) + x % 2
  {
    var p := Pow2(m);
    var a, b := (x / 2) / p, (x / 2) % p;
    assert x / 2 == a * p + b;
    assert x == a * (2 * p) + (2 * b + x % 2);
    DivModUnique(x, 2 * p, a, 2 * b + x % 2);
  }

  /** The value 2^n - 2^k: the bits k..n-1 set. */
  function MaskBits(n: nat, k: nat): nat
    requires k <= n
  {
    Pow2Monotone(k, n);
    Pow2(n) - Pow2(k)
  }

  /** Masking with n low one-bits is taking the remainder modulo 2^n. */
  lemma {:induction false} LowMask(x: nat, n: nat)
    ensures BitAnd(x, Pow2(n) - 1) == x % Pow2(n)
  {
    if n == 0 {
      assert Pow2(0) - 1 == 0;
    } else if x == 0 {
    } else {
      var p := Pow2(n - 1);
      var m := Pow2(n) - 1;
      assert m == 2 * (p - 1) + 1;
      assert m % 2 == 1 && m / 2 == p - 1;
      assert BitAnd(x, m) == 2 * BitAnd(x / 2, m / 2) + x % 2;
      LowMask(x / 2, n - 1);
      ModHalf(x, n - 1);
    }
  }

  /** Masking with the bits k..n-1 set keeps exactly those bits of x. */
  lemma {:induction false} RangeMask(x: nat, n: nat, k: nat)
    requires k <= n
    ensures BitAnd(x, MaskBits(n, k)) == x % Pow2(n) - x % Pow2(k)
  {
    if k == 0 {
      LowMask(x, n);
    } else if x == 0 || k == n {
    } else {
      var m := MaskBits(n, k);
      assert m == 2 * MaskBits(n - 1, k - 1);
      assert m % 2 == 0 && m / 2 == MaskBits(n - 1, k - 1);
      assert BitAnd(x, m) == 2 * BitAnd(x / 2, m / 2);
      RangeMask(x / 2, n - 1, k - 1);
      ModHalf(x, n - 1);
      ModHalf(x, k - 1);
    }
  }

  /** `(x << n) | b` is `x * 2^n + b` when b fits in the n vacated bits. */
  lemma {:induction false} OrIntoLowBits(x: nat, n: nat, b: nat)
    requires b < Pow2(n)
    ensures BitOr(x * Pow2(n), b) == x * Pow2(n) + b
  {
    if n > 0 && x > 0 && b > 0 {
      var p := Pow2(n - 1);
      assert x * Pow2(n) == 2 * (x * p);
      assert (x * Pow2(n)) / 2 == x * p && (x * Pow2(n)) % 2 == 0;
      OrIntoLowBits(x, n - 1, b / 2);
    }
  }

  /** Clearing the low k bits of an x below 2^n with the mask 2^n - 2^k. */
  lemma ClearLowBits(x: nat, n: nat, k: nat)
    requires k <= n && x < Pow2(n)
    ensures BitAnd(x, MaskBits(n, k)) == x - x % Pow2(k)
    ensures BitAnd(x, MaskBits(n, k)) % Pow2(k) == 0
  {
    var p := Pow2(k);
    RangeMask(x, n, k);
    assert BitAnd(x, MaskBits(n, k)) == x % Pow2(n) - x % p;
    DivModUnique(x, Pow2(n), 0, x);
    RoundDownDivisible(x, p);
  }

  /** Rounding x down to a multiple of p gives a multiple of p. */
  lemma RoundDownDivisible(x: int, p: int)
    requires p > 0
    ensures x - x % p == (x / p) * p
    ensures (x - x % p) % p == 0
  {
    var q := x / p;
    assert x == q * p + x % p;
    DivModUnique(q * p, p, q, 0);
  }
  /** `&` is symmetric. */
  lemma {:induction false} BitAndCommutes(a: nat, b: nat)
    ensures BitAnd(a, b) == BitAnd(b, a)
  {
    if a != 0 && b != 0 {
      BitAndCommutes(a / 2, b / 2);
    }
  }

  /** A multiple of 2^b is a multiple of every smaller power of two. */
  lemma ModPow2Smaller(x: nat, a: nat, b: nat)
    requires a <= b && x % Pow2(b) == 0
    ensures x % Pow2(a) == 0
  {
    var c := b - a;
    Pow2Add(a, c);
    assert a + c == b;
    MulModZero(x, Pow2(a), Pow2(c));
  }

  /** A multiple of p * q is a multiple of p. */
  lemma MulModZero(x: int, p: int, q: int)
    requires p > 0 && q > 0 && x % (p * q) == 0
    ensures x % p == 0
  {
    MulSign(q, p);
    var t := x / (p * q);
    assert x == t * (p * q);
    assert x == (t * q) * p;
    DivModUnique(x, p, t * q, 0);
  }

  /** The k low bits of x are clear, tested one bit at a time. */
  predicate LowBitsClear(x: nat, k: nat)
  {
    k == 0 || (x % 2 == 0 && LowBitsClear(x / 2, k - 1))
  }

  /** Clear low bits are divisibility by 2^k. */
  lemma {:induction false} LowBitsClearIsMod(x: nat, k: nat)
    ensures LowBitsClear(x, k) <==> x % Pow2(k) == 0
  {
    if k > 0 {
      LowBitsClearIsMod(x / 2, k - 1);
      ModHalf(x, k - 1);
    }
  }

  /** 32 - used: the low bits of a 32-bit word below its top `used` bits. */
  function LowBits(used: nat): (n: nat)
    requires used <= 32
    ensures n + used == 32
  {
    32 - used
  }

  /** `0xFFFFFFFF & (0xFFFFFFFF << k)` for k <= 32 keeps the bits k..31 set. */
  lemma TopMask(k: nat)
    requires k <= 32
    ensures BitAnd(0xFFFFFFFF, Shl(0xFFFFFFFF, k)) == MaskBits(32, k)
  {
    Pow2Constants();
    ShiftedOnes(32, k);
  }

  /** The n low one-bits shifted left by k and cut back to n bits: the bits k..n-1. */
  lemma ShiftedOnes(n: nat, k: nat)
    requires k <= n
    ensures BitAnd(Pow2(n) - 1, Shl(Pow2(n) - 1, k)) == MaskBits(n, k)
  {
    var p, q := Pow2(k), Pow2(n);
    Pow2Monotone(k, n);
    ShlIsMul(q - 1, k);
    var y := (q - 1) * p;
    BitAndCommutes(q - 1, y);
    LowMask(y, n);
    OnesTimes(p, q);
  }

  /** (q - 1)·p leaves q - p modulo q. */
  lemma OnesTimes(p: int, q: int)
    requires 1 <= p <= q
    ensures ((q - 1) * p) % q == q - p
  {
    Regroup(p, q);
    DivModUnique((q - 1) * p, q, p - 1, q - p);
  }

  lemma Regroup(p: int, q: int)
    ensures (q - 1) * p == (p - 1) * q + (q - p)
  {
  }

  /** Shifting a value below 2^n left by k gives a value below 2^(n+k). */
  lemma ShlFits(x: nat, n: nat, k: nat, w: nat)
    requires x < Pow2(n) && n + k == w
    ensures Shl(x, k) < Pow2(w)
  {
    ShlIsMul(x, k);
    Pow2Add(n, k);
    MulLess(x, Pow2(n), Pow2(k));
  }

  lemma MulLess(a: int, b: int, c: int)
    requires a < b && c > 0
    ensures a * c < b * c
  {
    MulSign(b - a, c);
    assert b * c - a * c == (b - a) * c;
  }

  /** `(x >> k) << k` is x with its k low bits cleared. */
  lemma ShrShl(x: nat, k: nat)
    ensures Shl(Shr(x, k), k) == x - x % Pow2(k)
    ensures Shl(Shr(x, k), k) % Pow2(k) == 0
  {
    ShrIsDiv(x, k);
    ShlIsMul(Shr(x, k), k);
    RoundDownDivisible(x, Pow2(k));
  }

  /** `x << n` is multiplication by 2^n. */
  lemma {:induction false} ShlIsMul(x: nat, n: nat)
    ensures Shl(x, n) == x * Pow2(n)
  {
    if n > 0 {
      ShlIsMul(x, n - 1);
      assert x * Pow2(n) == 2 * (x * Pow2(n - 1));
    }
  }

  /** `x >> n` is floor division by 2^n. */
  lemma {:induction false} ShrIsDiv(x: nat, n: nat)
    ensures Shr(x, n) == x / Pow2(n)
  {
    if n > 0 {
      ShrIsDiv(x / 2, n - 1);
      DivDiv(x, 2, Pow2(n - 1));
    }
  }

  /** Dividing a value below q * p by p leaves a value below q. */
  lemma DivLess(x: nat, p: nat, q: nat)
    requires p > 0 && x < q * p
    ensures x / p < q
  {
    var d := x / p;
    assert d * p <= x;
    MulSign(q - d, p);
    assert (q - d) * p == q * p - d * p;
  }
}
