/**
 * Fixed-width machine words, modelled by their bits.
 *
 * A `Word` is the 64-bit unsigned integer the CAN code packs signals into
 * (`uint64_t`), written as its 64 bits, least significant first: element `i`
 * is bit `i`, the bit of weight 2^i. The C++ operators the codec uses on it
 * (`<<`, `>>` on `uint64_t` and on `int64_t`, `&`, `|`) are defined bit by bit,
 * and `ToNat`/`FromNat` connect a bit string to the number it denotes.
 */
module Bits {

  /** 2^n. */
  function Pow2(n: nat): (r: int)
    ensures r >= 1
  {
    if n == 0 then 1 else 2 * Pow2(n - 1)
  }

  const TwoTo32: nat := 0x1_0000_0000
  const TwoTo64: nat := 0x1_0000_0000_0000_0000

  type Word = w: seq<bool> | |w| == 64 witness Zero()

  /** The all-zero word. */
  function Zero(): (r: seq<bool>)
    ensures |r| == 64 && forall i :: 0 <= i < 64 ==> !r[i]
  {
    seq(64, i => false)
  }

  /** The all-ones word, `0xFFFFFFFFFFFFFFFFull`. */
  function Ones(): (r: Word)
    ensures forall i :: 0 <= i < 64 ==> r[i]
  {
    seq(64, i => true)
  }

  /** `w << n` on a 64-bit unsigned (or two's-complement) word. */
  function Shl(w: Word, n: nat): Word
    requires n <= 64
  {
    seq(64, i requires 0 <= i < 64 => i >= n && w[i - n])
  }

  /** `w >> n` on `uint64_t`: a logical shift, zeros come in at the top. */
  function Shr(w: Word, n: nat): Word
    requires n <= 64
  {
    seq(64, i requires 0 <= i < 64 => i + n < 64 && w[i + n])
  }

  /** `w >> n` on `int64_t`: an arithmetic shift, copies of bit 63 come in at the top. */
  function Sar(w: Word, n: nat): Word
    requires n <= 64
  {
    seq(64, i requires 0 <= i < 64 => if i + n < 64 then w[i + n] else w[63])
  }

  function And(a: Word, b: Word): Word
  {
    seq(64, i requires 0 <= i < 64 => a[i] && b[i])
  }

  function Or(a: Word, b: Word): Word
  {
    seq(64, i requires 0 <= i < 64 => a[i] || b[i])
  }

  function Not(a: Word): Word
  {
    seq(64, i requires 0 <= i < 64 => !a[i])
  }

  /** The bit position that bit `i` moves to when the eight bytes of a word are reversed. */
  function SwapIndex(i: int): (r: int)
    requires 0 <= i < 64
    ensures 0 <= r < 64 && r / 8 == 7 - i / 8 && r % 8 == i % 8
  {
    56 - 8 * (i / 8) + i % 8
  }

  /**
   * Reversal of the eight bytes of a word, as `std::reverse` does on the
   * `uint8_t[8]` that a little-endian host stores a `uint64_t` in: byte k of the
   * result is byte 7 - k of `w`, and the bits inside a byte keep their order.
   */
  function Bswap(w: Word): Word
  {
    seq(64, i requires 0 <= i < 64 => w[SwapIndex(i)])
  }

  lemma BswapInvolution(w: Word)
    ensures Bswap(Bswap(w)) == w
  {
  }

  /** `a` has no bit set outside `m`. */
  predicate Within(a: Word, m: Word)
  {
    forall i :: 0 <= i < 64 && a[i] ==> m[i]
  }

  /** `a` and `b` have no bit in common. */
  predicate Disjoint(a: Word, b: Word)
  {
    forall i :: 0 <= i < 64 ==> !(a[i] && b[i])
  }

  // ---------------------------------------------------------------------------
  // Numbers

  /** The unsigned number a bit string denotes, least significant bit first. */
  function ToNat(w: seq<bool>): nat
  {
    if w == [] then 0 else (if w[0] then 1 else 0) + 2 * ToNat(w[1..])
  }

  /** The `n` low bits of `v`, least significant first. */
  function FromNat(v: nat, n: nat): (r: seq<bool>)
    ensures |r| == n
  {
    if n == 0 then [] else [v % 2 == 1] + FromNat(v / 2, n - 1)
  }

  /**
   * The 64-bit pattern of an integer: `static_cast<uint64_t>(v)`, which for a
   * negative `v` is its two's complement (Dafny's `%` never returns a negative).
   */
  function FromInt(v: int): Word
  {
    FromNat(v % TwoTo64, 64)
  }

  /** A word read as `int64_t`: two's complement. */
  function ToInt(w: Word): int
  {
    ToNat(w) - (if w[63] then TwoTo64 else 0)
  }

  /** Division and remainder are determined by any decomposition with a remainder in range. */
  lemma DivModUnique(v: int, m: int, q: int, r: int)
    requires 0 < m && v == m * q + r && 0 <= r < m
    ensures v / m == q && v % m == r
  {
    var q', r' := v / m, v % m;
    assert m * (q - q') == r' - r;
    MulSmall(m, q - q');
  }

  /** A multiple of `m` strictly between `-m` and `m` is zero. */
  lemma MulSmall(m: int, d: int)
    requires 0 < m && -m < m * d < m
    ensures d == 0
  {
    assert m * -d == -(m * d);
    if d >= 1 {
      MulAtLeast(m, d);
    } else if d <= -1 {
      MulAtLeast(m, -d);
    }
  }

  /** `(v mod ab) mod a == v mod a`. */
  lemma ModMod(v: int, a: int, b: int)
    requires a > 0 && b > 0
    ensures a * b > 0 && (v % (a * b)) % a == v % a
  {
    MulAtLeast(a, b);
    var ab := a * b;
    var q, r := v / ab, v % ab;
    var q', r' := r / a, r % a;
    assert v == ab * q + r;
    assert r == a * q' + r';
    assert ab * q == a * (b * q);
    assert v == a * (b * q + q') + r';
    DivModUnique(v, a, b * q + q', r');
  }

  lemma MulAtLeast(m: int, d: int)
    requires 0 < m && 1 <= d
    ensures m * d >= m
  {
    assert m * d == m + m * (d - 1);
  }

  /** Splitting off the lowest bit: `v % 2P == v % 2 + 2 * ((v / 2) % P)` and the matching quotient. */
  lemma DivModStep(v: nat, p: nat)
    requires p >= 1
    ensures v % (2 * p) == v % 2 + 2 * ((v / 2) % p)
    ensures v / (2 * p) == (v / 2) / p
  {
    var q := (v / 2) / p;
    var b := (v / 2) % p;
    assert v / 2 == p * q + b;
    assert v == 2 * (v / 2) + v % 2;
    assert v == (2 * p) * q + (2 * b + v % 2);
    DivModUnique(v, 2 * p, q, 2 * b + v % 2);
  }

  lemma {:induction false} ToNatBound(w: seq<bool>)
    ensures ToNat(w) < Pow2(|w|)
    decreases |w|
  {
    if w != [] {
      ToNatBound(w[1..]);
    }
  }

  lemma {:induction false} ToNatFromNat(v: nat, n: nat)
    ensures ToNat(FromNat(v, n)) == v % Pow2(n)
    decreases n
  {
    if n > 0 {
      var r := FromNat(v, n);
      assert r[1..] == FromNat(v / 2, n - 1);
      ToNatFromNat(v / 2, n - 1);
      DivModStep(v, Pow2(n - 1));
    }
  }

  lemma {:induction false} FromNatToNat(w: seq<bool>)
    ensures FromNat(ToNat(w), |w|) == w
    decreases |w|
  {
    if w != [] {
      var v := ToNat(w);
      assert v % 2 == (if w[0] then 1 else 0) && v / 2 == ToNat(w[1..]);
      FromNatToNat(w[1..]);
    }
  }

  lemma {:induction false} ToNatAppend(a: seq<bool>, b: seq<bool>)
    ensures ToNat(a + b) == ToNat(a) + Pow2(|a|) * ToNat(b)
    decreases |a|
  {
    if a == [] {
      assert a + b == b;
    } else {
      assert (a + b)[1..] == a[1..] + b;
      ToNatAppend(a[1..], b);
      var bit := if a[0] then 1 else 0;
      var t, p, tb := ToNat(a[1..]), Pow2(|a| - 1), ToNat(b);
      assert ToNat(a + b) == bit + 2 * (t + p * tb) by {
        assert (a + b)[0] == a[0];
      }
      assert ToNat(a) == bit + 2 * t;
      assert Pow2(|a|) == 2 * p;
      Regroup(bit, t, p, tb);
    }
  }

  lemma Regroup(bit: int, t: int, p: int, tb: int)
    ensures bit + 2 * (t + p * tb) == (bit + 2 * t) + (2 * p) * tb
  {
  }

  /** Bit `i` of `FromNat(v, n)` is bit `i` of `v`. */
  lemma {:induction false} FromNatBit(v: nat, n: nat, i: nat)
    requires i < n
    ensures FromNat(v, n)[i] == ((v / Pow2(i)) % 2 == 1)
    decreases i
  {
    if i > 0 {
      FromNatBit(v / 2, n - 1, i - 1);
      DivModStep(v, Pow2(i - 1));
    }
  }

  /** The low `k` bits of a bit string denote its value modulo 2^k. */
  lemma ToNatPrefix(w: seq<bool>, k: nat)
    requires k <= |w|
    ensures ToNat(w[..k]) == ToNat(w) % Pow2(k)
    ensures ToNat(w[k..]) == ToNat(w) / Pow2(k)
  {
    assert w == w[..k] + w[k..];
    ToNatAppend(w[..k], w[k..]);
    ToNatBound(w[..k]);
    DivModUnique(ToNat(w), Pow2(k), ToNat(w[k..]), ToNat(w[..k]));
  }

  /** A string of zeros denotes 0. */
  lemma {:induction false} ToNatZeros(w: seq<bool>)
    requires forall i :: 0 <= i < |w| ==> !w[i]
    ensures ToNat(w) == 0
    decreases |w|
  {
    if w != [] {
      ToNatZeros(w[1..]);
    }
  }

  lemma {:induction false} Pow2Add(a: nat, b: nat)
    ensures Pow2(a + b) == Pow2(a) * Pow2(b)
    decreases a
  {
    if a > 0 {
      Pow2Add(a - 1, b);
    }
  }

  lemma {:induction false} Pow2Monotone(a: nat, b: nat)
    requires a <= b
    ensures Pow2(a) <= Pow2(b)
    decreases b
  {
    if a < b {
      Pow2Monotone(a, b - 1);
    }
  }

  lemma Pow2Byte()
    ensures Pow2(8) == 0x100
  {
  }

  lemma Pow2ThirtyTwo()
    ensures Pow2(32) == TwoTo32
  {
    Pow2Byte();
    Pow2Add(8, 8);
    assert Pow2(16) == 0x1_0000;
    Pow2Add(16, 16);
  }

  lemma Pow2SixtyFour()
    ensures Pow2(64) == TwoTo64
  {
    Pow2ThirtyTwo();
    Pow2Add(32, 32);
  }

  /** `a * (b - 1) == a * b - a`. */
  lemma MulPred(a: int, b: int)
    ensures a * (b - 1) == a * b - a
  {
  }

  /** A string of ones denotes 2^n - 1. */
  lemma {:induction false} ToNatOnes(w: seq<bool>)
    requires forall i :: 0 <= i < |w| ==> w[i]
    ensures ToNat(w) == Pow2(|w|) - 1
    decreases |w|
  {
    if w != [] {
      ToNatOnes(w[1..]);
    }
  }

  // ---------------------------------------------------------------------------
  // What the operators compute

  /** `w >> n` on `uint64_t` is division by 2^n. */
  lemma ShrValue(w: Word, n: nat)
    requires n <= 64
    ensures ToNat(Shr(w, n)) == ToNat(w) / Pow2(n)
  {
    var z := seq(n, i => false);
    assert Shr(w, n) == w[n..] + z;
    ToNatAppend(w[n..], z);
    ToNatZeros(z);
    ToNatPrefix(w, n);
  }

  /** `w << n` on `uint64_t` is multiplication by 2^n, modulo 2^64. */
  lemma ShlValue(w: Word, n: nat)
    requires n <= 64
    ensures ToNat(Shl(w, n)) == (ToNat(w) * Pow2(n)) % TwoTo64
  {
    var z := seq(n, i => false);
    var lo := w[..64 - n];
    assert Shl(w, n) == z + lo;
    ToNatAppend(z, lo);
    ToNatZeros(z);
    ToNatPrefix(w, 64 - n);
    Pow2Add(n, 64 - n);
    Pow2SixtyFour();
    ScaledMod(ToNat(w), Pow2(n), Pow2(64 - n));
  }

  /** `a * (x mod b) == (x * a) mod (a * b)`. */
  lemma ScaledMod(x: nat, a: int, b: int)
    requires a >= 1 && b >= 1
    ensures a * b > 0 && a * (x % b) == (x * a) % (a * b)
  {
    var q, r := x / b, x % b;
    assert x * a == (a * b) * q + r * a by {
      assert x == q * b + r;
    }
    assert r * a < a * b by {
      assert (b - r) * a >= a by {
        MulAtLeast(a, b - r);
      }
    }
    MulAtLeast(a, b);
    DivModUnique(x * a, a * b, q, r * a);
  }

  /** `w >> n` on `int64_t` is division by 2^n rounded toward minus infinity. */
  lemma SarValue(w: Word, n: nat)
    requires n <= 64
    ensures ToInt(Sar(w, n)) == ToInt(w) / Pow2(n)
  {
    if n == 0 {
      assert Sar(w, 0) == w;
    } else if !w[63] {
      assert Sar(w, n) == Shr(w, n);
      ShrValue(w, n);
    } else {
      SarNegative(w, n);
      Pow2Add(64 - n, n);
      Pow2SixtyFour();
      ShiftedDiv(ToNat(w), Pow2(n), Pow2(64 - n));
    }
  }

  /** An arithmetic shift of a word with bit 63 set fills the top `n` bits with ones. */
  lemma SarNegative(w: Word, n: nat)
    requires 1 <= n <= 64 && w[63]
    ensures Sar(w, n)[63]
    ensures ToNat(Sar(w, n)) == ToNat(w) / Pow2(n) + Pow2(64 - n) * (Pow2(n) - 1)
  {
    var e := seq(n, i => true);
    assert Sar(w, n) == w[n..] + e;
    ToNatAppend(w[n..], e);
    ToNatPrefix(w, n);
    ToNatOnes(e);
  }

  /** `(x - a * b) / a == x / a - b`, and the shifted word's value once `a * b` is taken off. */
  lemma ShiftedDiv(x: nat, a: int, b: int)
    requires a >= 1
    ensures (x - b * a) / a == x / a - b
    ensures x / a + b * (a - 1) - b * a == x / a - b
  {
    assert x - b * a == (x / a - b) * a + x % a;
    DivModUnique(x - b * a, a, x / a - b, x % a);
    MulPred(b, a);
  }

  /** `static_cast<uint64_t>` of an `int64_t` value, read back as `int64_t`, is the value. */
  lemma ToIntFromInt(v: int)
    requires -0x8000_0000_0000_0000 <= v < 0x8000_0000_0000_0000
    ensures ToInt(FromInt(v)) == v
  {
    Pow2SixtyFour();
    assert Pow2(64) == 2 * Pow2(63);
    var u := v % TwoTo64;
    ToNatFromNat(u, 64);
    DivModUnique(u, TwoTo64, 0, u);
    FromNatBit(u, 64, 63);
    if v >= 0 {
      DivModUnique(v, TwoTo64, 0, v);
      DivModUnique(u, Pow2(63), 0, u);
    } else {
      DivModUnique(v, TwoTo64, -1, v + TwoTo64);
      DivModUnique(u, Pow2(63), 1, u - Pow2(63));
    }
  }

  /** Every 64-bit pattern is the `static_cast<uint64_t>` of the `int64_t` it denotes. */
  lemma FromIntToInt(w: Word)
    ensures FromInt(ToInt(w)) == w
  {
    Pow2SixtyFour();
    ToNatBound(w);
    if w[63] {
      DivModUnique(ToInt(w), TwoTo64, -1, ToNat(w));
    } else {
      DivModUnique(ToInt(w), TwoTo64, 0, ToNat(w));
    }
    FromNatToNat(w);
  }
}
