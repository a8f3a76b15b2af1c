/**
 * The bit-field codec of `CANSignal` (include/can_interface.h).
 *
 * A signal is a run of `length` bits at bit `position` of the 64-bit message
 * word. Its static parameters (the template arguments of `CANSignal`) are a
 * `SignalConfig`; the raw integer it carries is packed with `Encode` and read
 * back with `DecodeRaw`, both written operator by operator as the C++ does,
 * and the lemmas below say what those operator chains amount to.
 */
module CanSignals {
  import opened Bits

  type uint8 = x: int | 0 <= x < 0x100
  type uint16 = x: int | 0 <= x < 0x1_0000
  type uint32 = x: int | 0 <= x < 0x1_0000_0000

  datatype ByteOrder = BigEndian | LittleEndian

  /** `kCANTemplateFloatDenominator`: factors and offsets are fixed point with 16 fraction bits. */
  const FloatDenominator: int := 0x1_0000

  /** The template parameters of one `CANSignal` instance. */
  datatype SignalConfig = SignalConfig(
    position: nat,
    length: nat,
    factor: int,
    offset: int,
    signedRaw: bool,
    byteOrder: ByteOrder)
  {
    /**
     * What the template demands of its arguments: the `static_assert` on the
     * factor, and a field inside the word that the mask's shifts can describe.
     */
    predicate Valid()
    {
      1 <= length && position + length <= 64 && factor != 0
    }

    /** `unity_factor`: a factor of exactly 1 and no offset, so the raw value is the value. */
    predicate Unity()
    {
      factor == FloatDenominator && offset == 0
    }
  }

  /** `MakeUnsignedCANSignal(T, position, length, 1, 0)`. */
  function UnsignedUnity(position: nat, length: nat): (c: SignalConfig)
    ensures c.Unity() && !c.signedRaw && c.byteOrder == LittleEndian
    ensures c.position == position && c.length == length
  {
    SignalConfig(position, length, FloatDenominator, 0, false, LittleEndian)
  }

  // ---------------------------------------------------------------------------
  // The mask

  /** `generate_mask(position, length)`: all ones, shifted left by `64 - length`, then right by `64 - (length + position)`. */
  function GenerateMask(position: nat, length: nat): (m: Word)
    requires 1 <= length && position + length <= 64
    ensures forall i :: 0 <= i < 64 ==> (m[i] <==> position <= i < position + length)
  {
    Shr(Shl(Ones(), 64 - length), 64 - (length + position))
  }

  function Mask(c: SignalConfig): (m: Word)
    requires c.Valid()
    ensures forall i :: 0 <= i < 64 ==> (m[i] <==> c.position <= i < c.position + c.length)
  {
    GenerateMask(c.position, c.length)
  }

  // ---------------------------------------------------------------------------
  // Encoding

  /**
   * The masked bits `EncodeSignal` ORs into the buffer for the raw value `raw`,
   * `static_cast` to the signed or unsigned 64-bit raw type, which keeps the
   * two's-complement bits of `raw`.
   */
  function Contribution(c: SignalConfig, raw: int): (r: Word)
    requires c.Valid()
    ensures Within(r, Mask(c))
  {
    Place(c, FromInt(raw))
  }

  /**
   * The bit pattern `x` placed in the field. Little endian: shifted up to
   * `position`. Big endian: shifted up to the top of the word, then its eight
   * bytes reversed. In both cases the result is cut to the mask.
   */
  function Place(c: SignalConfig, x: Word): (r: Word)
    requires c.Valid()
    ensures Within(r, Mask(c))
  {
    if c.byteOrder == LittleEndian then
      And(Shl(x, c.position), Mask(c))
    else
      And(Bswap(Shl(x, 64 - (c.position + c.length))), Mask(c))
  }

  /** `*buffer |= contribution`: no bit is cleared and no bit outside the mask changes. */
  function Encode(c: SignalConfig, raw: int, buffer: Word): (r: Word)
    requires c.Valid()
    ensures forall i :: 0 <= i < 64 ==> (buffer[i] ==> r[i])
    ensures forall i :: 0 <= i < 64 && !Mask(c)[i] ==> r[i] == buffer[i]
  {
    Or(buffer, Contribution(c, raw))
  }

  /** Inside a clear field, the encoded buffer holds exactly the contribution. */
  lemma EncodeInsideField(c: SignalConfig, raw: int, buffer: Word, i: nat)
    requires c.Valid() && c.position <= i < c.position + c.length
    requires !buffer[i]
    ensures Encode(c, raw, buffer)[i] == Contribution(c, raw)[i]
  {
  }

  /** On the little-endian path bit `position + k` of the field becomes bit `k` of the raw value. */
  lemma EncodeLittleEndianBits(c: SignalConfig, raw: int, buffer: Word)
    requires c.Valid() && c.byteOrder == LittleEndian
    ensures forall i :: 0 <= i < 64 ==>
      Encode(c, raw, buffer)[i] == (buffer[i] || (c.position <= i < c.position + c.length && FromInt(raw)[i - c.position]))
  {
  }

  // ---------------------------------------------------------------------------
  // Decoding

  /**
   * The word `DecodeSignal` reads its value from: the buffer cut to the mask,
   * shifted so the field's top bit is bit 63 (big endian: byte-reversed, then
   * shifted left by `position`), then shifted right by `64 - length`,
   * arithmetically when the raw type is `int64_t`.
   */
  function DecodedWord(c: SignalConfig, buffer: Word): Word
    requires c.Valid()
  {
    Extend(c, Align(c, And(buffer, Mask(c))))
  }

  /** The field moved so that its top bit is bit 63. */
  function Align(c: SignalConfig, m: Word): Word
    requires c.Valid()
  {
    if c.byteOrder == LittleEndian then Shl(m, 64 - (c.position + c.length)) else Shl(Bswap(m), c.position)
  }

  /** The right shift by `64 - length`: arithmetic for a signed raw type, logical otherwise. */
  function Extend(c: SignalConfig, s: Word): Word
    requires c.Valid()
  {
    if c.signedRaw then Sar(s, 64 - c.length) else Shr(s, 64 - c.length)
  }

  /** The number a field of bits denotes: unsigned, or two's complement when the raw type is signed. */
  function FieldValue(signed: bool, f: seq<bool>): int
    requires |f| >= 1
  {
    ToNat(f) - (if signed && f[|f| - 1] then Pow2(|f|) else 0)
  }

  /** The raw value `DecodeSignal` computes before its final `static_cast`. */
  function DecodeRaw(c: SignalConfig, buffer: Word): int
    requires c.Valid()
  {
    var d := DecodedWord(c, buffer);
    if c.signedRaw then ToInt(d) else ToNat(d)
  }

  /**
   * The final right shift by `64 - length` reads the top `length` bits of the
   * aligned word as the field: unsigned, or two's complement for `int64_t`.
   */
  lemma ExtendReadsField(c: SignalConfig, s: Word)
    requires c.Valid()
    ensures var d := Extend(c, s);
      (if c.signedRaw then ToInt(d) else ToNat(d)) == FieldValue(c.signedRaw, s[64 - c.length..])
  {
    var f := s[64 - c.length..];
    forall k | 0 <= k < 64
      ensures Extend(c, s)[k] == if k < |f| then f[k] else c.signedRaw && f[|f| - 1]
    {
      ExtendAt(c, s, k);
    }
    ReadField(c.signedRaw, f, Extend(c, s));
  }

  /** Little endian: the left shift by `64 - (position + length)` puts the field in the top `length` bits. */
  lemma LittleEndianAlign(c: SignalConfig, m: Word)
    requires c.Valid() && c.byteOrder == LittleEndian
    ensures Align(c, m)[64 - c.length..] == m[c.position .. c.position + c.length]
  {
  }

  /**
   * Whatever the buffer holds, the raw value decoded lies in the range of a
   * `length`-bit field: `[0, 2^length)` unsigned, `[-2^(length-1), 2^(length-1))` signed.
   */
  lemma DecodeRawRange(c: SignalConfig, buffer: Word)
    requires c.Valid()
    ensures c.signedRaw ==> -Pow2(c.length - 1) <= DecodeRaw(c, buffer) < Pow2(c.length - 1)
    ensures !c.signedRaw ==> 0 <= DecodeRaw(c, buffer) < Pow2(c.length)
  {
    var s := Align(c, And(buffer, Mask(c)));
    var f := s[64 - c.length..];
    ExtendReadsField(c, s);
    ToNatBound(f);
    TopBit(f);
    assert Pow2(c.length) == 2 * Pow2(c.length - 1);
  }

  /** Little endian: the raw value is the field's bits, read unsigned or as two's complement. */
  lemma LittleEndianDecode(c: SignalConfig, buffer: Word)
    requires c.Valid() && c.byteOrder == LittleEndian
    ensures DecodeRaw(c, buffer) == FieldValue(c.signedRaw, buffer[c.position .. c.position + c.length])
  {
    LittleEndianDecodedWord(c, buffer);
    ReadField(c.signedRaw, buffer[c.position .. c.position + c.length], DecodedWord(c, buffer));
  }

  /** Little endian: the decoded word is the field, padded with zeros or with copies of its top bit. */
  lemma LittleEndianDecodedWord(c: SignalConfig, buffer: Word)
    requires c.Valid() && c.byteOrder == LittleEndian
    ensures var d := DecodedWord(c, buffer);
      forall k :: 0 <= k < 64 ==>
        d[k] == if k < c.length then buffer[c.position + k] else c.signedRaw && buffer[c.position + c.length - 1]
  {
  }

  /**
   * A word that holds the field `f` in its low bits and, above it, zeros
   * (unsigned) or copies of the field's top bit (signed), is read as the
   * field's value.
   */
  lemma ReadField(signed: bool, f: seq<bool>, d: Word)
    requires 1 <= |f| <= 64
    requires forall k :: 0 <= k < 64 ==> d[k] == if k < |f| then f[k] else signed && f[|f| - 1]
    ensures (if signed then ToInt(d) else ToNat(d)) == FieldValue(signed, f)
  {
    var l := |f|;
    var hi := d[l..];
    assert d == f + hi;
    if signed && f[l - 1] {
      assert d[63];
      ReadNegative(f, hi);
    } else {
      ToNatAppend(f, hi);
      ToNatZeros(hi);
      assert ToNat(d) == ToNat(f);
      if signed {
        assert !d[63];
      }
    }
  }

  /** A field whose top bit is set, followed by ones up to bit 63, is read as the field minus 2^|f|. */
  lemma ReadNegative(f: seq<bool>, hi: seq<bool>)
    requires 1 <= |f| && |f| + |hi| == 64
    requires forall i :: 0 <= i < |hi| ==> hi[i]
    ensures ToNat(f + hi) - TwoTo64 == ToNat(f) - Pow2(|f|)
  {
    var l := |f|;
    ToNatAppend(f, hi);
    ToNatOnes(hi);
    var a, b, t, h := Pow2(l), Pow2(64 - l), ToNat(f), ToNat(hi);
    Pow2Add(l, 64 - l);
    Pow2SixtyFour();
    MulPred(a, b);
    assert h == b - 1;
    assert a * h == a * b - a;
  }

  // ---------------------------------------------------------------------------
  // Round trips

  /** What a `length`-bit two's-complement field makes of `v`: `v` modulo 2^length, read as signed. */
  function SignWrap(v: int, length: nat): (r: int)
    requires length >= 1
    ensures -Pow2(length - 1) <= r < Pow2(length - 1)
  {
    var u := v % Pow2(length);
    assert Pow2(length) == 2 * Pow2(length - 1);
    if u >= Pow2(length - 1) then u - Pow2(length) else u
  }

  /** A value already in the signed range survives `SignWrap`. */
  lemma SignWrapInRange(v: int, length: nat)
    requires length >= 1 && -Pow2(length - 1) <= v < Pow2(length - 1)
    ensures SignWrap(v, length) == v
  {
    var p := Pow2(length);
    assert p == 2 * Pow2(length - 1);
    if v >= 0 {
      DivModUnique(v, p, 0, v);
    } else {
      DivModUnique(v, p, -1, v + p);
    }
  }

  /** Reducing modulo 2^64 first does not change a remainder modulo 2^l for l <= 64. */
  lemma ModTwoTo64(v: int, l: nat)
    requires l <= 64
    ensures (v % TwoTo64) % Pow2(l) == v % Pow2(l)
  {
    Pow2SixtyFour();
    Pow2Add(l, 64 - l);
    ModMod(v, Pow2(l), Pow2(64 - l));
  }

  /** The low `l` bits of `static_cast<uint64_t>(raw)` denote `raw` modulo 2^l. */
  lemma FromIntLowBits(raw: int, l: nat)
    requires l <= 64
    ensures ToNat(FromInt(raw)[..l]) == raw % Pow2(l)
  {
    Pow2SixtyFour();
    var x := FromInt(raw);
    var u := raw % TwoTo64;
    ToNatPrefix(x, l);
    ToNatFromNat(u, 64);
    DivModUnique(u, TwoTo64, 0, u);
    assert ToNat(x) == u;
    ModTwoTo64(raw, l);
  }

  /** The top bit of a field is set exactly when its unsigned value reaches 2^(n-1). */
  lemma TopBit(f: seq<bool>)
    requires |f| >= 1
    ensures f[|f| - 1] <==> ToNat(f) >= Pow2(|f| - 1)
  {
    var n := |f|;
    assert f == f[..n - 1] + [f[n - 1]];
    ToNatAppend(f[..n - 1], [f[n - 1]]);
    ToNatBound(f[..n - 1]);
    assert ToNat([f[n - 1]]) == if f[n - 1] then 1 else 0 by {
      assert [f[n - 1]][1..] == [];
    }
  }

  /** A field of bits is read, signed or unsigned, as the wrap of its unsigned value. */
  lemma FieldValueWrap(signed: bool, f: seq<bool>, v: int)
    requires |f| >= 1 && ToNat(f) == v % Pow2(|f|)
    ensures FieldValue(signed, f) == if signed then SignWrap(v, |f|) else v % Pow2(|f|)
  {
    TopBit(f);
  }

  /**
   * Little-endian round trip: encoding `raw` into a buffer whose field is clear
   * and decoding it back gives `raw` modulo 2^length, sign-extended from the
   * field's top bit when the raw type is signed.
   */
  lemma LittleEndianRoundTrip(c: SignalConfig, raw: int, buffer: Word)
    requires c.Valid() && c.byteOrder == LittleEndian
    requires forall i :: c.position <= i < c.position + c.length ==> !buffer[i]
    ensures DecodeRaw(c, Encode(c, raw, buffer)) ==
      if c.signedRaw then SignWrap(raw, c.length) else raw % Pow2(c.length)
  {
    var p, l := c.position, c.length;
    var e := Encode(c, raw, buffer);
    var f := e[p .. p + l];
    assert f == FromInt(raw)[..l] by {
      EncodeLittleEndianBits(c, raw, buffer);
    }
    assert ToNat(f) == raw % Pow2(l) by {
      FromIntLowBits(raw, l);
    }
    FieldValueWrap(c.signedRaw, f, raw);
    LittleEndianDecode(c, e);
  }

  /** A value that fits the field comes back unchanged. */
  lemma LittleEndianRoundTripExact(c: SignalConfig, raw: int, buffer: Word)
    requires c.Valid() && c.byteOrder == LittleEndian
    requires forall i :: c.position <= i < c.position + c.length ==> !buffer[i]
    requires if c.signedRaw then -Pow2(c.length - 1) <= raw < Pow2(c.length - 1) else 0 <= raw < Pow2(c.length)
    ensures DecodeRaw(c, Encode(c, raw, buffer)) == raw
  {
    LittleEndianRoundTrip(c, raw, buffer);
    if c.signedRaw {
      SignWrapInRange(raw, c.length);
    } else {
      DivModUnique(raw, Pow2(c.length), 0, raw);
    }
  }

  /** A 4-bit little-endian field holding 1000 reads as -8 with a signed raw type and as 8 with an unsigned one. */
  lemma SignExtensionExample(position: nat, buffer: Word)
    requires position + 4 <= 64
    requires buffer[position .. position + 4] == [false, false, false, true]
    ensures DecodeRaw(SignalConfig(position, 4, FloatDenominator, 0, true, LittleEndian), buffer) == -8
    ensures DecodeRaw(SignalConfig(position, 4, FloatDenominator, 0, false, LittleEndian), buffer) == 8
  {
    assert ToNat([false, false, false, true]) == 8;
    LittleEndianDecode(SignalConfig(position, 4, FloatDenominator, 0, true, LittleEndian), buffer);
    LittleEndianDecode(SignalConfig(position, 4, FloatDenominator, 0, false, LittleEndian), buffer);
  }

  /** Decoding reads only the bits under the mask. */
  lemma DecodeOnlyMasked(c: SignalConfig, b1: Word, b2: Word)
    requires c.Valid()
    requires forall i :: c.position <= i < c.position + c.length ==> b1[i] == b2[i]
    ensures DecodeRaw(c, b1) == DecodeRaw(c, b2)
  {
    assert And(b1, Mask(c)) == And(b2, Mask(c));
  }

  // ---------------------------------------------------------------------------
  // Big endian

  /**
   * Bit `i` of a big-endian contribution: inside the mask, the bit that the
   * byte reversal brings to `i` from the value shifted to the top of the word.
   */
  lemma BigEndianContributionAt(c: SignalConfig, raw: int, i: nat)
    requires c.Valid() && c.byteOrder == BigEndian && i < 64
    ensures var top := 64 - (c.position + c.length);
      Contribution(c, raw)[i] ==
        (c.position <= i < c.position + c.length && SwapIndex(i) >= top && FromInt(raw)[SwapIndex(i) - top])
  {
    BigEndianPlaceAt(c, FromInt(raw), i);
  }

  lemma BigEndianPlaceAt(c: SignalConfig, x: Word, i: nat)
    requires c.Valid() && c.byteOrder == BigEndian && i < 64
    ensures var top := 64 - (c.position + c.length);
      Place(c, x)[i] == (c.position <= i < c.position + c.length && SwapIndex(i) >= top && x[SwapIndex(i) - top])
  {
    var top := 64 - (c.position + c.length);
    var sh := Shl(x, top);
    var j := SwapIndex(i);
    assert Bswap(sh)[i] == sh[j];
    assert sh[j] == (j >= top && x[j - top]);
  }

  /** The buffer bit a big-endian decode reads for bit `k` of the field, or false when it reads outside the mask. */
  function BigEndianSource(c: SignalConfig, buffer: Word, k: nat): bool
    requires c.Valid() && k < c.length
  {
    var q := SwapIndex(k + 64 - c.length - c.position);
    c.position <= q < c.position + c.length && buffer[q]
  }

  /** Bit `k` of a big-endian decoded word: the source of field bit `k`, extended above the field. */
  lemma BigEndianDecodedAt(c: SignalConfig, buffer: Word, k: nat)
    requires c.Valid() && c.byteOrder == BigEndian && k < 64
    ensures DecodedWord(c, buffer)[k] ==
      if k < c.length then BigEndianSource(c, buffer, k) else c.signedRaw && BigEndianSource(c, buffer, c.length - 1)
  {
    var l := c.length;
    var s := Align(c, And(buffer, Mask(c)));
    var k' := if k < l then k else l - 1;
    BigEndianAlignedBit(c, buffer, k');
    ExtendAt(c, s, k);
  }

  /** Big endian: bit `k + 64 - length` of the aligned word is the source of field bit `k`. */
  lemma BigEndianAlignedBit(c: SignalConfig, buffer: Word, k: nat)
    requires c.Valid() && c.byteOrder == BigEndian && k < c.length
    ensures Align(c, And(buffer, Mask(c)))[k + 64 - c.length] == BigEndianSource(c, buffer, k)
  {
    var m := And(buffer, Mask(c));
    BigEndianAlignAt(c, m, k);
    var q := SwapIndex(k + 64 - c.length - c.position);
    assert m[q] == (buffer[q] && Mask(c)[q]);
  }

  /** Bit `k` after the final right shift: bit `k + 64 - length` of the aligned word, or the sign copy above the field. */
  lemma ExtendAt(c: SignalConfig, s: Word, k: nat)
    requires c.Valid() && k < 64
    ensures Extend(c, s)[k] ==
      if k < c.length then s[k + 64 - c.length] else c.signedRaw && s[63]
  {
  }

  /** Big endian: bit `k + 64 - length` of the aligned word is the masked bit the byte reversal brings there. */
  lemma BigEndianAlignAt(c: SignalConfig, m: Word, k: nat)
    requires c.Valid() && c.byteOrder == BigEndian && k < c.length
    ensures Align(c, m)[k + 64 - c.length] == m[SwapIndex(k + 64 - c.length - c.position)]
  {
  }

  /**
   * For a byte-aligned field, the bit the big-endian decode reads for bit `k`
   * of the value lies inside the field, and reversing the bytes twice brings
   * it back.
   */
  lemma AlignedSwapIndex(p: nat, l: nat, k: nat)
    requires p % 8 == 0 && l % 8 == 0 && p + l <= 64 && k < l
    ensures var j := k + 64 - l - p;
      p <= SwapIndex(j) < p + l && SwapIndex(SwapIndex(j)) == j
  {
    var j := k + 64 - l - p;
    var pp, ll, kb, kr := p / 8, l / 8, k / 8, k % 8;
    assert j == 8 * (kb + 8 - ll - pp) + kr;
    DivModUnique(j, 8, kb + 8 - ll - pp, kr);
    var s := 8 * (pp + ll - 1 - kb) + kr;
    assert SwapIndex(j) == s;
    DivModUnique(s, 8, pp + ll - 1 - kb, kr);
  }

  /** One bit of the big-endian decode of a freshly encoded byte-aligned field: bit `k` of the raw value, extended. */
  lemma BigEndianAlignedAt(c: SignalConfig, raw: int, buffer: Word, k: nat)
    requires c.Valid() && c.byteOrder == BigEndian
    requires c.position % 8 == 0 && c.length % 8 == 0
    requires forall i :: c.position <= i < c.position + c.length ==> !buffer[i]
    requires k < 64
    ensures DecodedWord(c, Encode(c, raw, buffer))[k] ==
      if k < c.length then FromInt(raw)[k] else c.signedRaw && FromInt(raw)[c.length - 1]
  {
    var p, l := c.position, c.length;
    var e := Encode(c, raw, buffer);
    var x := FromInt(raw);
    var k' := if k < l then k else l - 1;
    BigEndianEncodedField(c, raw, buffer);
    AlignedSource(c, e, x, k');
    assert BigEndianSource(c, e, k') == x[k'];
    BigEndianDecodedAt(c, e, k);
  }

  /** Inside a clear big-endian field, the encoded buffer holds the byte reversal of the value shifted to the top. */
  lemma BigEndianEncodedField(c: SignalConfig, raw: int, buffer: Word)
    requires c.Valid() && c.byteOrder == BigEndian
    requires forall i :: c.position <= i < c.position + c.length ==> !buffer[i]
    ensures var e, x, top := Encode(c, raw, buffer), FromInt(raw), 64 - (c.position + c.length);
      forall i :: c.position <= i < c.position + c.length ==> e[i] == (SwapIndex(i) >= top && x[SwapIndex(i) - top])
  {
    forall i | c.position <= i < c.position + c.length
      ensures Encode(c, raw, buffer)[i] == Contribution(c, raw)[i]
    {
      EncodeInsideField(c, raw, buffer, i);
    }
    forall i | c.position <= i < c.position + c.length
      ensures Contribution(c, raw)[i] == (SwapIndex(i) >= 64 - (c.position + c.length) && FromInt(raw)[SwapIndex(i) - (64 - (c.position + c.length))])
    {
      BigEndianContributionAt(c, raw, i);
    }
  }

  /**
   * A byte-aligned big-endian field that holds the byte reversal of `x`
   * shifted to the top of the word is read back bit for bit.
   */
  lemma AlignedSource(c: SignalConfig, e: Word, x: Word, k: nat)
    requires c.Valid() && c.position % 8 == 0 && c.length % 8 == 0 && k < c.length
    requires var top := 64 - (c.position + c.length);
      forall i :: c.position <= i < c.position + c.length ==> e[i] == (SwapIndex(i) >= top && x[SwapIndex(i) - top])
    ensures BigEndianSource(c, e, k) == x[k]
  {
    var p, l := c.position, c.length;
    var j := k + 64 - l - p;
    AlignedSwapIndex(p, l, k);
    assert e[SwapIndex(j)] == x[k];
  }

  /**
   * Big-endian round trip for a field whose position and length are whole
   * bytes: encoding `raw` into a buffer whose field is clear and decoding it
   * back gives the same as on the little-endian path.
   */
  lemma BigEndianAlignedRoundTrip(c: SignalConfig, raw: int, buffer: Word)
    requires c.Valid() && c.byteOrder == BigEndian
    requires c.position % 8 == 0 && c.length % 8 == 0
    requires forall i :: c.position <= i < c.position + c.length ==> !buffer[i]
    ensures DecodeRaw(c, Encode(c, raw, buffer)) ==
      if c.signedRaw then SignWrap(raw, c.length) else raw % Pow2(c.length)
  {
    var l := c.length;
    var e := Encode(c, raw, buffer);
    var d := DecodedWord(c, e);
    var f := FromInt(raw)[..l];
    forall k | 0 <= k < 64
      ensures d[k] == if k < l then f[k] else c.signedRaw && f[l - 1]
    {
      BigEndianAlignedAt(c, raw, buffer, k);
    }
    assert DecodeRaw(c, e) == if c.signedRaw then ToInt(d) else ToNat(d);
    ReadField(c.signedRaw, f, d);
    FromIntLowBits(raw, l);
    FieldValueWrap(c.signedRaw, f, raw);
  }

  /** The big-endian 4-bit field at bit 4 that the codec's byte reversal cannot place. */
  function BigEndianNibble(signedRaw: bool): (c: SignalConfig)
    ensures c.Valid() && c.byteOrder == BigEndian && c.position == 4 && c.length == 4
  {
    SignalConfig(4, 4, FloatDenominator, 0, signedRaw, BigEndian)
  }

  /**
   * As written, big-endian encoding of any value that fits the 4-bit field at
   * bit 4 leaves the buffer as it was: the byte reversal puts the value's low
   * bits at bits 0-3, outside the mask, and only its (zero) bits 4-7 under it.
   */
  lemma BigEndianNibbleWritesNothing(signedRaw: bool, raw: int, buffer: Word)
    requires 0 <= raw < 16
    ensures Encode(BigEndianNibble(signedRaw), raw, buffer) == buffer
  {
    var c := BigEndianNibble(signedRaw);
    forall i | 0 <= i < 64
      ensures !Contribution(c, raw)[i]
    {
      BigEndianNibbleBitClear(signedRaw, raw, i);
    }
    assert Encode(c, raw, buffer) == buffer;
  }

  lemma BigEndianNibbleBitClear(signedRaw: bool, raw: int, i: nat)
    requires 0 <= raw < 16 && i < 64
    ensures !Contribution(BigEndianNibble(signedRaw), raw)[i]
  {
    var c := BigEndianNibble(signedRaw);
    BigEndianContributionAt(c, raw, i);
    if 4 <= i < 8 {
      SwapIndexLowByte(i);
      HighBitsClear(raw, i);
    }
  }

  /** Bit `i >= 4` of `static_cast<uint64_t>(raw)` is clear for `raw < 16`. */
  lemma HighBitsClear(raw: int, i: nat)
    requires 0 <= raw < 16 && 4 <= i < 64
    ensures !FromInt(raw)[i]
  {
    DivModUnique(raw, TwoTo64, 0, raw);
    FromNatBit(raw, 64, i);
    Pow2Monotone(4, i);
    assert Pow2(4) == 16;
    DivModUnique(raw, Pow2(i), 0, raw);
  }

  /** As written, big-endian decoding of the 4-bit field at bit 4 always yields 0. */
  lemma BigEndianNibbleReadsZero(signedRaw: bool, buffer: Word)
    ensures DecodeRaw(BigEndianNibble(signedRaw), buffer) == 0
  {
    var c := BigEndianNibble(signedRaw);
    var d := DecodedWord(c, buffer);
    forall k | 0 <= k < 64
      ensures !d[k]
    {
      BigEndianNibbleDecodedBitClear(signedRaw, buffer, k);
    }
    ToNatZeros(d);
  }

  lemma BigEndianNibbleDecodedBitClear(signedRaw: bool, buffer: Word, k: nat)
    requires k < 64
    ensures !DecodedWord(BigEndianNibble(signedRaw), buffer)[k]
  {
    var c := BigEndianNibble(signedRaw);
    var k' := if k < 4 then k else 3;
    assert !BigEndianSource(c, buffer, k') by {
      SwapIndexLowByte(k');
    }
    BigEndianDecodedAt(c, buffer, k);
  }

  /** Bits 0-7 and bits 56-63 trade places. */
  lemma SwapIndexLowByte(k: nat)
    requires k < 8
    ensures SwapIndex(k) == 56 + k && SwapIndex(k + 56) == k
  {
    DivModUnique(k, 8, 0, k);
    DivModUnique(k + 56, 8, 7, k);
  }
}
