/**
 * The message framework of include/can_interface.h: the frame a driver hands
 * over (`CANMessage`), the typed signal objects (`ITypedCANSignal`,
 * `CANSignal`), and the transmit and receive messages that bind signals to a
 * frame (`CANTXMessage`, `CANRXMessage`), with the bus (`ICAN`) reduced to
 * what they call on it.
 */
module CanMessages {
  import opened Bits
  import opened CanSignals

  // ---------------------------------------------------------------------------
  // Frames and their payload

  /** The eight data bytes of a frame, `std::array<uint8_t, 8>`. */
  type Payload = s: seq<uint8> | |s| == 8 witness [0, 0, 0, 0, 0, 0, 0, 0]

  /** `CANMessage`: a 16-bit identifier, a length, and eight data bytes. */
  datatype CanFrame = CanFrame(id: uint16, len: uint8, data: Payload)

  /** The bits of a byte string as a little-endian host lays them out: byte `i` is bits `8i .. 8i + 7`. */
  function BytesBits(d: seq<uint8>): (r: seq<bool>)
    ensures |r| == 8 * |d|
  {
    if d == [] then [] else FromNat(d[0], 8) + BytesBits(d[1..])
  }

  /** The number a byte string denotes when read least significant byte first. */
  function LittleEndianValue(d: seq<uint8>): nat
  {
    if d == [] then 0 else d[0] + 0x100 * LittleEndianValue(d[1..])
  }

  /** `*reinterpret_cast<uint64_t *>(data)` on a little-endian host. */
  function BytesToWord(d: Payload): Word
  {
    BytesBits(d)
  }

  /** The bytes a bit string is stored in, least significant byte first (the inverse of `BytesBits`). */
  function WordBytes(w: seq<bool>): (r: seq<uint8>)
    requires |w| % 8 == 0
    ensures |r| == |w| / 8
  {
    if w == [] then []
    else
      ToNatBound(w[..8]);
      Pow2Byte();
      [ToNat(w[..8])] + WordBytes(w[8..])
  }

  /** The word a little-endian host reads from a byte array denotes the bytes' little-endian value. */
  lemma {:induction false} BytesBitsValue(d: seq<uint8>)
    ensures ToNat(BytesBits(d)) == LittleEndianValue(d)
    decreases |d|
  {
    if d != [] {
      BytesBitsValue(d[1..]);
      ToNatAppend(FromNat(d[0], 8), BytesBits(d[1..]));
      ToNatFromNat(d[0], 8);
      Pow2Byte();
      DivModUnique(d[0], 0x100, 0, d[0]);
    }
  }

  /** Storing the bytes' bits and reading them back as bytes gives the same bytes. */
  lemma {:induction false} WordBytesOfBytesBits(d: seq<uint8>)
    ensures WordBytes(BytesBits(d)) == d
    decreases |d|
  {
    if d != [] {
      var b := BytesBits(d);
      assert b[..8] == FromNat(d[0], 8) && b[8..] == BytesBits(d[1..]);
      ToNatFromNat(d[0], 8);
      Pow2Byte();
      DivModUnique(d[0], 0x100, 0, d[0]);
      WordBytesOfBytesBits(d[1..]);
    }
  }

  /** Reading a bit string as bytes and laying the bytes out again gives the same bits. */
  lemma {:induction false} BytesBitsOfWordBytes(w: seq<bool>)
    requires |w| % 8 == 0
    ensures BytesBits(WordBytes(w)) == w
    decreases |w|
  {
    if w != [] {
      var r := WordBytes(w);
      assert r[0] == ToNat(w[..8]) && r[1..] == WordBytes(w[8..]);
      FromNatToNat(w[..8]);
      BytesBitsOfWordBytes(w[8..]);
      assert w == w[..8] + w[8..];
    }
  }

  /** Laying out two byte strings one after the other lays out their bits one after the other. */
  lemma {:induction false} BytesBitsAppend(a: seq<uint8>, b: seq<uint8>)
    ensures BytesBits(a + b) == BytesBits(a) + BytesBits(b)
    decreases |a|
  {
    if a != [] {
      assert (a + b)[1..] == a[1..] + b;
      BytesBitsAppend(a[1..], b);
    } else {
      assert a + b == b;
    }
  }

  /** Bytes `a .. b - 1` of a byte string lie at bits `8a .. 8b - 1` of its layout. */
  lemma BytesBitsSlice(d: seq<uint8>, a: nat, b: nat)
    requires a <= b <= |d|
    ensures BytesBits(d)[8 * a .. 8 * b] == BytesBits(d[a..b])
  {
    assert d == d[..a] + d[a..b] + d[b..];
    BytesBitsAppend(d[..a] + d[a..b], d[b..]);
    BytesBitsAppend(d[..a], d[a..b]);
  }

  /** Bit `8a + b` of a byte string's layout is bit `b` of byte `a`. */
  lemma {:induction false} BytesBitsAt(d: seq<uint8>, a: nat, b: nat)
    requires a < |d| && b < 8
    ensures BytesBits(d)[8 * a + b] == FromNat(d[a], 8)[b]
    decreases a
  {
    var rest := BytesBits(d[1..]);
    assert BytesBits(d) == FromNat(d[0], 8) + rest;
    if a > 0 {
      BytesBitsAt(d[1..], a - 1, b);
      assert d[1..][a - 1] == d[a];
      assert BytesBits(d)[8 * a + b] == rest[8 * (a - 1) + b];
    }
  }

  /**
   * `std::reverse` on the eight bytes a `uint64_t` is stored in is `Bswap`
   * of the word: the frame read with its bytes in reverse order.
   */
  lemma BswapReversesBytes(d: Payload)
    ensures Bswap(BytesToWord(d)) == BytesToWord(seq(8, k requires 0 <= k < 8 => d[7 - k]))
  {
    var r: Payload := seq(8, k requires 0 <= k < 8 => d[7 - k]);
    forall i | 0 <= i < 64
      ensures Bswap(BytesBits(d))[i] == BytesBits(r)[i]
    {
      var j := SwapIndex(i);
      BytesBitsAt(d, j / 8, j % 8);
      BytesBitsAt(r, i / 8, i % 8);
      assert r[i / 8] == d[j / 8] && j % 8 == i % 8;
      assert 8 * (j / 8) + j % 8 == j && 8 * (i / 8) + i % 8 == i;
    }
  }

  /** A zero byte at the top does not change a little-endian value. */
  lemma {:induction false} LittleEndianTrailingZero(d: seq<uint8>)
    ensures LittleEndianValue(d + [0]) == LittleEndianValue(d)
    decreases |d|
  {
    if d == [] {
      assert LittleEndianValue([0]) == 0 + 0x100 * LittleEndianValue([]);
    } else {
      assert (d + [0])[1..] == d[1..] + [0];
      LittleEndianTrailingZero(d[1..]);
    }
  }

  /**
   * An unsigned little-endian field that starts and ends on byte boundaries
   * reads, from a frame's word, the little-endian value of the bytes it covers.
   */
  lemma UnsignedFieldOfBytes(c: SignalConfig, d: Payload)
    requires c.Valid() && c.byteOrder == LittleEndian && !c.signedRaw
    requires c.position % 8 == 0 && c.length % 8 == 0
    ensures DecodeRaw(c, BytesToWord(d)) == LittleEndianValue(d[c.position / 8 .. (c.position + c.length) / 8])
  {
    var a, b := c.position / 8, (c.position + c.length) / 8;
    FieldOfBytes(d, a, b);
    UnsignedRead(c, BytesToWord(d), LittleEndianValue(d[a..b]));
  }

  /** The bits of bytes `a .. b - 1`, read least significant first, are the bytes' little-endian value. */
  lemma FieldOfBytes(d: Payload, a: nat, b: nat)
    requires a <= b <= 8
    ensures ToNat(BytesToWord(d)[8 * a .. 8 * b]) == LittleEndianValue(d[a..b])
  {
    BytesBitsSlice(d, a, b);
    BytesBitsValue(d[a..b]);
  }

  /** An unsigned little-endian field reads the number its bits denote. */
  lemma UnsignedRead(c: SignalConfig, w: Word, v: nat)
    requires c.Valid() && c.byteOrder == LittleEndian && !c.signedRaw
    requires ToNat(w[c.position .. c.position + c.length]) == v
    ensures DecodeRaw(c, w) == v
  {
    LittleEndianDecode(c, w);
  }

  // ---------------------------------------------------------------------------
  // Several signals in one word

  /** One signal as `EncodeSignals` sees it: its layout and the raw value it puts on the bus. */
  datatype Field = Field(config: SignalConfig, raw: int)

  predicate FieldsValid(fs: seq<Field>)
  {
    forall i :: 0 <= i < |fs| ==> fs[i].config.Valid()
  }

  /** Bit `k` lies in the field of none of the signals. */
  predicate Outside(fs: seq<Field>, k: int)
  {
    forall i :: 0 <= i < |fs| ==> !(fs[i].config.position <= k < fs[i].config.position + fs[i].config.length)
  }

  /** Two layouts share no bit. */
  predicate Apart(a: SignalConfig, b: SignalConfig)
  {
    a.position + a.length <= b.position || b.position + b.length <= a.position
  }

  predicate PairwiseApart(fs: seq<Field>)
  {
    forall i, j :: 0 <= i < j < |fs| ==> Apart(fs[i].config, fs[j].config)
  }

  /**
   * `EncodeSignal` applied to `buffer` for every signal, first to last. Bits
   * set in the buffer stay set, and a bit outside every signal's field is
   * left as it was.
   */
  function EncodeAll(fs: seq<Field>, buffer: Word): (r: Word)
    requires FieldsValid(fs)
    ensures forall k :: 0 <= k < 64 && buffer[k] ==> r[k]
    ensures forall k :: 0 <= k < 64 && Outside(fs, k) ==> r[k] == buffer[k]
    decreases |fs|
  {
    if fs == [] then buffer
    else
      var n := |fs| - 1;
      var prior := EncodeAll(fs[..n], buffer);
      Encode(fs[n].config, fs[n].raw, prior)
  }

  /** Encoding one more signal: the next signal ORed into what the earlier ones made. */
  lemma EncodeAllStep(fs: seq<Field>, i: nat, buffer: Word)
    requires FieldsValid(fs) && i < |fs|
    ensures FieldsValid(fs[..i + 1]) && FieldsValid(fs[..i])
    ensures EncodeAll(fs[..i + 1], buffer) == Encode(fs[i].config, fs[i].raw, EncodeAll(fs[..i], buffer))
  {
    assert fs[..i + 1][..i] == fs[..i];
  }

  /**
   * With fields that share no bit, every bit of a signal's field in the word
   * `EncodeSignals` builds from zero is the bit that signal alone contributes.
   */
  lemma {:induction false} EncodeAllAt(fs: seq<Field>, j: nat, k: nat)
    requires FieldsValid(fs) && PairwiseApart(fs)
    requires j < |fs| && fs[j].config.position <= k < fs[j].config.position + fs[j].config.length
    ensures EncodeAll(fs, Zero())[k] == Contribution(fs[j].config, fs[j].raw)[k]
    decreases |fs|
  {
    var n := |fs| - 1;
    var prior := fs[..n];
    assert FieldsValid(prior);
    EncodeAllLast(fs, Zero(), k);
    if j == n {
      forall i | 0 <= i < n
        ensures !(prior[i].config.position <= k < prior[i].config.position + prior[i].config.length)
      {
        assert Apart(fs[i].config, fs[n].config);
      }
      assert !EncodeAll(prior, Zero())[k];
    } else {
      assert !Contribution(fs[n].config, fs[n].raw)[k] by {
        assert Apart(fs[j].config, fs[n].config);
      }
      assert PairwiseApart(prior);
      assert prior[j] == fs[j];
      EncodeAllAt(prior, j, k);
    }
  }

  /** Bit `k` after the last signal is encoded: the bit before it, or the last signal's contribution. */
  lemma EncodeAllLast(fs: seq<Field>, buffer: Word, k: nat)
    requires FieldsValid(fs) && fs != [] && k < 64
    ensures var n := |fs| - 1;
      EncodeAll(fs, buffer)[k] == (EncodeAll(fs[..n], buffer)[k] || Contribution(fs[n].config, fs[n].raw)[k])
  {
  }

  /**
   * Signals whose fields share no bit decode back independently: a signal
   * reads from the combined word exactly what it reads from a word holding
   * only its own contribution.
   */
  lemma SignalsDecodeIndependently(fs: seq<Field>, j: nat)
    requires FieldsValid(fs) && PairwiseApart(fs) && j < |fs|
    ensures DecodeRaw(fs[j].config, EncodeAll(fs, Zero())) ==
      DecodeRaw(fs[j].config, Encode(fs[j].config, fs[j].raw, Zero()))
  {
    var c := fs[j].config;
    forall k | c.position <= k < c.position + c.length
      ensures EncodeAll(fs, Zero())[k] == Encode(c, fs[j].raw, Zero())[k]
    {
      EncodeAllAt(fs, j, k);
    }
    DecodeOnlyMasked(c, EncodeAll(fs, Zero()), Encode(c, fs[j].raw, Zero()));
  }

  /**
   * Little-endian signals with disjoint fields, encoded together from zero,
   * each decode to their raw value cut to the field (sign-extended when the
   * raw type is signed).
   */
  lemma LittleEndianSignalsRoundTrip(fs: seq<Field>, j: nat)
    requires FieldsValid(fs) && PairwiseApart(fs) && j < |fs|
    requires fs[j].config.byteOrder == LittleEndian
    ensures var c := fs[j].config;
      DecodeRaw(c, EncodeAll(fs, Zero())) ==
        if c.signedRaw then SignWrap(fs[j].raw, c.length) else fs[j].raw % Pow2(c.length)
  {
    SignalsDecodeIndependently(fs, j);
    LittleEndianRoundTrip(fs[j].config, fs[j].raw, Zero());
  }

  // ---------------------------------------------------------------------------
  // Signal values

  /** The C++ type of a signal's value (`SignalType`), for the integer and `bool` instantiations. */
  datatype ValueKind = Unsigned(bits: nat) | Signed(bits: nat) | Boolean
  {
    predicate Valid()
    {
      match this
      case Unsigned(b) => b == 8 || b == 16 || b == 32 || b == 64
      case Signed(b) => b == 8 || b == 16 || b == 32 || b == 64
      case Boolean => true
    }

    /** `v` is a value of the type (`bool` as 0 or 1). */
    predicate Holds(v: int)
    {
      match this
      case Unsigned(b) => 0 <= v < Pow2(b)
      case Signed(b) => b >= 1 && -Pow2(b - 1) <= v < Pow2(b - 1)
      case Boolean => v == 0 || v == 1
    }
  }

  /**
   * `static_cast<SignalType>(raw)`: an integer type keeps the value modulo
   * 2^bits (two's complement for a signed type), `bool` tests for nonzero.
   */
  function Cast(kind: ValueKind, raw: int): (v: int)
    requires kind.Valid()
    ensures kind.Holds(v)
  {
    match kind
    case Unsigned(b) => raw % Pow2(b)
    case Signed(b) => SignWrap(raw, b)
    case Boolean => if raw != 0 then 1 else 0
  }

  /** A value of the type survives the cast unchanged. */
  lemma CastKeepsValues(kind: ValueKind, v: int)
    requires kind.Valid() && kind.Holds(v)
    ensures Cast(kind, v) == v
  {
    match kind
    case Unsigned(b) => DivModUnique(v, Pow2(b), 0, v);
    case Signed(b) => SignWrapInRange(v, b);
    case Boolean =>
  }

  /**
   * The float conversions of a non-unity signal, which the model does not
   * compute: `toRaw` stands for `(value - offset) / factor` cast to the raw
   * type and `fromRaw` for `raw * factor + offset`.
   */
  datatype Scaling = Scaling(toRaw: int -> int, fromRaw: int -> int)

  /** The raw value `EncodeSignal` packs for `value`: the value itself on the unity path. */
  function RawOf(c: SignalConfig, s: Scaling, value: int): (r: int)
    ensures c.Unity() ==> r == value
  {
    if c.Unity() then value else s.toRaw(value)
  }

  /** The value `DecodeSignal` stores for the word `buffer`. */
  function DecodedValue(c: SignalConfig, kind: ValueKind, s: Scaling, buffer: Word): (v: int)
    requires c.Valid() && kind.Valid()
    ensures kind.Holds(v)
  {
    var raw := DecodeRaw(c, buffer);
    Cast(kind, if c.Unity() then raw else s.fromRaw(raw))
  }

  /** The value type fits the field, so that a unity little-endian signal carries its value unchanged. */
  predicate Fits(kind: ValueKind, c: SignalConfig)
  {
    match kind
    case Unsigned(b) => !c.signedRaw && b <= c.length
    case Signed(b) => c.signedRaw && b <= c.length
    case Boolean => !c.signedRaw
  }

  /**
   * Unity little-endian signals whose type fits the field: a value encoded
   * into a clear field decodes back to the same value.
   */
  lemma ValueRoundTrip(c: SignalConfig, kind: ValueKind, s: Scaling, v: int, buffer: Word)
    requires c.Valid() && c.Unity() && c.byteOrder == LittleEndian
    requires kind.Valid() && kind.Holds(v) && Fits(kind, c)
    requires forall i :: c.position <= i < c.position + c.length ==> !buffer[i]
    ensures DecodedValue(c, kind, s, Encode(c, RawOf(c, s, v), buffer)) == v
  {
    var l := c.length;
    match kind {
      case Unsigned(b) =>
        Pow2Monotone(b, l);
      case Signed(b) =>
        Pow2Monotone(b - 1, l - 1);
      case Boolean =>
        Pow2Monotone(1, l);
    }
    ValueRoundTripInField(c, kind, s, v, buffer);
  }

  /**
   * The same round trip for a single value rather than a whole type: any
   * value of the signal's type that the field's raw type can hold comes
   * back, such as a `uint16_t` below 256 in an 8-bit field.
   */
  lemma ValueRoundTripInField(c: SignalConfig, kind: ValueKind, s: Scaling, v: int, buffer: Word)
    requires c.Valid() && c.Unity() && c.byteOrder == LittleEndian
    requires kind.Valid() && kind.Holds(v)
    requires if c.signedRaw then -Pow2(c.length - 1) <= v < Pow2(c.length - 1) else 0 <= v < Pow2(c.length)
    requires forall i :: c.position <= i < c.position + c.length ==> !buffer[i]
    ensures DecodedValue(c, kind, s, Encode(c, RawOf(c, s, v), buffer)) == v
  {
    LittleEndianRoundTripExact(c, v, buffer);
    CastKeepsValues(kind, v);
  }

  // ---------------------------------------------------------------------------
  // Signal objects

  /**
   * `CANSignal<SignalType, position, length, factor, offset, signed_raw,
   * byte_order>`: the template arguments are constants, the value `signal_`
   * is the one field that changes.
   */
  class CanSignal {
    const config: SignalConfig
    const kind: ValueKind
    const scaling: Scaling
    /** What the virtual `DecodeSignal` of this instance reads from a word. */
    const decoder: Word -> int
    var value: int

    /** The template arguments the class accepts, a value type the model covers, and the decoder of exactly this layout. */
    ghost predicate Valid()
    {
      config.Valid() && kind.Valid() &&
      forall w: Word {:trigger DecodedValue(config, kind, scaling, w)} :: decoder(w) == DecodedValue(config, kind, scaling, w)
    }

    /** A signal whose value is value-initialised (`{}`), as every signal in this code base is. */
    constructor (config: SignalConfig, kind: ValueKind, scaling: Scaling)
      requires config.Valid() && kind.Valid()
      ensures Valid() && value == 0 && kind.Holds(value)
      ensures this.config == config && this.kind == kind && this.scaling == scaling
    {
      this.config := config;
      this.kind := kind;
      this.scaling := scaling;
      this.decoder := (w: Word) => if config.Valid() && kind.Valid() then DecodedValue(config, kind, scaling, w) else 0;
      value := 0;
      new;
      match kind
      case Unsigned(b) =>
      case Signed(b) =>
      case Boolean =>
    }

    /** `operator=`: the signal takes the value, and nothing else changes. */
    method Assign(v: int)
      requires kind.Holds(v)
      modifies this
      ensures value == v
    {
      value := v;
    }

    /** `EncodeSignal(buffer)`: the buffer with this signal's raw value ORed into its field. */
    method EncodeSignal(buffer: Word) returns (r: Word)
      requires Valid()
      ensures r == Encode(config, RawOf(config, scaling, value), buffer)
    {
      var raw := if config.Unity() then value else scaling.toRaw(value);
      r := Or(buffer, Contribution(config, raw));
    }

    /** `DecodeSignal(buffer)`: the value is replaced by the one the buffer's field holds; the buffer is only read. */
    method DecodeSignal(buffer: Word)
      requires Valid()
      modifies this
      ensures value == decoder(buffer) && kind.Holds(value)
    {
      var raw := DecodeRaw(config, buffer);
      value := Cast(kind, if config.Unity() then raw else scaling.fromRaw(raw));
      assert value == DecodedValue(config, kind, scaling, buffer);
    }
  }

  /** Each signal's layout and the raw value it currently puts on the bus. */
  function Fields(ss: seq<CanSignal>): (fs: seq<Field>)
    reads ss
    ensures |fs| == |ss|
    ensures forall i :: 0 <= i < |ss| ==> fs[i] == Field(ss[i].config, RawOf(ss[i].config, ss[i].scaling, ss[i].value))
  {
    if ss == [] then []
    else
      var n := |ss| - 1;
      Fields(ss[..n]) + [Field(ss[n].config, RawOf(ss[n].config, ss[n].scaling, ss[n].value))]
  }

  // ---------------------------------------------------------------------------
  // The bus

  /**
   * `ICAN` as the messages use it: `SendMessage` and `RegisterRXMessage` have
   * no body in this code base, so the bus only records what it is given.
   */
  class Bus {
    ghost var sent: seq<CanFrame>
    ghost var registered: seq<uint16>

    constructor ()
      ensures sent == [] && registered == []
    {
      sent := [];
      registered := [];
    }

    method SendMessage(frame: CanFrame)
      modifies this
      ensures sent == old(sent) + [frame] && registered == old(registered)
    {
      sent := sent + [frame];
    }

    method RegisterRXMessage(id: uint16)
      modifies this
      ensures registered == old(registered) + [id] && sent == old(sent)
    {
      registered := registered + [id];
    }
  }

  // ---------------------------------------------------------------------------
  // Transmit

  /** `CANTXMessage<num_signals>`: a frame, the bus it goes out on, and the signals it carries. */
  class CanTxMessage {
    const bus: Bus
    const signals: seq<CanSignal>
    var message: CanFrame

    ghost predicate Valid()
    {
      forall i :: 0 <= i < |signals| ==> signals[i].Valid()
    }

    /** The frame starts with the given identifier and length and eight zero bytes. */
    constructor (bus: Bus, id: uint16, length: uint8, signals: seq<CanSignal>)
      requires forall s :: s in signals ==> s.Valid()
      ensures Valid()
      ensures this.bus == bus && this.signals == signals
      ensures message == CanFrame(id, length, [0, 0, 0, 0, 0, 0, 0, 0])
    {
      this.bus := bus;
      this.signals := signals;
      message := CanFrame(id, length, [0, 0, 0, 0, 0, 0, 0, 0]);
    }

    /** The frame's identifier (`GetID`). */
    function GetID(): (r: uint16)
      reads this
      ensures r == message.id
    {
      message.id
    }

    /** The bytes of the word the signals fill, first to last, starting from zero. */
    method EncodeData() returns (data: seq<uint8>)
      requires Valid()
      ensures data == WordBytes(EncodeAll(Fields(signals), Zero()))
    {
      ghost var fs := Fields(signals);
      var w := Zero();
      var i := 0;
      while i < |signals|
        invariant 0 <= i <= |signals|
        invariant w == EncodeAll(fs[..i], Zero())
      {
        w := signals[i].EncodeSignal(w);
        EncodeAllStep(fs, i, Zero());
        i := i + 1;
      }
      assert fs[..i] == fs;
      data := WordBytes(w);
    }

    /**
     * `EncodeSignals`: every signal, first to last, is ORed into a word that
     * starts at zero, and the word's bytes become the frame's data. Identifier
     * and length are untouched.
     */
    method EncodeSignals()
      requires Valid()
      modifies this`message
      ensures message == old(message).(data := WordBytes(EncodeAll(old(Fields(signals)), Zero())))
    {
      var data := EncodeData();
      message := message.(data := data);
    }

    /** `EncodeAndSend`: encode, then hand exactly that frame to the bus. */
    method EncodeAndSend()
      requires Valid()
      modifies this, bus
      ensures message == old(message).(data := WordBytes(EncodeAll(old(Fields(signals)), Zero())))
      ensures bus.sent == old(bus.sent) + [message] && bus.registered == old(bus.registered)
    {
      EncodeSignals();
      bus.SendMessage(message);
    }
  }

  // ---------------------------------------------------------------------------
  // Receive

  /**
   * `now - last` on `uint32_t`: the time since `last`, which wraps when the
   * clock has. Adding it to `last` modulo 2^32 gives `now` back.
   */
  function Elapsed(last: uint32, now: uint32): (r: uint32)
    ensures (last + r) % TwoTo32 == now
  {
    var r := (now - last) % TwoTo32;
    DivModUnique(now, TwoTo32, 0, now);
    assert (last + r) % TwoTo32 == now by {
      var q := (now - last) / TwoTo32;
      assert last + r == TwoTo32 * -q + now;
      DivModUnique(last + r, TwoTo32, -q, now);
    }
    r
  }

  /** What `DecodeSignals` does, in order: decode one signal, run the callback, stamp the time. */
  datatype RxStep = DecodedSignal(index: nat) | CallbackRan | Stamped(time: uint32)

  /** Decoding the signals with indices `0 .. n - 1`, in that order. */
  function DecodeSteps(n: nat): (r: seq<RxStep>)
    ensures |r| == n && forall i :: 0 <= i < n ==> r[i] == DecodedSignal(i)
  {
    if n == 0 then [] else DecodeSteps(n - 1) + [DecodedSignal(n - 1)]
  }

  /**
   * `CANRXMessage<num_signals>`: an identifier, the signals it fills, whether
   * a callback was given, and the time of the last reception. The clock
   * `get_millis_` becomes a parameter of the methods that call it.
   */
  class CanRxMessage {
    const id: uint16
    const signals: seq<CanSignal>
    const hasCallback: bool
    var lastReceiveTime: uint32
    ghost var steps: seq<RxStep>

    ghost predicate Valid()
    {
      forall i :: 0 <= i < |signals| ==> signals[i].Valid()
    }

    /** Registers itself with the bus; no reception yet, so the last receive time is 0. */
    constructor (bus: Bus, id: uint16, hasCallback: bool, signals: seq<CanSignal>)
      requires signals != []
      requires forall s :: s in signals ==> s.Valid()
      modifies bus
      ensures Valid()
      ensures this.id == id && this.signals == signals && this.hasCallback == hasCallback
      ensures lastReceiveTime == 0 && steps == []
      ensures bus.registered == old(bus.registered) + [id] && bus.sent == old(bus.sent)
    {
      this.id := id;
      this.signals := signals;
      this.hasCallback := hasCallback;
      lastReceiveTime := 0;
      steps := [];
      new;
      bus.RegisterRXMessage(id);
    }

    /** `GetID`: the identifier given to the constructor, whatever frame was received last. */
    function GetID(): (r: uint16)
      ensures r == id
    {
      id
    }

    /** The decoding loop of `DecodeSignals`: every signal reads the same word, built once from the frame. */
    method DecodeAll(frame: CanFrame)
      requires Valid()
      modifies signals, this`steps
      ensures forall i :: 0 <= i < |signals| ==> signals[i].value == signals[i].decoder(BytesToWord(frame.data))
      ensures steps == old(steps) + DecodeSteps(|signals|)
    {
      var word := BytesToWord(frame.data);
      var i := 0;
      while i < |signals|
        invariant 0 <= i <= |signals|
        invariant forall j :: 0 <= j < i ==> signals[j].value == signals[j].decoder(word)
        invariant steps == old(steps) + DecodeSteps(i)
      {
        signals[i].DecodeSignal(word);
        steps := steps + [DecodedSignal(i)];
        i := i + 1;
      }
    }

    /** `last_receive_time_ = get_millis_()`. */
    method Stamp(now: uint32)
      modifies this`lastReceiveTime, this`steps
      ensures lastReceiveTime == now && steps == old(steps) + [Stamped(now)]
    {
      lastReceiveTime := now;
      steps := steps + [Stamped(now)];
    }

    /**
     * `DecodeSignals(message)`: decode every signal, then run the callback if
     * there is one, then stamp the time.
     */
    method DecodeSignals(frame: CanFrame, now: uint32)
      requires Valid()
      modifies signals, this`lastReceiveTime, this`steps
      ensures forall i :: 0 <= i < |signals| ==> signals[i].value == signals[i].decoder(BytesToWord(frame.data))
      ensures steps == old(steps) + DecodeSteps(|signals|) + (if hasCallback then [CallbackRan] else []) + [Stamped(now)]
      ensures lastReceiveTime == now
    {
      DecodeAll(frame);
      if hasCallback {
        steps := steps + [CallbackRan];
      }
      Stamp(now);
    }

    /** `GetTimeSinceLastReceive()`. */
    function TimeSinceLastReceive(now: uint32): (r: uint32)
      reads this
      ensures (lastReceiveTime + r) % TwoTo32 == now
    {
      Elapsed(lastReceiveTime, now)
    }
  }
}
