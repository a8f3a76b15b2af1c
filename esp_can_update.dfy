/**
 * The firmware-update receiver `CANUpdate` (include/esp_can_update.h).
 *
 * Three frames make up the protocol: an info frame (a start record with the
 * image length, or one of four MD5 words, told apart by a message type in
 * byte 0), a data frame (seven image bytes and the low byte of the chunk
 * index), and a progress frame the receiver sends back. `CanUpdate` holds the
 * values of the signals bound to those frames and the protocol state the
 * callbacks keep, and each handler does what the corresponding callback does
 * after the frame's signals were decoded. The flash library (`Update`),
 * `ESP.restart` and the progress sends are recorded in a ghost event log; the
 * results of `Update.begin` and `Update.end` are parameters.
 */
module EspCanUpdate {
  import opened Bits
  import opened CanSignals
  import opened CanMessages

  /** `kUpdateTimeout`: milliseconds without info and data frames after which the update is abandoned. */
  const UpdateTimeout: nat := 500

  /** `MessageType::kUpdateStart` and `MessageType::kMd5`. */
  const UpdateStart: nat := 0
  const Md5Record: nat := 1

  // ---------------------------------------------------------------------------
  // Signal layouts (all unsigned, little endian, factor 1, offset 0)

  const MessageTypeLayout: SignalConfig := UnsignedUnity(0, 8)
  const UpdateLengthLayout: SignalConfig := UnsignedUnity(8, 32)
  const Md5IndexLayout: SignalConfig := UnsignedUnity(8, 8)
  const Md5WordLayout: SignalConfig := UnsignedUnity(16, 32)
  const BlockIndexLowLayout: SignalConfig := UnsignedUnity(0, 8)
  const UpdateDataLayout: SignalConfig := UnsignedUnity(8, 56)
  const BlockIdxLayout: SignalConfig := UnsignedUnity(0, 24)
  const ReceivedLenLayout: SignalConfig := UnsignedUnity(24, 1)
  const ReceivedMd5Layout: SignalConfig := UnsignedUnity(25, 1)
  const WrittenLayout: SignalConfig := UnsignedUnity(26, 1)
  const FwVersionLayout: SignalConfig := UnsignedUnity(32, 32)

  /** The scale of a unity signal is never applied; any pair of conversions stands for it. */
  const Unscaled: Scaling := Scaling(x => x, x => x)

  /**
   * `DecodeSignal` of an unsigned unity signal whose field covers whole bytes:
   * the value is the little-endian number in those bytes of the frame.
   */
  method DecodeByteField(c: SignalConfig, kind: ValueKind, d: Payload) returns (v: nat)
    requires c.Valid() && c.Unity() && c.byteOrder == LittleEndian && !c.signedRaw
    requires c.position % 8 == 0 && c.length % 8 == 0
    requires kind.Unsigned? && kind.Valid() && c.length <= kind.bits
    ensures v == LittleEndianValue(d[c.position / 8 .. (c.position + c.length) / 8])
    ensures v < Pow2(c.length)
  {
    var a, b := c.position / 8, (c.position + c.length) / 8;
    ghost var n := LittleEndianValue(d[a..b]);
    assert n < Pow2(c.length) by {
      AlignedSpan(c.position, c.length);
      assert |d[a..b]| == c.length / 8;
      LittleEndianValueBound(d[a..b]);
    }
    UnsignedFieldOfBytes(c, d);
    UnityCast(c, kind, Unscaled, BytesToWord(d), n);
    v := DecodedValue(c, kind, Unscaled, BytesToWord(d));
  }

  /** A one-byte signal (`uint8_t`, `uint16_t` or the `uint8_t` message type) at byte `i`: the byte itself. */
  method DecodeByte(c: SignalConfig, kind: ValueKind, d: Payload) returns (v: uint8)
    requires c.Valid() && c.Unity() && c.byteOrder == LittleEndian && !c.signedRaw
    requires c.length == 8 && c.position % 8 == 0
    requires kind.Unsigned? && kind.Valid()
    ensures v == d[c.position / 8]
  {
    var x := DecodeByteField(c, kind, d);
    var i := c.position / 8;
    assert d[i .. i + 1] == [d[i]];
    assert LittleEndianValue([d[i]]) == d[i] + 0x100 * LittleEndianValue([]);
    v := x;
  }

  /** A `uint32_t` signal over the four bytes from byte `i`: their little-endian value. */
  method DecodeWord32(c: SignalConfig, d: Payload) returns (v: uint32)
    requires c.Valid() && c.Unity() && c.byteOrder == LittleEndian && !c.signedRaw
    requires c.length == 32 && c.position % 8 == 0
    ensures v == LittleEndianValue(d[c.position / 8 .. c.position / 8 + 4])
  {
    var x := DecodeByteField(c, Unsigned(32), d);
    AlignedSpan(c.position, 32);
    Pow2ThirtyTwo();
    v := x;
  }

  /**
   * `update_data_` (56 bits from bit 8, a `uint64_t`) and the eight bytes of
   * its memory that `Update.write` reads: payload bytes 1 to 7, then zero.
   */
  method DecodeUpdateData(d: Payload) returns (data: nat, bytes: seq<uint8>)
    ensures data == LittleEndianValue(d[1..8])
    ensures bytes == d[1..8] + [0]
  {
    data := DecodeByteField(UpdateDataLayout, Unsigned(64), d);
    bytes := DataBytes(data);
    WrittenBytes(d);
  }

  /** A unity unsigned signal whose value type is wide enough keeps the raw value. */
  lemma UnityCast(c: SignalConfig, kind: ValueKind, s: Scaling, w: Word, n: nat)
    requires c.Valid() && c.Unity() && kind.Unsigned? && kind.Valid() && c.length <= kind.bits
    requires DecodeRaw(c, w) == n && n < Pow2(c.length)
    ensures DecodedValue(c, kind, s, w) == n
  {
    Pow2Monotone(c.length, kind.bits);
    CastKeepsValues(kind, n);
  }

  /** A byte-aligned field of `l` bits spans `l / 8` whole bytes. */
  lemma AlignedSpan(p: nat, l: nat)
    requires p % 8 == 0 && l % 8 == 0
    ensures (p + l) / 8 - p / 8 == l / 8 && 8 * (l / 8) == l
  {
    var i, k := p / 8, l / 8;
    assert p == 8 * i && l == 8 * k;
    DivModUnique(p + l, 8, i + k, 0);
  }

  /** A little-endian number in `k` bytes is below 2^(8k). */
  lemma {:induction false} LittleEndianValueBound(d: seq<uint8>)
    ensures LittleEndianValue(d) < Pow2(8 * |d|)
    decreases |d|
  {
    if d != [] {
      LittleEndianValueBound(d[1..]);
      Pow2Byte();
      Pow2Add(8, 8 * (|d| - 1));
      assert LittleEndianValue(d) <= 0xFF + 0x100 * (Pow2(8 * (|d| - 1)) - 1);
    }
  }

  // ---------------------------------------------------------------------------
  // The data frame

  /** `x & 0x1FFFF800`: bits 11 to 28, the part of an extended identifier above the standard one. */
  function IdBlockBits(x: nat): (r: nat)
    ensures r % 0x800 == 0 && r < 0x2000_0000
  {
    (x / 0x800) % 0x4_0000 * 0x800
  }

  /** `((id & 0x1FFFF800) >> 3) + low`: the chunk index the data callback computes. */
  function ChunkIndex(id: nat, low: uint8): nat
  {
    IdBlockBits(id) / 8 + low
  }

  /** The identifier `GetID()` returns for the data message: `kUpdateId`, narrowed to the `uint16_t` the constructor takes. */
  function DataMessageId(updateId: uint32): uint16
  {
    updateId % 0x1_0000
  }

  /** The identifier of the progress message: `kUpdateId + 2`, narrowed to `uint16_t`. */
  function ProgressMessageId(updateId: uint32): uint16
  {
    (updateId + 2) % 0x1_0000
  }

  /** The progress message's identifier is the data message's plus 2, modulo 2^16, as narrowing both agrees. */
  lemma ProgressIdFollowsData(updateId: uint32)
    ensures ProgressMessageId(updateId) == (DataMessageId(updateId) + 2) % 0x1_0000
  {
    var q := updateId / 0x1_0000;
    var d := DataMessageId(updateId);
    assert updateId + 2 == 0x1_0000 * q + (d + 2);
    if d + 2 < 0x1_0000 {
      DivModUnique(updateId + 2, 0x1_0000, q, d + 2);
      DivModUnique(d + 2, 0x1_0000, 0, d + 2);
    } else {
      DivModUnique(updateId + 2, 0x1_0000, q + 1, d + 2 - 0x1_0000);
      DivModUnique(d + 2, 0x1_0000, 1, d + 2 - 0x1_0000);
    }
  }

  /**
   * The identifier the upload tool (scripts/esp_can_update.py) sends chunk
   * `idx` under: the data message's identifier plus `(idx << 3) & 0x1FFFF800`.
   */
  function SenderId(base: nat, idx: nat): nat
  {
    base + IdBlockBits(idx * 8)
  }

  /**
   * The index the callback computes from the identifier the tool sends and
   * the low byte it puts in byte 0 is the tool's chunk index, for a standard
   * base identifier and fewer than 2^26 chunks.
   */
  lemma SenderChunkIndexRoundTrip(base: nat, idx: nat)
    requires base < 0x800 && idx < 0x400_0000
    ensures ChunkIndex(SenderId(base, idx), idx % 0x100) == idx
  {
    var hi := idx / 0x100;
    DivModUnique(idx, 0x100, hi, idx % 0x100);
    DivModUnique(idx * 8, 0x800, hi, (idx % 0x100) * 8);
    DivModUnique(hi, 0x4_0000, 0, hi);
    assert IdBlockBits(idx * 8) == hi * 0x800;
    DivModUnique(base + hi * 0x800, 0x800, hi, base);
    assert IdBlockBits(SenderId(base, idx)) == hi * 0x800;
    assert (hi * 0x800) / 8 == hi * 0x100;
  }

  /**
   * The identifier the callback actually uses is the stored 16-bit one, so
   * the index it computes stays below 2^13 whatever frame arrives, and is
   * just the low byte when the update identifier is a standard one.
   */
  lemma StoredIdChunkIndex(updateId: uint32, low: uint8)
    ensures ChunkIndex(DataMessageId(updateId), low) < 0x2000
    ensures DataMessageId(updateId) < 0x800 ==> ChunkIndex(DataMessageId(updateId), low) == low
  {
    var id := DataMessageId(updateId);
    var hi := id / 0x800;
    DivModUnique(hi, 0x4_0000, 0, hi);
    assert IdBlockBits(id) == hi * 0x800;
    assert (hi * 0x800) / 8 == hi * 0x100;
  }

  /** A `uint32_t` result: the value modulo 2^32. */
  function Wrap32(x: int): uint32
  {
    x % TwoTo32
  }

  /** `index * 7 >= update_length_ - 7` in `uint32_t` arithmetic: the chunk is the last one. */
  predicate IsFinalChunk(index: uint32, length: uint32)
  {
    Wrap32(index * 7) >= Wrap32(length - 7)
  }

  /** `update_length_ - (index * 7)` in `uint32_t`: the byte count written for the last chunk. */
  function FinalWriteCount(index: uint32, length: uint32): uint32
  {
    Wrap32(length - Wrap32(index * 7))
  }

  /** While the chunks written so far fit in the image, the last chunk writes between one and seven bytes. */
  lemma FinalChunkSize(index: uint32, length: uint32)
    requires 7 <= length && index * 7 < length && IsFinalChunk(index, length)
    ensures 1 <= FinalWriteCount(index, length) <= 7
  {
    DivModUnique(index * 7, TwoTo32, 0, index * 7);
    DivModUnique(length - 7, TwoTo32, 0, length - 7);
    DivModUnique(length - index * 7, TwoTo32, 0, length - index * 7);
  }

  /** A chunk that is not the last leaves room for the next one: the seven bytes after it still lie in the image. */
  lemma NonFinalChunkKeepsRoom(index: uint32, length: uint32)
    requires 7 <= length && index * 7 < length && !IsFinalChunk(index, length)
    ensures (index + 1) * 7 < length && index + 1 < TwoTo32
  {
    DivModUnique(index * 7, TwoTo32, 0, index * 7);
    DivModUnique(length - 7, TwoTo32, 0, length - 7);
  }

  /**
   * For an image of at least seven bytes, the chunks the upload tool sends,
   * `(L + 6) / 7` of them, are exactly the ones the callback accepts before
   * ending: every earlier chunk is not the last, the last one is, and the
   * seven-byte writes plus the final write add up to `L` bytes.
   */
  lemma ChunkCount(length: uint32)
    requires 7 <= length
    ensures var n := (length + 6) / 7;
      n >= 1 && IsFinalChunk(n - 1, length) &&
      (forall i: uint32 :: i < n - 1 ==> !IsFinalChunk(i, length)) &&
      7 * (n - 1) + FinalWriteCount(n - 1, length) == length
  {
    var n := (length + 6) / 7;
    var r := (length + 6) % 7;
    assert 7 * n + r == length + 6;
    assert 7 * (n - 1) < length <= 7 * n;
    DivModUnique(length - 7, TwoTo32, 0, length - 7);
    DivModUnique(7 * (n - 1), TwoTo32, 0, 7 * (n - 1));
    DivModUnique(length - 7 * (n - 1), TwoTo32, 0, length - 7 * (n - 1));
    forall i: uint32 | i < n - 1
      ensures !IsFinalChunk(i, length)
    {
      DivModUnique(i * 7, TwoTo32, 0, i * 7);
    }
  }

  /**
   * A start record that arrives while an update runs still overwrites the
   * length. When the new length is short of the chunks already written, the
   * next accepted chunk is the last one and its byte count
   * `update_length_ - (index * 7)` wraps to more than seven bytes.
   */
  lemma ShrunkLengthFinalWrite(index: uint32, length: uint32)
    requires 7 <= length < index * 7 < TwoTo32
    ensures IsFinalChunk(index, length)
    ensures FinalWriteCount(index, length) == TwoTo32 - (index * 7 - length) > 7
  {
    DivModUnique(index * 7, TwoTo32, 0, index * 7);
    DivModUnique(length - 7, TwoTo32, 0, length - 7);
    DivModUnique(length - index * 7, TwoTo32, -1, TwoTo32 + length - index * 7);
  }

  /**
   * Under a standard update identifier every chunk index the callback
   * computes is below 256, so a block index of 256 is never matched again.
   */
  lemma StandardIdChunkBelow256(updateId: uint32)
    requires DataMessageId(updateId) < 0x800
    ensures forall low: uint8 :: ChunkIndex(DataMessageId(updateId), low) < 0x100
  {
    forall low: uint8
      ensures ChunkIndex(DataMessageId(updateId), low) < 0x100
    {
      StoredIdChunkIndex(updateId, low);
    }
  }

  /**
   * An image shorter than seven bytes makes `update_length_ - 7` wrap to
   * nearly 2^32, so no chunk short of that is ever the last one.
   */
  lemma ShortImageNeverFinal(index: uint32, length: uint32)
    requires length < 7 && index * 7 < TwoTo32 - 7
    ensures !IsFinalChunk(index, length)
  {
    DivModUnique(index * 7, TwoTo32, 0, index * 7);
    DivModUnique(length - 7, TwoTo32, -1, TwoTo32 + length - 7);
  }

  /** The eight bytes of the `uint64_t` `data` in memory, least significant first, as `Update.write` reads them. */
  function DataBytes(data: nat): (r: seq<uint8>)
    ensures |r| == 8
  {
    WordBytes(FromNat(data, 64))
  }

  /** The bytes handed to `Update.write` are payload bytes 1 to 7 in order, then a zero byte. */
  lemma WrittenBytes(d: Payload)
    ensures DataBytes(LittleEndianValue(d[1..8])) == d[1..8] + [0]
  {
    var e := d[1..8] + [0];
    var bits := BytesBits(e);
    assert LittleEndianValue(d[1..8]) == ToNat(bits) by {
      LittleEndianTrailingZero(d[1..8]);
      BytesBitsValue(e);
    }
    assert FromNat(ToNat(bits), 64) == bits by {
      FromNatToNat(bits);
    }
    WordBytesOfBytesBits(e);
  }

  // ---------------------------------------------------------------------------
  // The progress frame

  function Bit(b: bool): nat
  {
    if b then 1 else 0
  }

  /** The five signals of `update_progress_message_`, in the order the message encodes them. */
  function ProgressFields(blockIdx: uint32, receivedLen: bool, receivedMd5: bool, written: bool, fwVersion: uint32): (fs: seq<Field>)
    ensures |fs| == 5 && FieldsValid(fs) && PairwiseApart(fs)
    ensures forall i :: 0 <= i < 5 ==> fs[i].config.byteOrder == LittleEndian && !fs[i].config.signedRaw
  {
    [Field(BlockIdxLayout, blockIdx),
     Field(ReceivedLenLayout, Bit(receivedLen)),
     Field(ReceivedMd5Layout, Bit(receivedMd5)),
     Field(WrittenLayout, Bit(written)),
     Field(FwVersionLayout, fwVersion)]
  }

  /** The word `EncodeSignals` builds for the progress message. */
  function ProgressWord(blockIdx: uint32, receivedLen: bool, receivedMd5: bool, written: bool, fwVersion: uint32): Word
  {
    EncodeAll(ProgressFields(blockIdx, receivedLen, receivedMd5, written, fwVersion), Zero())
  }

  /** The values of the progress signals that change, at the moment the message is sent. */
  datatype ProgressSignals = ProgressSignals(blockIdx: uint32, receivedLen: bool, receivedMd5: bool, written: bool)

  /** The frame `update_progress_message_.EncodeAndSend()` hands to the bus for those values. */
  function ProgressFrame(updateId: uint32, fwVersion: uint32, p: ProgressSignals): CanFrame
  {
    CanFrame(ProgressMessageId(updateId), 8, WordBytes(ProgressWord(p.blockIdx, p.receivedLen, p.receivedMd5, p.written, fwVersion)))
  }

  /** The word a receiver reads from the progress frame's bytes is the word the signals were encoded into. */
  lemma ProgressFrameWord(updateId: uint32, fwVersion: uint32, p: ProgressSignals)
    ensures BytesToWord(ProgressFrame(updateId, fwVersion, p).data) ==
      ProgressWord(p.blockIdx, p.receivedLen, p.receivedMd5, p.written, fwVersion)
  {
    BytesBitsOfWordBytes(ProgressWord(p.blockIdx, p.receivedLen, p.receivedMd5, p.written, fwVersion));
  }

  lemma Pow2TwentyFour()
    ensures Pow2(24) == 0x100_0000
  {
    Pow2Byte();
    Pow2Add(8, 8);
    Pow2Add(16, 8);
  }

  /** Bits 0 to 23 of the progress word carry the block index modulo 2^24. */
  lemma ProgressBlockIdx(blockIdx: uint32, receivedLen: bool, receivedMd5: bool, written: bool, fwVersion: uint32)
    ensures DecodeRaw(BlockIdxLayout, ProgressWord(blockIdx, receivedLen, receivedMd5, written, fwVersion)) == blockIdx % 0x100_0000
  {
    LittleEndianSignalsRoundTrip(ProgressFields(blockIdx, receivedLen, receivedMd5, written, fwVersion), 0);
    Pow2TwentyFour();
  }

  /** A one-bit unsigned little-endian field holding 0 or 1 decodes to what it holds, whatever the other fields carry. */
  lemma FlagRoundTrip(fs: seq<Field>, j: nat)
    requires FieldsValid(fs) && PairwiseApart(fs) && j < |fs|
    requires fs[j].config.byteOrder == LittleEndian && !fs[j].config.signedRaw
    requires fs[j].config.length == 1 && 0 <= fs[j].raw <= 1
    ensures DecodeRaw(fs[j].config, EncodeAll(fs, Zero())) == fs[j].raw
  {
    LittleEndianSignalsRoundTrip(fs, j);
    var c, raw := fs[j].config, fs[j].raw;
    assert Pow2(c.length) == 2 by {
      assert Pow2(1) == 2 * Pow2(0);
    }
    DivModUnique(raw, 2, 0, raw);
  }

  /** Bit 24 of the progress word is `received_len_`. */
  lemma ProgressReceivedLen(blockIdx: uint32, receivedLen: bool, receivedMd5: bool, written: bool, fwVersion: uint32)
    ensures DecodeRaw(ReceivedLenLayout, ProgressWord(blockIdx, receivedLen, receivedMd5, written, fwVersion)) == Bit(receivedLen)
  {
    var fs := ProgressFields(blockIdx, receivedLen, receivedMd5, written, fwVersion);
    assert fs[1] == Field(ReceivedLenLayout, Bit(receivedLen));
    FlagRoundTrip(fs, 1);
  }

  /** Bit 25 of the progress word is `received_md5_`. */
  lemma ProgressReceivedMd5(blockIdx: uint32, receivedLen: bool, receivedMd5: bool, written: bool, fwVersion: uint32)
    ensures DecodeRaw(ReceivedMd5Layout, ProgressWord(blockIdx, receivedLen, receivedMd5, written, fwVersion)) == Bit(receivedMd5)
  {
    var fs := ProgressFields(blockIdx, receivedLen, receivedMd5, written, fwVersion);
    assert fs[2] == Field(ReceivedMd5Layout, Bit(receivedMd5));
    FlagRoundTrip(fs, 2);
  }

  /** Bit 26 of the progress word is `written_`. */
  lemma ProgressWritten(blockIdx: uint32, receivedLen: bool, receivedMd5: bool, written: bool, fwVersion: uint32)
    ensures DecodeRaw(WrittenLayout, ProgressWord(blockIdx, receivedLen, receivedMd5, written, fwVersion)) == Bit(written)
  {
    var fs := ProgressFields(blockIdx, receivedLen, receivedMd5, written, fwVersion);
    assert fs[3] == Field(WrittenLayout, Bit(written));
    FlagRoundTrip(fs, 3);
  }

  /** Bits 32 to 63 of the progress word are the firmware version. */
  lemma ProgressFwVersion(blockIdx: uint32, receivedLen: bool, receivedMd5: bool, written: bool, fwVersion: uint32)
    ensures DecodeRaw(FwVersionLayout, ProgressWord(blockIdx, receivedLen, receivedMd5, written, fwVersion)) == fwVersion
  {
    LittleEndianSignalsRoundTrip(ProgressFields(blockIdx, receivedLen, receivedMd5, written, fwVersion), 4);
    Pow2ThirtyTwo();
    DivModUnique(fwVersion, TwoTo32, 0, fwVersion);
  }

  /** Bits 27 to 31 of the progress word belong to no signal and stay clear. */
  lemma ProgressGapClear(blockIdx: uint32, receivedLen: bool, receivedMd5: bool, written: bool, fwVersion: uint32, k: nat)
    requires 27 <= k < 32
    ensures !ProgressWord(blockIdx, receivedLen, receivedMd5, written, fwVersion)[k]
  {
    assert Outside(ProgressFields(blockIdx, receivedLen, receivedMd5, written, fwVersion), k);
  }

  // ---------------------------------------------------------------------------
  // The receiver

  /** What the callbacks do outside the receiver's own fields. */
  datatype Event =
    | Begin(size: uint32, ok: bool)     // `Update.begin(size)` and its result
    | SetMd5(words: seq<uint32>)        // `Update.setMD5` of the hex string of the four words
    | Write(bytes: seq<uint8>, count: nat)  // `Update.write(bytes, count)`
    | End(ok: bool)                     // `Update.end()` and its result
    | Restart                           // `ESP.restart()`
    | Abort                             // `Update.abort()`
    | Sent(progress: ProgressSignals)   // the progress message sent: `ProgressFrame(kUpdateId, fw, progress)`

  /** The protocol state the callbacks keep. */
  datatype Protocol = Protocol(
    started: bool,
    receivedMd5Arr: seq<bool>,
    md5Arr: seq<uint32>,
    blockIdx: uint32,
    receivedLen: bool,
    receivedMd5: bool,
    written: bool)

  /** `received_md5_arr_.at(0) && ... && received_md5_arr_.at(3)`. */
  predicate AllMd5Words(flags: seq<bool>)
    requires |flags| == 4
  {
    flags[0] && flags[1] && flags[2] && flags[3]
  }

  class CanUpdate {
    /** `kUpdateId`: the data message's identifier; info is `kUpdateId + 1`, progress `kUpdateId + 2`. */
    const updateId: uint32
    /** `kFirmwareVersion`, the value of `fw_version_`. */
    const fwVersion: uint32

    // The values of the signals of the info and data messages.
    var messageType: uint8
    var updateLength: uint32
    var md5Index: uint16
    var md5Word: uint32
    var blockIndexLow: uint8
    var updateData: nat

    // The protocol state; `blockIdx`, `receivedLen`, `receivedMd5` and `written` are the progress signals.
    var started: bool
    var receivedMd5Arr: seq<bool>
    var md5Arr: seq<uint32>
    var blockIdx: uint32
    var receivedLen: bool
    var receivedMd5: bool
    var written: bool

    /** `last_receive_time_` of the info and of the data message. */
    var infoLastReceive: uint32
    var dataLastReceive: uint32

    ghost var events: seq<Event>

    /** Four MD5 flags and words, and `received_md5_` set exactly when all four flags are. */
    predicate Valid()
      reads this
    {
      |receivedMd5Arr| == 4 && |md5Arr| == 4 && receivedMd5 == AllMd5Words(receivedMd5Arr)
    }

    function State(): Protocol
      reads this
    {
      Protocol(started, receivedMd5Arr, md5Arr, blockIdx, receivedLen, receivedMd5, written)
    }

    /** The current values of the progress signals. */
    function Progress(): ProgressSignals
      reads this
    {
      ProgressSignals(blockIdx, receivedLen, receivedMd5, written)
    }

    /** All signals value-initialised, nothing started, nothing received yet. */
    constructor (updateId: uint32, fwVersion: uint32)
      ensures Valid() && this.updateId == updateId && this.fwVersion == fwVersion
      ensures State() == Protocol(false, [false, false, false, false], [0, 0, 0, 0], 0, false, false, false)
      ensures messageType == 0 && updateLength == 0 && md5Index == 0 && md5Word == 0
      ensures blockIndexLow == 0 && updateData == 0
      ensures infoLastReceive == 0 && dataLastReceive == 0 && events == []
    {
      this.updateId := updateId;
      this.fwVersion := fwVersion;
      messageType, updateLength, md5Index, md5Word := 0, 0, 0, 0;
      blockIndexLow, updateData := 0, 0;
      started := false;
      receivedMd5Arr := [false, false, false, false];
      md5Arr := [0, 0, 0, 0];
      blockIdx := 0;
      receivedLen, receivedMd5, written := false, false, false;
      infoLastReceive, dataLastReceive := 0, 0;
      events := [];
    }

    /** `update_progress_message_.EncodeAndSend()`, also what the message's 100 ms timer does. */
    method SendProgress()
      modifies this`events
      ensures events == old(events) + [Sent(Progress())]
    {
      events := events + [Sent(Progress())];
    }

    /**
     * The 100 ms timer: when neither message has been received for
     * `kUpdateTimeout` milliseconds, every flag is cleared, the block index
     * goes back to 0 and the flash update is aborted; otherwise nothing
     * happens. The MD5 words and the signal values are kept.
     */
    method Tick(now: uint32)
      requires Valid()
      modifies this`started, this`receivedMd5, this`receivedLen, this`written, this`receivedMd5Arr
      modifies this`blockIdx, this`events
      ensures Valid()
      ensures Elapsed(dataLastReceive, now) >= UpdateTimeout && Elapsed(infoLastReceive, now) >= UpdateTimeout ==>
        State() == Protocol(false, [false, false, false, false], md5Arr, 0, false, false, false) &&
        events == old(events) + [Abort]
      ensures !(Elapsed(dataLastReceive, now) >= UpdateTimeout && Elapsed(infoLastReceive, now) >= UpdateTimeout) ==>
        State() == old(State()) && events == old(events)
    {
      if Elapsed(dataLastReceive, now) >= UpdateTimeout && Elapsed(infoLastReceive, now) >= UpdateTimeout {
        started := false;
        receivedMd5 := false;
        receivedLen := false;
        written := false;
        receivedMd5Arr := [false, false, false, false];
        blockIdx := 0;
        events := events + [Abort];
      }
    }

    /**
     * The MD5 branch of the info callback for index `i`: the word is stored,
     * its flag set, and `received_md5_` set once all four flags are (it is
     * never cleared here). An index of 4 or more makes
     * `received_md5_arr_.at` throw before anything changes.
     */
    method Md5Callback(i: nat, word: uint32) returns (threw: bool)
      requires Valid()
      modifies this`receivedMd5Arr, this`md5Arr, this`receivedMd5
      ensures Valid()
      ensures threw <==> i >= 4
      ensures threw ==> State() == old(State())
      ensures !threw ==>
        receivedMd5Arr == old(receivedMd5Arr)[i := true] &&
        md5Arr == old(md5Arr)[i := word] &&
        receivedMd5 == (old(receivedMd5) || AllMd5Words(receivedMd5Arr))
    {
      if i >= 4 {
        return true;
      }
      receivedMd5Arr := receivedMd5Arr[i := true];
      md5Arr := md5Arr[i := word];
      if AllMd5Words(receivedMd5Arr) {
        receivedMd5 := true;
      }
      threw := false;
    }

    /**
     * The start branch of the info callback, taken when no update is
     * running: `Update.begin` with the length; on success the MD5 is handed
     * over, the block index reset, the length and started flags set, the
     * written flag cleared, and one progress frame sent. On failure nothing
     * changes but the log. `received_md5_` is not consulted.
     */
    method StartCallback(beginOk: bool)
      requires !started
      modifies this`blockIdx, this`receivedLen, this`started, this`written, this`events
      ensures beginOk ==>
        State() == old(State()).(started := true, blockIdx := 0, receivedLen := true, written := false) &&
        events == old(events) + [Begin(updateLength, true), SetMd5(md5Arr), Sent(Progress())]
      ensures !beginOk ==> State() == old(State()) && events == old(events) + [Begin(updateLength, false)]
    {
      events := events + [Begin(updateLength, beginOk)];
      if beginOk {
        events := events + [SetMd5(md5Arr)];
        blockIdx := 0;
        receivedLen := true;
        started := true;
        written := false;
        SendProgress();
      }
    }

    /**
     * The multiplexed decode of the info message: the message type always,
     * the length for a start record, the MD5 index and word for an MD5
     * record, nothing more for any other type.
     */
    method DecodeInfo(frame: CanFrame)
      modifies this`messageType, this`updateLength, this`md5Index, this`md5Word
      ensures messageType == frame.data[0]
      ensures updateLength == if frame.data[0] == UpdateStart then LittleEndianValue(frame.data[1..5]) else old(updateLength)
      ensures md5Index == (if frame.data[0] == Md5Record then frame.data[1] else old(md5Index))
      ensures md5Word == if frame.data[0] == Md5Record then LittleEndianValue(frame.data[2..6]) else old(md5Word)
    {
      var d := frame.data;
      messageType := DecodeByte(MessageTypeLayout, Unsigned(8), d);
      if messageType == UpdateStart {
        updateLength := DecodeWord32(UpdateLengthLayout, d);
      } else if messageType == Md5Record {
        md5Index := DecodeByte(Md5IndexLayout, Unsigned(16), d);
        md5Word := DecodeWord32(Md5WordLayout, d);
      }
    }

    /**
     * The info callback on the decoded signals: an MD5 record stores its
     * word (or throws), a start record begins the update when none runs,
     * anything else does nothing.
     */
    method InfoCallback(beginOk: bool) returns (threw: bool)
      requires Valid()
      modifies this`receivedMd5Arr, this`md5Arr, this`receivedMd5
      modifies this`blockIdx, this`receivedLen, this`started, this`written, this`events
      ensures Valid()
      ensures threw <==> messageType == Md5Record && md5Index >= 4
      ensures messageType == Md5Record && !threw ==>
        State() == old(State()).(
          receivedMd5Arr := old(receivedMd5Arr)[md5Index := true],
          md5Arr := old(md5Arr)[md5Index := md5Word],
          receivedMd5 := old(receivedMd5) || AllMd5Words(old(receivedMd5Arr)[md5Index := true])) &&
        events == old(events)
      ensures messageType == UpdateStart && !old(started) && beginOk ==>
        State() == old(State()).(started := true, blockIdx := 0, receivedLen := true, written := false) &&
        events == old(events) + [Begin(updateLength, true), SetMd5(md5Arr), Sent(Progress())]
      ensures messageType == UpdateStart && !old(started) && !beginOk ==>
        State() == old(State()) && events == old(events) + [Begin(updateLength, false)]
      ensures threw || (messageType == UpdateStart && old(started)) || messageType > Md5Record ==>
        State() == old(State()) && events == old(events)
    {
      threw := false;
      if messageType == Md5Record {
        threw := Md5Callback(md5Index, md5Word);
      } else if !started && messageType == UpdateStart {
        StartCallback(beginOk);
      }
    }

    /**
     * The info message: the signals are decoded, then the callback runs, then
     * the receive time is stamped, unless the callback threw. The callback's
     * effect is stated on the decoded signals, which it does not change.
     */
    method ReceiveInfo(frame: CanFrame, now: uint32, beginOk: bool) returns (threw: bool)
      requires Valid()
      modifies this`messageType, this`updateLength, this`md5Index, this`md5Word
      modifies this`receivedMd5Arr, this`md5Arr, this`receivedMd5
      modifies this`blockIdx, this`receivedLen, this`started, this`written, this`events, this`infoLastReceive
      ensures Valid()
      // the multiplexed decode
      ensures messageType == frame.data[0]
      ensures updateLength == if frame.data[0] == UpdateStart then LittleEndianValue(frame.data[1..5]) else old(updateLength)
      ensures md5Index == (if frame.data[0] == Md5Record then frame.data[1] else old(md5Index))
      ensures md5Word == if frame.data[0] == Md5Record then LittleEndianValue(frame.data[2..6]) else old(md5Word)
      // an MD5 record
      ensures threw <==> messageType == Md5Record && md5Index >= 4
      ensures messageType == Md5Record && !threw ==>
        State() == old(State()).(
          receivedMd5Arr := old(receivedMd5Arr)[md5Index := true],
          md5Arr := old(md5Arr)[md5Index := md5Word],
          receivedMd5 := old(receivedMd5) || AllMd5Words(old(receivedMd5Arr)[md5Index := true])) &&
        events == old(events)
      // a start record while no update runs
      ensures messageType == UpdateStart && !old(started) && beginOk ==>
        State() == old(State()).(started := true, blockIdx := 0, receivedLen := true, written := false) &&
        events == old(events) + [Begin(updateLength, true), SetMd5(md5Arr), Sent(Progress())]
      ensures messageType == UpdateStart && !old(started) && !beginOk ==>
        State() == old(State()) && events == old(events) + [Begin(updateLength, false)]
      // anything else changes only the decoded signals
      ensures threw || (messageType == UpdateStart && old(started)) || messageType > Md5Record ==>
        State() == old(State()) && events == old(events)
      ensures infoLastReceive == if threw then old(infoLastReceive) else now
    {
      DecodeInfo(frame);
      threw := InfoCallback(beginOk);
      if !threw {
        infoLastReceive := now;
      }
    }

    /** `started && L >= 7 ==> blockIdx * 7 < L`: the chunks accepted so far lie inside the image. */
    predicate Progressing()
      reads this
    {
      started && 7 <= updateLength ==> blockIdx * 7 < updateLength
    }

    /** The chunk index the data callback computes from the stored identifier and the decoded low byte. */
    function Chunk(): nat
      reads this
    {
      ChunkIndex(DataMessageId(updateId), blockIndexLow)
    }

    /**
     * The last chunk: the rest of the image is written, `written_` set and
     * reported, and the update ended; success restarts the controller,
     * failure clears `update_started_`.
     */
    method LastChunk(index: uint32, bytes: seq<uint8>, endOk: bool) returns (restarted: bool)
      modifies this`started, this`written, this`events
      ensures restarted == endOk && written && started == (old(started) && endOk)
      ensures events == old(events) + [Write(bytes, FinalWriteCount(index, updateLength)),
                                       Sent(old(Progress()).(written := true)),
                                       End(endOk)] + (if endOk then [Restart] else [])
    {
      events := events + [Write(bytes, FinalWriteCount(index, updateLength))];
      written := true;
      SendProgress();
      events := events + [End(endOk)];
      if endOk {
        events := events + [Restart];
        return true;
      }
      started := false;
      restarted := false;
    }

    /**
     * Any other accepted chunk: seven bytes are written, and the progress
     * message goes out with `written_` set, then with the block index
     * advanced and `written_` cleared.
     */
    method NextChunk(bytes: seq<uint8>)
      modifies this`blockIdx, this`written, this`events
      ensures blockIdx == Wrap32(old(blockIdx) + 1) && !written
      ensures events == old(events) + [Write(bytes, 7), Sent(old(Progress()).(written := true)), Sent(Progress())]
    {
      events := events + [Write(bytes, 7)];
      written := true;
      SendProgress();
      blockIdx := Wrap32(blockIdx + 1);
      written := false;
      SendProgress();
    }

    /** The decode of the data message: the low index byte and the 56 data bits, and the eight bytes `&data` points at. */
    method DecodeData(frame: CanFrame) returns (bytes: seq<uint8>)
      modifies this`blockIndexLow, this`updateData
      ensures blockIndexLow == frame.data[0] && updateData == LittleEndianValue(frame.data[1..8])
      ensures bytes == frame.data[1..8] + [0]
    {
      var d := frame.data;
      blockIndexLow := DecodeByte(BlockIndexLowLayout, Unsigned(8), d);
      updateData, bytes := DecodeUpdateData(d);
    }

    /**
     * The data callback on the decoded signals: a chunk is accepted only
     * while started and when its index is the block index; the last one
     * ends the update, any other advances the block index.
     */
    method DataCallback(bytes: seq<uint8>, endOk: bool) returns (restarted: bool)
      modifies this`started, this`written, this`blockIdx, this`events
      ensures restarted ==> old(started) && old(blockIdx) == Chunk() && IsFinalChunk(old(blockIdx), updateLength) && endOk
      ensures !(old(started) && old(blockIdx) == Chunk()) ==>
        State() == old(State()) && events == old(events)
      ensures old(started) && old(blockIdx) == Chunk() && IsFinalChunk(old(blockIdx), updateLength) ==>
        blockIdx == old(blockIdx) && written && started == endOk && restarted == endOk &&
        events == old(events) + [Write(bytes, FinalWriteCount(old(blockIdx), updateLength)),
                                 Sent(old(Progress()).(written := true)),
                                 End(endOk)] + (if endOk then [Restart] else [])
      ensures old(started) && old(blockIdx) == Chunk() && !IsFinalChunk(old(blockIdx), updateLength) ==>
        started && blockIdx == Wrap32(old(blockIdx) + 1) && !written &&
        events == old(events) + [Write(bytes, 7), Sent(old(Progress()).(written := true)), Sent(Progress())]
      ensures old(Progressing()) ==> Progressing()
    {
      restarted := false;
      var index := Chunk();
      if started && blockIdx == index {
        if IsFinalChunk(blockIdx, updateLength) {
          restarted := LastChunk(blockIdx, bytes, endOk);
        } else {
          if 7 <= updateLength && blockIdx * 7 < updateLength {
            NonFinalChunkKeepsRoom(blockIdx, updateLength);
          }
          NextChunk(bytes);
        }
      }
    }

    /**
     * The data message: the signals are decoded, then the callback runs,
     * then the receive time is stamped (not after a restart, which does not
     * return). The callback's effect is stated on the decoded signals.
     */
    method ReceiveData(frame: CanFrame, now: uint32, endOk: bool)
      modifies this`blockIndexLow, this`updateData
      modifies this`started, this`written, this`blockIdx, this`events, this`dataLastReceive
      ensures blockIndexLow == frame.data[0] && updateData == LittleEndianValue(frame.data[1..8])
      ensures !(old(started) && old(blockIdx) == Chunk()) ==>
        State() == old(State()) && events == old(events) && dataLastReceive == now
      ensures old(started) && old(blockIdx) == Chunk() && IsFinalChunk(old(blockIdx), updateLength) ==>
        blockIdx == old(blockIdx) && written && started == endOk &&
        events == old(events) + [Write(frame.data[1..8] + [0], FinalWriteCount(old(blockIdx), updateLength)),
                                 Sent(old(Progress()).(written := true)),
                                 End(endOk)] + (if endOk then [Restart] else []) &&
        dataLastReceive == if endOk then old(dataLastReceive) else now
      ensures old(started) && old(blockIdx) == Chunk() && !IsFinalChunk(old(blockIdx), updateLength) ==>
        started && blockIdx == Wrap32(old(blockIdx) + 1) && !written &&
        events == old(events) + [Write(frame.data[1..8] + [0], 7),
                                 Sent(old(Progress()).(written := true)),
                                 Sent(Progress())] &&
        dataLastReceive == now
      ensures old(Progressing()) ==> Progressing()
    {
      var bytes := DecodeData(frame);
      var restarted := DataCallback(bytes, endOk);
      if !restarted {
        dataLastReceive := now;
      }
    }
  }
}
