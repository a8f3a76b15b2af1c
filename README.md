# CAN signal codec, message framework and firmware-update receiver

This project models, in Dafny, the two linked parts of a small CAN library for
microcontrollers:

- **The signal codec and message framework** (`include/can_interface.h`):
  - `generate_mask`;
  - `CANSignal`, which packs a typed value into a bit field of the 64-bit message word and unpacks it again. A field has a position, a length, a signed or unsigned raw type, a little- or big-endian byte order, and a factor and offset;
  - `CANTXMessage`, which ORs its signals into a zeroed word, copies the word into its frame and sends it;
  - `CANRXMessage`, which decodes every signal from a received frame, runs its callback and stamps the receive time. `GetTimeSinceLastReceive` is a wrapping `uint32_t` subtraction.
- **The firmware-update receiver `CANUpdate`** (`include/esp_can_update.h`):
  - an info frame carries either the image length or one of four MD5 words;
  - data frames each carry seven image bytes and the low byte of their chunk index;
  - a progress frame reports the chunk index and three flags;
  - a timer abandons an update when both frames have been silent for 500 ms.

## Representation

- **Words and bytes.**
  - The 64-bit message word is a `seq<bool>` of length 64, with bit `i` at index `i`. Shifts, masks, AND, OR and the eight-byte reversal are written bit by bit in module `Bits`.
  - `ToNat`, `FromNat`, `FromInt` and `ToInt` give the word's value as `uint64_t` or `int64_t`, so truncation and sign extension are explicit.
  - Bytes are integers `0..255`. A frame's eight bytes become the word least significant byte first, as the code's `reinterpret_cast` does on a little-endian host.
- **Signal layout and decode** (`CanSignals`):
  - `SignalConfig` is the template parameters of `CANSignal`. `Valid()` is the `static_assert` and template constraints.
  - `Encode` and `DecodeRaw` are the encode and decode expressions of both byte orders.
  - `DecodedValue` adds the raw-type cast, the unity-or-scaled choice and the final `static_cast`.
  - The factor/offset conversion of the non-unity path is floating point. It is kept abstract: a `Scaling` pair of functions.
- **Signals and messages** (`CanMessages`):
  - `CanSignal` is a class, because its value is updated in place. Its `decoder` is the virtual `DecodeSignal` of its instantiation.
  - `CanTxMessage` and `CanRxMessage` are classes over a sequence of signals, with the loops of `EncodeSignals` and `DecodeSignals`.
  - The bus (`ICAN`) records the frames it is given and the receivers registered with it.
- **The update receiver** (`EspCanUpdate`): `CanUpdate` holds the decoded signal values of the info and data frames, the protocol state and the two receive times.
  - Each callback is a method whose contract states its effect on the state and on a ghost event log. The log records `Update.begin`/`setMD5`/`write`/`end`/`abort`, `ESP.restart` and every progress send.
  - The results of `Update.begin` and `Update.end` are parameters.
  - The clock is a parameter `now`.

## Model

| member | source | states |
|---|---|---|
| CanSignals.GenerateMask | include/can_interface.h:40-43 | for `1 <= length` and `position + length <= 64`, bit `i` of the mask is set exactly when `position <= i < position + length` |
| CanSignals.Mask | include/can_interface.h:109 | the default `mask` template argument of a valid signal covers exactly its field |
| CanSignals.Contribution | include/can_interface.h:129-137 | what either byte order ORs into the buffer lies inside the signal's mask |
| CanSignals.Place | include/can_interface.h:129-137 | the final `& mask` of either byte order: the bit pattern placed for the field never reaches outside the signal's mask |
| CanSignals.Encode | include/can_interface.h:123-160 | encoding never clears a bit of the buffer and never changes a bit outside the mask |
| CanSignals.EncodeLittleEndianBits | include/can_interface.h:129 | little endian: bit `i` of the result is the old bit or, inside the field, bit `i - position` of the raw value |
| CanSignals.LittleEndianAlign | include/can_interface.h:168-170 | little endian: `Align`, the decode's left shift by `64 - (position + length)`, moves the field's bits, in order, to the top `length` bits of the word |
| CanSignals.BigEndianAlignAt | include/can_interface.h:175-177 | big endian: `Align`, the byte reversal then the left shift by `position`, brings to bit `k + 64 - length` the masked bit at `SwapIndex(k + 64 - length - position)` |
| CanSignals.ExtendAt | include/can_interface.h:169-171 | bit `k` of `Extend`, the right shift by `64 - length`, is bit `k + 64 - length` of its input below the length, and above it zero (`uint64_t`) or a copy of bit 63 (`int64_t`) |
| CanSignals.ExtendReadsField | include/can_interface.h:169-171 | `Extend` reads the top `length` bits of the aligned word as the field's value: unsigned for `uint64_t`, two's complement for `int64_t` |
| CanSignals.DecodeRawRange | include/can_interface.h:166-179 | `DecodeRaw` (the mask, `Align` and `Extend`, composed by `DecodedWord`) always yields a value a `length`-bit field can hold: `[0, 2^length)` unsigned, `[-2^(length-1), 2^(length-1))` signed, for either byte order and any buffer |
| CanSignals.LittleEndianDecode | include/can_interface.h:166-171 | little endian: the decoded raw value is the field's bits read as unsigned or as two's complement, by the raw type |
| CanSignals.LittleEndianDecodedWord | include/can_interface.h:168-171 | little endian: after the two shifts the word holds the field in its low bits, zero-filled or sign-extended above |
| CanSignals.LittleEndianRoundTrip | include/can_interface.h:129 | encoding `raw` into a clear field and decoding gives `raw mod 2^length` (unsigned) or its two's-complement wrap (signed) |
| CanSignals.LittleEndianRoundTripExact | include/can_interface.h:166-171 | a raw value in the field type's range comes back unchanged |
| CanSignals.SignWrap | include/can_interface.h:72-85 | the signed reading of a `length`-bit field lies in `[-2^(length-1), 2^(length-1))` |
| CanSignals.SignWrapInRange | include/can_interface.h:72-85 | a value already in that range is its own signed reading |
| CanSignals.SignExtensionExample | include/can_interface.h:169-171 | a 4-bit field holding `1000` decodes to -8 when signed and to 8 when unsigned |
| CanSignals.DecodeOnlyMasked | include/can_interface.h:169-176 | two buffers that agree on the field decode to the same raw value, whatever the bits outside the mask |
| CanSignals.BigEndianContributionAt | include/can_interface.h:133-137 | big endian: bit `i` of the contribution is, inside the field, bit `SwapIndex(i) - (64 - position - length)` of the raw value |
| CanSignals.BigEndianDecodedAt | include/can_interface.h:175-179 | big endian: bit `k` of the decoded word is the field bit that the reversal and the two shifts bring there, extended above the length |
| CanSignals.BigEndianAlignedRoundTrip | include/can_interface.h:133-137 | big endian, byte-aligned position and length: encode then decode gives `raw mod 2^length` or its signed wrap |
| CanSignals.BigEndianNibbleWritesNothing | include/can_interface.h:133-137 | big endian, position 4, length 4: encoding any 4-bit value leaves the buffer unchanged |
| CanSignals.BigEndianNibbleReadsZero | include/can_interface.h:175-179 | the same field decodes to 0 from every buffer |
| Bits.BswapInvolution | include/can_interface.h:136 | reversing the eight bytes twice gives the word back |
| Bits.ShlValue | include/can_interface.h:129 | `Shl` is `<<` on `uint64_t`: the shifted word denotes the word's value times 2^n, modulo 2^64 |
| Bits.ShrValue | include/can_interface.h:168-171 | `Shr` is `>>` on `uint64_t`: the shifted word denotes the word's value divided by 2^n, rounded down |
| Bits.SarValue | include/can_interface.h:168-171 | `Sar` is `>>` on `int64_t`: the shifted word, read as `int64_t`, is the word's signed value divided by 2^n, rounded toward minus infinity |
| Bits.ToIntFromInt | include/can_interface.h:129 | `FromInt` is `static_cast<underlying_type>` of the signal value: for a value in the `int64_t` range, `ToInt` of the 64-bit pattern gives the value back |
| Bits.FromIntToInt | include/can_interface.h:168-171 | every 64-bit pattern is `FromInt` of its `ToInt` reading, so the two's-complement view of a word loses nothing |
| CanMessages.BswapReversesBytes | include/can_interface.h:134-136 | `Bswap` is `std::reverse` on the eight bytes the word is stored in: the reversed word is the word of the same bytes in reverse order |
| CanMessages.BytesBitsValue | include/can_interface.h:390 | `BytesToWord`, the `reinterpret_cast` of a frame's bytes to `uint64_t`, denotes the little-endian value of those bytes |
| CanMessages.WordBytesOfBytesBits | include/can_interface.h:328 | `WordBytes`, the `std::copy` of the word's bytes into the frame, undoes `BytesToWord`: bytes to word to bytes is the identity |
| CanMessages.BytesBitsOfWordBytes | include/can_interface.h:390 | and the other way: word to bytes (`WordBytes`) to word (`BytesToWord`) is the identity |
| CanMessages.UnsignedFieldOfBytes | include/can_interface.h:166-171 | an unsigned little-endian field covering whole bytes decodes to the little-endian number in those bytes |
| CanMessages.EncodeAll | include/can_interface.h:321-327 | ORing the signals in turn never clears a buffer bit and leaves bits outside every field unchanged |
| CanMessages.EncodeAllStep | include/can_interface.h:324-327 | one more loop iteration encodes the next signal into the word built so far |
| CanMessages.EncodeAllAt | include/can_interface.h:321-327 | for signals with pairwise disjoint fields, the word holds each signal's own contribution inside that signal's field |
| CanMessages.SignalsDecodeIndependently | include/can_interface.h:321-329 | each disjoint signal decodes from the combined word as from its own encoding alone |
| CanMessages.LittleEndianSignalsRoundTrip | include/can_interface.h:321-329 | each little-endian signal of the message decodes to its raw value cut to the field |
| CanMessages.Cast | include/can_interface.h:170 | `static_cast` to the signal's type yields a value of that type (wrap for integers, `!= 0` for `bool`) |
| CanMessages.CastKeepsValues | include/can_interface.h:170 | a value of the type survives the cast unchanged |
| CanMessages.DecodedValue | include/can_interface.h:162-205 | what `DecodeSignal` stores is a value of the signal's type |
| CanMessages.ValueRoundTrip | include/can_interface.h:129 | a unity little-endian signal whose type fits its field reads back the value it encoded (the raw value `RawOf` puts on the bus is the value itself) |
| CanMessages.ValueRoundTripInField | include/can_interface.h:129 | the same round trip for any single value of the type that the field's raw type can hold, such as a `uint16_t` below 256 in an 8-bit field |
| CanMessages.CanSignal.constructor | include/can_interface.h:118-121 | a valid configuration gives a signal whose `decoder` is `DecodedValue` of that configuration and whose value is 0 |
| CanMessages.CanSignal.Assign | include/can_interface.h:51 | assignment stores the value |
| CanMessages.CanSignal.EncodeSignal | include/can_interface.h:123-160 | the result is `Encode` of the signal's raw value into the buffer; the raw value (`RawOf`) is the signal value itself on the unity path (line 129) and the scaling's `toRaw` of it otherwise |
| CanMessages.CanSignal.DecodeSignal | include/can_interface.h:162-205 | the new value is the signal's decode of the buffer, and a value of its type |
| CanMessages.Fields | include/can_interface.h:319 | each signal's layout paired with the raw value it currently puts on the bus |
| CanMessages.Bus.SendMessage | include/can_interface.h:245 | the frame is appended to what the bus was given |
| CanMessages.Bus.RegisterRXMessage | include/can_interface.h:247 | the receiver's identifier is appended to the registrations |
| CanMessages.CanTxMessage.constructor | include/can_interface.h:270-277 | given valid signals, the message is valid and its frame starts with the identifier, the length and eight zero bytes |
| CanMessages.CanTxMessage.EncodeData | include/can_interface.h:323-327 | the loop produces the bytes of all signals ORed, in order, into a zero word |
| CanMessages.CanTxMessage.EncodeSignals | include/can_interface.h:321-329 | only the frame's data changes; it becomes those bytes, and identifier and length stay |
| CanMessages.CanTxMessage.EncodeAndSend | include/can_interface.h:302-306 | the frame is encoded, then exactly that frame is sent once |
| CanMessages.Elapsed | include/can_interface.h:406 | the elapsed time added to the last receive time gives `now` modulo 2^32 |
| CanMessages.DecodeSteps | include/can_interface.h:391-394 | the decode steps are signals `0 .. n-1`, in order |
| CanMessages.CanRxMessage.constructor | include/can_interface.h:340-354 | given valid signals, the receiver is valid, registers itself with the bus once, and its last receive time starts at 0 |
| CanMessages.CanRxMessage.DecodeAll | include/can_interface.h:390-394 | every signal holds its decode of the same unmodified frame word, decoded in array order |
| CanMessages.CanRxMessage.Stamp | include/can_interface.h:402 | the last receive time becomes `now` |
| CanMessages.CanRxMessage.DecodeSignals | include/can_interface.h:388-403 | every signal decoded in order, then the callback if there is one, then the time stamped |
| CanMessages.CanRxMessage.TimeSinceLastReceive | include/can_interface.h:406 | the last receive time plus the result is `now` modulo 2^32 |
| EspCanUpdate.DecodeByteField | include/esp_can_update.h:58-67 | an unsigned unity byte-aligned signal of the update frames (each built by `UnsignedUnity`, the `MakeUnsignedCANSignal(T, position, length, 1, 0)` layout of `include/can_interface.h:211-212`) decodes to the little-endian number in its bytes |
| EspCanUpdate.DecodeByte | include/esp_can_update.h:58-66 | a one-byte signal decodes to its byte of the frame |
| EspCanUpdate.DecodeWord32 | include/esp_can_update.h:59-61 | a 32-bit signal decodes to the little-endian number in its four bytes |
| EspCanUpdate.DecodeUpdateData | include/esp_can_update.h:67 | `update_data_` is the little-endian number in bytes 1 to 7, and its memory is those bytes followed by a zero |
| EspCanUpdate.IdBlockBits | include/esp_can_update.h:140 | `x & 0x1FFFF800` is a multiple of 0x800 below 2^29 |
| EspCanUpdate.SenderChunkIndexRoundTrip | scripts/esp_can_update.py:167-176 | for a base identifier below 0x800 and an index below 2^26, the index computed from the identifier the tool sends and its low byte is the tool's index |
| EspCanUpdate.StoredIdChunkIndex | include/esp_can_update.h:140 | `ChunkIndex` is computed from `DataMessageId`, the stored 16-bit identifier (lines 135-136), so it is below 2^13, and it is the low byte when the identifier is below 0x800 |
| EspCanUpdate.StandardIdChunkBelow256 | include/esp_can_update.h:140-141 | under a standard update identifier every `ChunkIndex` the callback computes is below 256, so a block index of 256 is never matched again |
| EspCanUpdate.ProgressIdFollowsData | include/esp_can_update.h:75-76 | `ProgressMessageId`, `kUpdateId + 2` narrowed to `uint16_t`, is `DataMessageId` plus 2 modulo 2^16 |
| EspCanUpdate.ChunkCount | include/esp_can_update.h:143-146 | for a length `L` of at least 7, chunk `(L+6)/7 - 1` is the first one `IsFinalChunk` accepts as the last, and the seven-byte writes before it plus its `FinalWriteCount` total `L` |
| EspCanUpdate.FinalChunkSize | include/esp_can_update.h:143-146 | while the chunks written fit in the image, the final write is 1 to 7 bytes |
| EspCanUpdate.NonFinalChunkKeepsRoom | include/esp_can_update.h:143-167 | after a non-final chunk the next one still starts inside the image, and the index does not wrap |
| EspCanUpdate.ShortImageNeverFinal | include/esp_can_update.h:143 | below seven bytes, `update_length_ - 7` wraps and no chunk short of 2^32/7 is final |
| EspCanUpdate.ShrunkLengthFinalWrite | include/esp_can_update.h:143-146 | when the length is below `index * 7` (a start record decoded mid-update), chunk `index` is final and its `FinalWriteCount` wraps to `2^32 - (index * 7 - L)`, more than seven bytes |
| EspCanUpdate.WrittenBytes | include/esp_can_update.h:139-145 | the bytes `Update.write` receives are payload bytes 1 to 7 in order, then a zero byte |
| EspCanUpdate.ProgressFields | include/esp_can_update.h:69-84 | the five progress signals are valid, pairwise disjoint, unsigned and little endian |
| EspCanUpdate.FlagRoundTrip | include/esp_can_update.h:70-72 | a one-bit flag decodes from the combined word to the 0 or 1 it holds |
| EspCanUpdate.ProgressBlockIdx | include/esp_can_update.h:69 | bits 0 to 23 of `ProgressWord`, the word the progress message's five signals are encoded into, are the block index modulo 2^24 |
| EspCanUpdate.ProgressReceivedLen | include/esp_can_update.h:70 | bit 24 is `received_len_` |
| EspCanUpdate.ProgressReceivedMd5 | include/esp_can_update.h:71 | bit 25 is `received_md5_` |
| EspCanUpdate.ProgressWritten | include/esp_can_update.h:72 | bit 26 is `written_` |
| EspCanUpdate.ProgressFwVersion | include/esp_can_update.h:73 | bits 32 to 63 are the firmware version |
| EspCanUpdate.ProgressGapClear | include/esp_can_update.h:69-84 | bits 27 to 31 belong to no signal and stay clear |
| EspCanUpdate.ProgressFrameWord | include/esp_can_update.h:75-84 | the bytes of `ProgressFrame` read back as `ProgressWord`, so the lemmas above describe the frame on the bus |
| EspCanUpdate.CanUpdate.constructor | include/esp_can_update.h:15-38 | nothing started, no flag set, all words and indices 0, no events; `Valid()` holds: four MD5 flags and words, and `received_md5_` set exactly when all four flags are |
| EspCanUpdate.CanUpdate.SendProgress | include/esp_can_update.h:75-84 | one progress send carrying the current signal values is logged |
| EspCanUpdate.CanUpdate.Tick | include/esp_can_update.h:20-37 | when both receive times are at least 500 ms old, every flag is cleared, the block index becomes 0, the MD5 words stay, and `abort` is logged; otherwise nothing changes |
| EspCanUpdate.CanUpdate.Md5Callback | include/esp_can_update.h:96-105 | index 4 or more throws with nothing changed; otherwise the word and its flag are stored, and `received_md5_` becomes true once all four flags are set and is never cleared |
| EspCanUpdate.CanUpdate.StartCallback | include/esp_can_update.h:106-129 | a successful `begin` of the length sets index 0, length received, started and written cleared, passes the MD5, and sends exactly one progress frame; a failed `begin` changes nothing but the log |
| EspCanUpdate.CanUpdate.DecodeInfo | include/esp_can_update.h:58-64 | the message type is always decoded, the length only for a start record, the MD5 index and word only for an MD5 record |
| EspCanUpdate.CanUpdate.InfoCallback | include/esp_can_update.h:94-130 | by message type: MD5 record, start record while idle, or nothing at all (a start record while started, or an unknown type) |
| EspCanUpdate.CanUpdate.ReceiveInfo | include/esp_can_update.h:91-133 | decode, callback, then the receive time stamped unless the callback threw |
| EspCanUpdate.CanUpdate.LastChunk | include/esp_can_update.h:143-161 | the final chunk writes `L - index*7` bytes, sets `written_`, sends progress, ends; success restarts, failure clears `update_started_` |
| EspCanUpdate.CanUpdate.NextChunk | include/esp_can_update.h:162-170 | a non-final chunk writes 7 bytes, sends progress with `written_` set, advances the index by one, clears `written_` and sends again |
| EspCanUpdate.CanUpdate.DecodeData | include/esp_can_update.h:66-67 | the low index byte is byte 0, the data is bytes 1 to 7, and the bytes written are those seven and a zero |
| EspCanUpdate.CanUpdate.DataCallback | include/esp_can_update.h:137-172 | a chunk is accepted only while started and when `Chunk()`, the index computed from the stored identifier and byte 0, is the block index; otherwise no write, no send, no state change. `Progressing` (while started with a length of at least 7, `blockIdx * 7` is below the length) is preserved |
| EspCanUpdate.CanUpdate.ReceiveData | include/esp_can_update.h:135-174 | decode, callback, then the receive time stamped unless the controller restarted; `Progressing` is preserved |

## Where the model follows the code

- **Chunk index.** The data callback computes the chunk index from `update_data_message_.GetID()`. `CANRXMessage::GetID` returns the identifier stored at construction: `kUpdateId` narrowed to `uint16_t`. It does not return the identifier of the frame received. So the index never exceeds 2^13, and for a standard identifier it is just the low byte in byte 0 (`StoredIdChunkIndex`).
  - The upload tool puts the upper index bits into the extended identifier it sends. The callback would recover the tool's index if it read that identifier (`SenderChunkIndexRoundTrip`).
  - As written, an image of more than 256 chunks (1792 bytes) stalls at chunk 256 under a standard identifier. No computed index reaches 256 (`StandardIdChunkBelow256`), so from then on every data frame leaves the state and the log unchanged (`ReceiveData`).
  - The model computes the index as the code does.
- **Start without the MD5.** The start branch (`include/esp_can_update.h:106-129`) tests only `!update_started_` and the message type. It never reads `received_md5_` or `received_md5_arr_`, so `Update.begin` and `Update.setMD5` run even when fewer than four MD5 words have arrived; the words passed are whatever `md5_arr_` holds. The model follows the code.
- **Start record while started.** The decode of the multiplexed info frame still overwrites `update_length_`. The callback ignores the record, but the final-chunk test then uses the new length. If the new length is below `update_block_idx_ * 7`, the next accepted chunk is final and `update_length_ - (index * 7)` wraps: with block index 100 and a new length of 7, `Update.write` is asked for 2^32 - 693 bytes (`ShrunkLengthFinalWrite`). So the data callback keeps `Progressing`, but the info callback does not.
- **Short images.** `update_length_ - 7` is `uint32_t` arithmetic. Below seven bytes it wraps, so the final-chunk branch is never taken (`ShortImageNeverFinal`).
- **MD5 index.** `received_md5_arr_.at(i)` (`include/esp_can_update.h:98`) throws `std::out_of_range` for an index byte `i >= 4`, and the line after it (`md5_arr_[i]`) is never reached. The model returns `threw = true` with nothing changed and no receive time stamped.
- **Big endian.** The class comment (`include/can_interface.h:87-88`) says the codec only works with little-endian signals, and the template parameter comment (`include/can_interface.h:96-97`) warns against changing the byte order. The big-endian branches are still modelled as written. Encode shifts by `64 - position - length`, reverses the bytes and masks; decode masks, reverses and shifts by `position`. This round-trips for byte-aligned fields (`BigEndianAlignedRoundTrip`). For an unaligned field such as position 4, length 4, the encoded bits land outside the mask: nothing is written and the field always reads 0 (`BigEndianNibbleWritesNothing`, `BigEndianNibbleReadsZero`).
- **Multiplexed info frame.** `MultiplexedSignalGroup` and `MultiplexedCANRXMessage` are not part of this model. Their effect is taken from their use:
  - the message type is decoded first;
  - a group's signals are decoded only when the type selects it;
  - then the callback runs and the time is stamped, as in `CANRXMessage::DecodeSignals`.

## Left out

- Non-unity scaling (`include/can_interface.h:68-70`, 144-158, 188-203) is floating point. The conversions are the abstract `Scaling` functions, so encode and decode of a scaled signal are stated only up to them.
- Float signals (`ITypedCANSignal<float>`, `include/can_interface.h:66`) are not modelled: `ValueKind` covers the unsigned, signed and `bool` instantiations only. On the unity path a `float` signal is encoded through `static_cast<underlying_type>`, which truncates toward zero, and decoded by converting the raw integer to the nearest `float`; neither rounding is stated.
- The `mask` and `unity_factor` template arguments (`include/can_interface.h:109-111`) can be overridden by a caller. `Mask` and `SignalConfig.Unity()` fix them to their defaults, `generate_mask(position, length)` and `factor == CANTemplateConvertFloat(1) && offset == 0`; a signal whose mask differs from its field, or that forces the unity path with another factor, is not modelled.
- CanMessages.CanSignal.EncodeSignal: on the non-unity path the raw value is `scaling.toRaw(value)`, an abstract function, not the float expression.
- CanSignals.BigEndianAlignedRoundTrip: holds for byte-aligned big-endian fields only. For other big-endian fields only mask confinement (`Encode`) and the position-4 example are proved.
- `VirtualTimer`, `VirtualTimerGroup`, the transmit period and `Enable`/`Disable` are an external scheduler. A timer firing is a call of `Tick` or `SendProgress`.
- `millis()` and `get_millis_` become the parameter `now`.
- `ICAN::Initialize` and `Tick` are external. The bus only records sent frames and registrations, and the dispatch to a receiver is a call of its `DecodeSignals`, `ReceiveInfo` or `ReceiveData`.
- `SetMask(0x7FF)` is not defined in the files modelled; it is left out.
- The `Update` flash library, `ESP.restart`, `Serial` output, `sprintf` of the MD5 string and `__bswap32` are platform calls. They appear only as events: `SetMd5` records the four words, not the hex string.
- EspCanUpdate.CanUpdate.ReceiveData: `ESP.restart()` does not return. After a successful end the model logs `Restart` and returns without stamping the time; it says nothing about what follows.
- EspCanUpdate.CanUpdate.SendProgress: logs the values of the changing progress signals. `ProgressFrame` and the `Progress…` lemmas give the frame those values encode to.
- `CanUpdate` keeps the decoded signal values as fields rather than as `CanSignal` objects. The decode helpers (`DecodeByte`, `DecodeWord32`, `DecodeUpdateData`) are stated through `DecodedValue`, the same function every `CanSignal.decoder` is.
- `GetLastReceiveTime`, `GetTransmitTimer`, `value_ref` and the conversion operator are plain field reads. `CanTxMessage.GetID` and `CanRxMessage.GetID` (`include/can_interface.h:308`, 386) are plain accessors of the stored identifier; they have no row in the table.
