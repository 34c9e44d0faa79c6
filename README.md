# Kaitai Struct stream runtime, modelled in Dafny

This project models the core of the TypeScript runtime of Kaitai Struct, `src/KaitaiStream.ts`: the `KaitaiStream` read cursor that generated parsers drive, and the static byte-array helpers they call.

The stream is a class `Streams.KaitaiStream` with the source's own fields:
- `buffer`, an array of bytes;
- `byteOffset` and `byteLength`, the window on the buffer that forms the view;
- the cursor `pos`;
- the bit accumulator `bits`/`bitsLeft`.

Every stream method does what its source method does, step by step on these fields. Its `ensures` ties the result and the new state to a specification function of the old state:
- the byte reads to `ByteView.Take`;
- the fixed-width integer reads to `ByteView.ReadInt`;
- `readBytesTerm` to `ByteView.ReadTerm`;
- `ensureFixedContents` to `ByteView.FixedContents`;
- the bit readers to `BitReader.BeRead` and `BitReader.LeRead`.

The properties of those functions are proved as lemmas in their modules.

The two bit readers work through JavaScript's 32-bit operators: `<<`, `|`, `&` and `>>>`, with shift counts taken modulo 32.
- `JsInt32` defines each operator exactly on 32-bit patterns.
- `BitReader` follows `readBitsIntBe`/`readBitsIntLe` operator by operator (`BeStep`, `LeStep`).
- It defines what the readers evidently intend (`BeIdeal`, `LeIdeal`, `BeReadIdeal`, `LeReadIdeal`), and proves that these return the next n unread bits of the stream.
  - Big-endian readers take each byte most significant bit first (`UnreadMsb`); little-endian readers least significant bit first (`UnreadLsb`).
  - The bit strings are defined in `BitStreams`.
- It states when the code is guaranteed to agree with that intent (`BeReadAgrees`, `LeReadAgrees`). `BitExamples` exhibits concrete inputs where it does not (see "## Findings").

The static helpers are in `ByteHelpers`. Each one that loops in the source is a method with its loop and invariants. It is proved equal to a function, and the function's properties (prefix, involution, rotation, ordering) are lemmas. Failures are values of `StreamErrors.Error`, one variant per thrown value, with the thrown value's payload:
- `EOF(bytesReq, bytesAvail)`;
- `UnexpectedData(expected, actual)`;
- `MissingTerminator`;
- `BitWidthExceeded`;
- `UnsupportedGroup`;
- `NonPositiveDivisor`;
- `RangeError`, thrown by the engine itself for a typed-array view with a negative length or an offset outside its buffer.

Behaviour of the code worth noting, which the model keeps:
- `seek(+Infinity)` puts the cursor at `size`. `Math.min(size, +Infinity)` is already the finite `size`, so the `!isFinite` guard at src/KaitaiStream.ts:245 never sees +Infinity. Only NaN and `-Infinity` give 0 (`Streams.SeekTarget`).
- `readBytesTerm` on `41 42 00 43` with `include` off and `consume` on leaves the cursor at 3, just past the terminator (`ByteView.ReadTermExample`).
- With `include` and `consume` both set, `readBytesTerm` moves the cursor one byte past the terminator. When the terminator is the last byte, that is `size + 1`. `Streams.KaitaiStream.Valid` therefore allows `pos <= size + 1`.
- `processXorMany` with an empty key does not throw: `key[0]` is `undefined`, which `^` takes as 0, so the data is copied (`ByteHelpers.XorManyDegenerate`).
- `arrayMin`/`arrayMax` on an empty array return `undefined`. They are modelled as returning `None`.
- `ensureFixedContents` compares lengths, but that comparison can never fail: `readBytes` either returns exactly `expected.length` bytes or throws `EOFError` first. Its only failures are that EOF and a byte mismatch.
- A zero-bit `readBitsIntBe` masks `bits` to its low `bitsLeft` bits. It leaves the accumulator as it was only when no stale bits lie above them (`BitReader.ZeroBitRead`).

## Model

| member | source | states |
|---|---|---|
| Streams.KaitaiStream.Init | src/KaitaiStream.ts:13-27 | A new stream's view is the buffer from the offset to its end, the cursor is 0 and the bit accumulator is aligned (no pending bits). |
| Streams.KaitaiStream.Open | src/KaitaiStream.ts:13-27 | Construction over an existing buffer succeeds exactly when the offset lies within the buffer, and otherwise fails with the DataView's RangeError. On success the view is the buffer from the offset on, the cursor is 0 and the accumulator is aligned. |
| Streams.KaitaiStream.Allocate | src/KaitaiStream.ts:13-27 | Construction from a length allocates a fresh buffer of `length \|\| 1` bytes: exactly `length`, or 1 when `length` is 0. It fails with RangeError for a negative length or an offset outside the buffer. On success the window runs from the offset to the buffer's end, and the view is `length \|\| 1` minus the offset zero bytes. The cursor is 0 and the accumulator is aligned. |
| Streams.SeekTarget | src/KaitaiStream.ts:243-246 | The seek target always lies in [0, size]. An in-range finite position is kept, a negative one gives 0, one beyond the end gives size, +Infinity gives size, and -Infinity and NaN give 0. |
| Streams.KaitaiStream.Seek | src/KaitaiStream.ts:243-246 | `seek` sets the cursor to the clamped target and changes neither the buffer, the window nor the bit accumulator. |
| Streams.KaitaiStream.TrimAlloc | src/KaitaiStream.ts:248-257 | When the buffer is longer than `byteLength`, a fresh buffer holding the old buffer's first `byteLength` bytes (copied from index 0, not from the offset) replaces it; otherwise the buffer is kept. The view's bytes, the cursor and the accumulator are unchanged. |
| Streams.KaitaiStream.GetBuffer | src/KaitaiStream.ts:206-209 | The `buffer` getter trims the buffer and returns the buffer itself, which holds exactly the old buffer's first `byteLength` bytes. The view is unchanged. |
| ByteView.BytesLeft | src/KaitaiStream.ts:501-505 | The bounds check fails exactly when `pos + length > size`, with EOF carrying `length` and `size - pos`. |
| Streams.KaitaiStream.EnsureBytesLeft | src/KaitaiStream.ts:501-505 | `ensureBytesLeft` returns the bounds check's outcome on the current state and changes nothing. |
| ByteView.Take | src/KaitaiStream.ts:507-512 | A range read succeeds exactly when `0 <= length` and `pos + length <= size`, and then returns `length` bytes. A read past the end fails with EOF(length, size - pos). |
| Streams.KaitaiStream.MapUint8Array | src/KaitaiStream.ts:507-512 | `mapUint8Array` returns the next `length` bytes of the view, or the error; the cursor advances by `length` on success only. The buffer, window and accumulator are unchanged. |
| ByteView.TakeConcat | src/KaitaiStream.ts:507-512 | Reading a bytes and then b bytes succeeds exactly when reading a + b bytes at once does, and yields the same bytes. |
| ByteView.TakeIsPrefix | src/KaitaiStream.ts:507-512 | The bytes a read returns are the front of the unread bytes; what follows the new cursor is the rest. |
| Streams.KaitaiStream.ReadBytes | src/KaitaiStream.ts:447-449 | `readBytes(len)` is the range read of `len` bytes at the cursor, with the cursor moved past them on success and unchanged on failure. |
| Streams.KaitaiStream.ReadBytesFull | src/KaitaiStream.ts:451-453 | `readBytesFull` returns every byte from the cursor to the end of the view and leaves the cursor at `size`. |
| Streams.EofNoBytes | src/KaitaiStream.ts:501-512 | At the end of the view, every read of at least one byte fails with EOF(len, size - pos). |
| Streams.KaitaiStream.ReadInteger | src/KaitaiStream.ts:259-347 | The pattern all integer reads share: the result is the w-byte decoding at the cursor (or EOF), and the cursor moves by w on success and stays put on failure. |
| Streams.KaitaiStream.ReadS1 | src/KaitaiStream.ts:259-264 | `readS1` returns the two's-complement value of the byte at the cursor and advances by 1, or fails with EOF and leaves the cursor. |
| Streams.KaitaiStream.ReadS2be | src/KaitaiStream.ts:266-271 | `readS2be` returns the signed big-endian value of the next 2 bytes and advances by 2, or fails with EOF and leaves the cursor. |
| Streams.KaitaiStream.ReadS4be | src/KaitaiStream.ts:272-277 | `readS4be` returns the signed big-endian value of the next 4 bytes and advances by 4, or fails with EOF and leaves the cursor. |
| Streams.KaitaiStream.ReadS8be | src/KaitaiStream.ts:278-283 | `readS8be` returns the exact signed big-endian value of the next 8 bytes (a BigInt) and advances by 8, or fails with EOF and leaves the cursor. |
| Streams.KaitaiStream.ReadS2le | src/KaitaiStream.ts:285-290 | `readS2le` returns the signed little-endian value of the next 2 bytes and advances by 2, or fails with EOF and leaves the cursor. |
| Streams.KaitaiStream.ReadS4le | src/KaitaiStream.ts:291-296 | `readS4le` returns the signed little-endian value of the next 4 bytes and advances by 4, or fails with EOF and leaves the cursor. |
| Streams.KaitaiStream.ReadS8le | src/KaitaiStream.ts:297-302 | `readS8le` returns the exact signed little-endian value of the next 8 bytes and advances by 8, or fails with EOF and leaves the cursor. |
| Streams.KaitaiStream.ReadU1 | src/KaitaiStream.ts:304-309 | `readU1` returns the byte at the cursor and advances by 1, or fails with EOF and leaves the cursor. |
| Streams.KaitaiStream.ReadU2be | src/KaitaiStream.ts:311-316 | `readU2be` returns the unsigned big-endian value of the next 2 bytes and advances by 2, or fails with EOF and leaves the cursor. |
| Streams.KaitaiStream.ReadU4be | src/KaitaiStream.ts:317-322 | `readU4be` returns the unsigned big-endian value of the next 4 bytes and advances by 4, or fails with EOF and leaves the cursor. |
| Streams.KaitaiStream.ReadU8be | src/KaitaiStream.ts:323-328 | `readU8be` returns the exact unsigned big-endian value of the next 8 bytes and advances by 8, or fails with EOF and leaves the cursor. |
| Streams.KaitaiStream.ReadU2le | src/KaitaiStream.ts:330-335 | `readU2le` returns the unsigned little-endian value of the next 2 bytes and advances by 2, or fails with EOF and leaves the cursor. |
| Streams.KaitaiStream.ReadU4le | src/KaitaiStream.ts:336-341 | `readU4le` returns the unsigned little-endian value of the next 4 bytes and advances by 4, or fails with EOF and leaves the cursor. |
| Streams.KaitaiStream.ReadU8le | src/KaitaiStream.ts:342-347 | `readU8le` returns the exact unsigned little-endian value of the next 8 bytes and advances by 8, or fails with EOF and leaves the cursor. |
| ByteView.ReadIntRange | src/KaitaiStream.ts:259-347 | A w-byte read fails exactly when fewer than w bytes remain, with EOF(w, size - pos). An unsigned result lies in [0, 2^(8w)) and a signed one in [-2^(8w-1), 2^(8w-1)); the two agree modulo 2^(8w). |
| ByteView.ReadIntOrders | src/KaitaiStream.ts:285-302 | A little-endian read is the big-endian read of the same bytes reversed. |
| ByteView.ReadIntSign | src/KaitaiStream.ts:266-283 | A signed big-endian read is negative exactly when its first byte has the top bit set. |
| ByteView.ReadU4Example | src/KaitaiStream.ts:317-341 | Bytes 01 02 03 04 read as 0x01020304 with `readU4be` and 0x04030201 with `readU4le`. |
| IntDecoding.UnsignedBeBound | src/KaitaiStream.ts:311-328 | A w-byte big-endian value is below 2^(8w). |
| IntDecoding.UnsignedLeBound | src/KaitaiStream.ts:330-347 | A w-byte little-endian value is below 2^(8w). |
| IntDecoding.UnsignedBeConcat | src/KaitaiStream.ts:311-328 | The big-endian value of a + b is a's value shifted up by b's width, plus b's value. |
| IntDecoding.UnsignedLeConcat | src/KaitaiStream.ts:330-347 | The little-endian value of a + b is a's value plus b's value shifted up by a's width. |
| IntDecoding.LeIsReversedBe | src/KaitaiStream.ts:330-347 | The little-endian value of a byte string is the big-endian value of the string reversed. |
| IntDecoding.EncodeDecodeBe | src/KaitaiStream.ts:311-328 | Encoding the decoded value in the same width gives the bytes back: the decoding loses nothing. |
| IntDecoding.DecodeEncodeBe | src/KaitaiStream.ts:311-328 | Decoding a w-byte encoding of v gives v modulo 2^(8w). |
| IntDecoding.UnsignedBeInjective | src/KaitaiStream.ts:311-328 | Two byte strings of one width with the same big-endian value are equal. |
| IntDecoding.SignedRange | src/KaitaiStream.ts:259-302 | The two's-complement reading of a w-byte value lies in the signed range, is congruent to it modulo 2^(8w), and is negative exactly when the top bit is set. |
| IntDecoding.SignedBeNegative | src/KaitaiStream.ts:266-283 | A signed big-endian value is negative exactly when the first byte is at least 0x80. |
| Streams.KaitaiStream.AlignToByte | src/KaitaiStream.ts:375-378 | `alignToByte` drops the pending bits: `bits` and `bitsLeft` become 0, and the cursor and view are unchanged. |
| Streams.KaitaiStream.ShiftInBe | src/KaitaiStream.ts:395-400 | The big-endian pull loop leaves the 32-bit accumulation of the bytes (each shifted in at the bottom) and eight more pending bits per byte. |
| Streams.KaitaiStream.ShiftInLe | src/KaitaiStream.ts:429-433 | The little-endian pull loop leaves the 32-bit accumulation of the bytes (each or-ed in above the pending bits) and eight more pending bits per byte. |
| Streams.KaitaiStream.PullBe | src/KaitaiStream.ts:387-401 | `readBitsIntBe`'s pull reads `ceil((n - bitsLeft) / 8)` bytes when too few bits are pending, and none otherwise. A failed pull changes neither cursor nor accumulator. A successful one moves the cursor past the bytes and shifts them in. |
| Streams.KaitaiStream.PullLe | src/KaitaiStream.ts:421-434 | The same for `readBitsIntLe`'s pull, or-ing the bytes in above the pending bits. |
| Streams.KaitaiStream.TakeTopBits | src/KaitaiStream.ts:402-411 | The end of `readBitsIntBe`: the result is `(bits >>> (bitsLeft - n)) & mask`, with the full-width mask for n = 32; the top n pending bits are then cleared and `bitsLeft` drops by n. |
| Streams.KaitaiStream.TakeLowBits | src/KaitaiStream.ts:435-444 | The end of `readBitsIntLe`: the result is `bits & mask`, then `bits >>>= n` (shift count modulo 32) and `bitsLeft` drops by n. |
| Streams.KaitaiStream.ReadBitsIntBe | src/KaitaiStream.ts:380-412 | `readBitsIntBe(n)` yields exactly the result, cursor and accumulator of `BitReader.BeRead` on the old state, and keeps `bitsLeft <= 7`. |
| Streams.KaitaiStream.ReadBitsIntLe | src/KaitaiStream.ts:416-445 | `readBitsIntLe(n)` yields exactly the result, cursor and accumulator of `BitReader.LeRead` on the old state, and keeps `bitsLeft <= 7`. |
| BitReader.BeRead | src/KaitaiStream.ts:380-412 | Every big-endian bit read, failed or not, ends with at most 7 pending bits. |
| BitReader.LeRead | src/KaitaiStream.ts:416-445 | Every little-endian bit read, failed or not, ends with at most 7 pending bits. |
| BitReader.BeStep | src/KaitaiStream.ts:402-411 | After the pull the big-endian step leaves `bitsLeft + 8 * pulled - n` pending bits, at most 7. |
| BitReader.LeStep | src/KaitaiStream.ts:435-444 | After the pull the little-endian step leaves `bitsLeft + 8 * pulled - n` pending bits, at most 7. |
| BitReader.PulledEnough | src/KaitaiStream.ts:387-400 | From at most 7 pending bits, the pull leaves between n and n + 7 pending bits and reads at most 4 bytes. |
| BitReader.PullShape | src/KaitaiStream.ts:387-393 | The pull succeeds exactly when the pending bits and the unread bytes hold n bits. It then yields the next bytes of the view; otherwise it fails with `readBytes`' EOF error. |
| BitReader.ReadFails | src/KaitaiStream.ts:380-445 | Both readers succeed exactly when n <= 32 and n bits remain. A failure (BitWidthExceeded for n > 32, checked before anything else, or EOF) changes neither the cursor nor the accumulator. A success moves the cursor by exactly `ceil((n - bitsLeft) / 8)` bytes, or 0. |
| BitReader.ZeroBitRead | src/KaitaiStream.ts:380-445 | A zero-bit read pulls nothing and returns 0. The little-endian one leaves the state as it was; the big-endian one masks `bits` to its pending bits, and so changes nothing from a clean state. |
| BitReader.BeReadAdvances | src/KaitaiStream.ts:380-412 | A successful big-endian read moves past exactly the next n unread bits of the stream and leaves `bits < 2^bitsLeft`. |
| BitReader.BeReadValue | src/KaitaiStream.ts:380-412 | When the pending and pulled bits fit in 32, a big-endian read returns the next n unread bits, most significant first: as a 32-bit pattern, and exactly for n < 32. |
| BitReader.LeReadValue | src/KaitaiStream.ts:416-445 | From clean pending bits, a little-endian read returns the next n unread bits, least significant first: as a 32-bit pattern, and exactly for n < 32. |
| BitReader.LeReadAdvances | src/KaitaiStream.ts:416-445 | From clean pending bits, when the bits fit in 32, a little-endian read moves past exactly the next n unread bits; for n < 32 the pending bits stay clean. |
| BitReader.ShortReadsFit | src/KaitaiStream.ts:387-400 | Every read of at most 25 bits fits in the 32-bit accumulator. |
| BitReader.BeStepAgrees | src/KaitaiStream.ts:402-411 | The big-endian step always leaves the intended accumulator. It returns the intended value as a pattern whenever the bits fit in 32, and exactly below n = 32. |
| BitReader.LeStepAgrees | src/KaitaiStream.ts:435-444 | From clean bits the little-endian step always returns the intended value as a pattern, and exactly below n = 32. It leaves the intended accumulator when the bits fit and n < 32. |
| BitReader.BeIdeal | src/KaitaiStream.ts:402-411 | The intended big-endian step returns a value below 2^n and leaves only the unread pending bits. |
| BitReader.LeIdeal | src/KaitaiStream.ts:435-444 | The intended little-endian step returns a value below 2^n and leaves only the unread pending bits. |
| BitReader.BeIdealNextBits | src/KaitaiStream.ts:402-411 | The intended big-endian step returns the first n of the pending and pulled bits, most significant first, and keeps exactly the others. |
| BitReader.LeIdealNextBits | src/KaitaiStream.ts:435-444 | The intended little-endian step returns the first n of the pending and pulled bits, least significant first, and keeps exactly the others. |
| BitReader.BePullIdeal | src/KaitaiStream.ts:387-411 | After a successful pull, the intended big-endian step returns the next n unread bits of the stream and leaves the rest unread. |
| BitReader.LePullIdeal | src/KaitaiStream.ts:421-444 | After a successful pull, the intended little-endian step returns the next n unread bits of the stream and leaves the rest unread. |
| BitReader.BeReadIdeal | src/KaitaiStream.ts:380-412 | `readBitsIntBe` as evidently intended always ends with at most 7 pending bits. |
| BitReader.LeReadIdeal | src/KaitaiStream.ts:416-445 | `readBitsIntLe` as evidently intended always ends with at most 7 pending bits. |
| BitReader.IdealReadFails | src/KaitaiStream.ts:380-445 | The intended reads fail exactly when the code's do, with the same error, and then change nothing. |
| BitReader.BeReadIdealNextBits | src/KaitaiStream.ts:380-412 | Whenever n bits remain, the intended big-endian read returns the next n bits of the stream, most significant first, moves past exactly them and leaves clean pending bits. |
| BitReader.LeReadIdealNextBits | src/KaitaiStream.ts:416-445 | Whenever n bits remain, the intended little-endian read returns the next n bits of the stream, least significant first, moves past exactly them and leaves clean pending bits. |
| BitReader.BeReadAgrees | src/KaitaiStream.ts:380-412 | The big-endian code agrees with the intended read on success, failure, cursor and accumulator. It agrees on the value when the bits fit in 32: as a pattern, and exactly for n < 32. |
| BitReader.LeReadAgrees | src/KaitaiStream.ts:416-445 | From clean bits, the little-endian code agrees with the intended read on success, failure, cursor and value: as a pattern, and exactly for n < 32. It agrees on the accumulator when moreover the bits fit in 32 and n < 32. |
| Streams.KaitaiStream.IsEof | src/KaitaiStream.ts:239-241 | `isEof()` on a stream holds exactly when a one-bit read from its view, cursor and accumulator fails, in the big-endian order and in the little-endian order alike. |
| Streams.EofIffNoBit | src/KaitaiStream.ts:239-241 | For any view, cursor at most one past the end and at most 7 pending bits: the cursor being at the end with no pending bits holds exactly when a one-bit read fails, in either bit order. |
| BitExamples.BeNibbles | src/KaitaiStream.ts:380-412 | Two 4-bit big-endian reads of 0xB4 return 11, then 4, and end aligned. |
| BitExamples.LeNibbles | src/KaitaiStream.ts:416-445 | Two 4-bit little-endian reads of 0xB4 return 4, then 11, and end aligned. |
| BitExamples.BeCarryLost | src/KaitaiStream.ts:395-400 | After a 7-bit read of 0xFF, a 26-bit big-endian read of four zero bytes returns 0, where the stream's next 26 bits are 0x2000000. |
| BitExamples.LeCarryLost | src/KaitaiStream.ts:429-433 | After a 7-bit read of 0x00, a 26-bit little-endian read of four 0xFF bytes keeps 63 as its 7 pending bits where the stream holds 127, and the next 7-bit read returns 63. |
| BitExamples.FullWidthSign | src/KaitaiStream.ts:402-444 | A 32-bit read of FF FF FF FF returns -1 in both bit orders, where the intended reads return 4294967295. |
| BitExamples.LeStaleBits | src/KaitaiStream.ts:439-442 | After a 32-bit little-endian read of 01 00 00 00, bit 1 stays pending with `bitsLeft` 0. The next 8-bit read of a zero byte returns 1. |
| ByteView.ReadTermSpec | src/KaitaiStream.ts:455-485 | A found terminator at offset i gives the `bytesTerminate` prefix, and the cursor moves i bytes, one more with `include` and one more with `consume`. A missing one fails with the cursor unmoved under `eosError`, and otherwise returns everything and leaves the cursor at `size`. The cursor reaches `size + 1` exactly when both flags are set and the terminator is the last byte. |
| ByteView.ReadTermByTake | src/KaitaiStream.ts:455-485 | `readBytesTerm` is the `mapUint8Array` of i bytes (i + 1 with `include`) after the scan, plus the `consume` step, unless the terminator is missing and `eosError` is set. |
| ByteView.ReadTermExample | src/KaitaiStream.ts:455-485 | On 41 42 00 43, with `include` off and `consume` on, the result is 41 42 and the cursor ends at 3. |
| ByteView.ReadTermOverrun | src/KaitaiStream.ts:475-482 | With both flags set, on 41 00 the cursor ends at 3, past the two-byte view; on 41 00 42 it skips the byte after the terminator. |
| ByteView.ReadTermIntendedSpec | src/KaitaiStream.ts:475-482 | The corrected scan returns the same bytes, never moves the cursor past the view and steps over the terminator once. It differs from the code exactly when both flags are set and a terminator is found. |
| Streams.KaitaiStream.ScanFor | src/KaitaiStream.ts:461-463 | The scan stops at the first terminator in the unread bytes, or at their end. |
| Streams.KaitaiStream.TakeScanned | src/KaitaiStream.ts:464-484 | After the scan: a missing terminator throws under `eosError` with the cursor unmoved, and otherwise maps all the remaining bytes. A found one maps i bytes (i + 1 with `include`) and then adds 1 to the cursor with `consume`. |
| Streams.KaitaiStream.ReadBytesTerm | src/KaitaiStream.ts:455-485 | `readBytesTerm` yields exactly the result and cursor of `ByteView.ReadTerm` on the old view and cursor. |
| ByteView.FixedContentsSpec | src/KaitaiStream.ts:487-499 | `ensureFixedContents` passes exactly when the next bytes equal `expected`, and returns them. A short view fails with EOF and the cursor unmoved. A mismatch fails with both byte strings after the cursor has moved. |
| Streams.KaitaiStream.EnsureFixedContents | src/KaitaiStream.ts:487-499 | `ensureFixedContents` yields exactly the result and cursor of `ByteView.FixedContents`. |
| ByteHelpers.BytesStripRight | src/KaitaiStream.ts:33-37 | The scan-down loop returns `StripRight(data, pad)`. |
| ByteHelpers.StripRightSpec | src/KaitaiStream.ts:33-37 | The stripped result is a prefix of data, everything after it is the pad byte, and it does not end in the pad byte. |
| ByteHelpers.StripRightUnique | src/KaitaiStream.ts:33-37 | Any prefix with those three properties is the stripped result. |
| ByteHelpers.StripRightIdempotent | src/KaitaiStream.ts:33-37 | Stripping twice is stripping once. |
| ByteHelpers.StripRightExample | src/KaitaiStream.ts:33-37 | Stripping 0 from 1 2 3 0 0 gives 1 2 3. |
| ByteHelpers.FirstIndex | src/KaitaiStream.ts:39-45 | The index found is the first occurrence of the terminator, or the length when it is absent. |
| ByteHelpers.FirstIndexUnique | src/KaitaiStream.ts:39-45 | Any index before which the terminator is absent and at which it occurs (or that is the length) is that index. |
| ByteHelpers.BytesTerminate | src/KaitaiStream.ts:39-45 | The scan-up loop returns `Terminate(data, term, include)`. |
| ByteHelpers.TerminateSpec | src/KaitaiStream.ts:39-45 | The result is a prefix of data: all of it when the terminator is absent. Otherwise it is the bytes before the first terminator, plus that terminator with `include`. |
| ByteHelpers.ProcessXorOne | src/KaitaiStream.ts:84-89 | `processXorOne` returns a fresh array of data's length with `r[i] = data[i] ^ key`. |
| ByteHelpers.XorOneInvolution | src/KaitaiStream.ts:84-89 | Xor-ing twice with the same key byte gives the data back. |
| ByteHelpers.ProcessXorMany | src/KaitaiStream.ts:91-102 | `processXorMany` returns a fresh array of data's length with `r[i] = data[i] ^ key[i mod key.length]`, the wrapping key index being i modulo the key length. |
| ByteHelpers.KeyIndexStep | src/KaitaiStream.ts:97-100 | Incrementing the key index and resetting it at the key length keeps it equal to i modulo the key length. |
| ByteHelpers.XorManyInvolution | src/KaitaiStream.ts:91-102 | Xor-ing twice with the same key gives the data back, for every key. |
| ByteHelpers.XorManyDegenerate | src/KaitaiStream.ts:91-102 | A one-byte key acts as `processXorOne`; an empty key copies the data. |
| ByteHelpers.ProcessRotateLeft | src/KaitaiStream.ts:104-120 | `processRotateLeft` fails with UnsupportedGroup exactly when the group size is not 1. Otherwise it returns a fresh array with each byte put through `((b << amount) & 0xff) \| (b >> antiAmount)`. |
| ByteHelpers.RotateByteRotates | src/KaitaiStream.ts:113-117 | For amounts 0 to 7 that formula is rotation left within the byte. |
| ByteHelpers.RotateByteInverse | src/KaitaiStream.ts:113-117 | Rotating by an amount from 0 to 7 and then by (8 - amount) mod 8 gives the byte back. |
| ByteHelpers.RotateAllInverse | src/KaitaiStream.ts:104-120 | The same for a whole array. |
| ByteHelpers.RotateExample | src/KaitaiStream.ts:104-120 | 0b00000011 rotated left by 3 is 0b00011000. |
| ByteHelpers.Mod | src/KaitaiStream.ts:140-145 | `mod(a, b)` fails for b <= 0. Otherwise it returns r with 0 <= r < b and a congruent to r modulo b. |
| ByteHelpers.TruncRemSpec | src/KaitaiStream.ts:142 | JavaScript's `%` has the sign of the dividend, lies strictly between -b and b, and is congruent to the dividend. |
| ByteHelpers.ModIsEuclidean | src/KaitaiStream.ts:140-145 | For b > 0, `mod` is the Euclidean remainder. |
| ByteHelpers.ArrayMin | src/KaitaiStream.ts:147-155 | `arrayMin` returns an element of the array that is at most every element, or nothing (`undefined`) exactly for the empty array. |
| ByteHelpers.ArrayMax | src/KaitaiStream.ts:157-165 | `arrayMax` returns an element of the array that is at least every element, or nothing exactly for the empty array. |
| ByteHelpers.ByteArrayCompare | src/KaitaiStream.ts:167-183 | The loop returns the lexicographic comparison `Compare(a, b)`. |
| ByteHelpers.CompareZeroIffEqual | src/KaitaiStream.ts:167-183 | The comparison is 0 exactly for equal arrays. |
| ByteHelpers.CompareAntisymmetric | src/KaitaiStream.ts:167-183 | Swapping the arrays negates the comparison. |
| ByteHelpers.CompareAfterPrefix | src/KaitaiStream.ts:172-175 | A common prefix does not change the comparison. |
| ByteHelpers.CompareSign | src/KaitaiStream.ts:167-183 | After a common prefix, the comparison is the difference of the first differing bytes, or the difference of the lengths when one array is a prefix of the other. |
| ByteHelpers.CreateStringFromArray | src/KaitaiStream.ts:185-204 | Converting in chunks of 0x8000 and joining the pieces gives one character per byte, whose code is the byte. |
| ByteHelpers.CharsConcat | src/KaitaiStream.ts:185-204 | Converting two byte runs and joining the results is converting their concatenation, which is why the chunking does not change the string. |

## Left out

- The float reads `readF4be`, `readF8be`, `readF4le` and `readF8le` (src/KaitaiStream.ts:349-373) are not modelled: IEEE-754 decoding is floating point.
- `bytesToStr` (src/KaitaiStream.ts:47-82) is not modelled, because it calls TextDecoder, Node's `Buffer` and iconv-lite, which are foreign code. Its ASCII path, `createStringFromArray`, is modelled.
- `processZlib` (src/KaitaiStream.ts:122-138) is not modelled: it wraps zlib's `inflateSync`.
- The static `endianness` probe (src/KaitaiStream.ts:31) is not modelled: it inspects the host platform.
- The constructor's DataView branch and the `byteOffset` and `dataView` setters (src/KaitaiStream.ts:17-21, 216-233) are not modelled. They are DataView bookkeeping; the branch also adds the offset twice without rebuilding the view. The ArrayBuffer(+offset) and length constructors are modelled.
- The validation error classes (src/KaitaiStream.ts:542-609) are left out: nothing in this file raises them. `EOFError` and `UnexpectedDataError` appear as the `EOF` and `UnexpectedData` variants.
- The `readBitsInt` alias (src/KaitaiStream.ts:414) is the same function as `readBitsIntBe`.
- Returned `Uint8Array`s alias the buffer. The model returns copied sequences instead; nothing in the runtime writes through those views, so the bytes are the same.
- Numbers are modelled as integers:
  - Lengths, positions and offsets are `int`/`nat`.
  - `seek` takes an integer or one of ±Infinity and NaN.
  - Non-integer lengths and positions, and strings passed where the helpers also accept a string, are not modelled.
- Helper inputs are not fully general:
  - `arrayMin`/`arrayMax` are modelled on arrays of integers.
  - The rotate amount is any integer, with JavaScript's shift-count reduction modulo 32.
  - The `processXorOne` key is a byte (`bv8`), though the code accepts any number. Storing `data[i] ^ key` into a `Uint8Array` keeps only the low 8 bits, so XOR with an integer key equals XOR with its low byte, and no behaviour is lost.
- Bit counts are modelled as naturals: `readBitsIntBe`, `readBitsIntLe`, `BitReader.BeRead` and `BitReader.LeRead` take `n: nat`. A negative `n` is not rejected by the code: it reaches `(1 << n) - 1` with the count reduced modulo 32, and `bitsLeft -= n` grows the pending count. That path is not modelled.
- `byteArrayCompare`'s identity shortcut `a === b` is not modelled separately. Identical arrays are equal, and for them the loop also returns 0.
- Streams.KaitaiStream.ReadBytesTerm: when the cursor is already at `size + 1` (which only an earlier `readBytesTerm` can cause), the contract states only that the call fails and leaves the cursor. It does not state which error (RangeError or EOF).
- BitReader.BeReadValue: states the value only when the pending and pulled bits fit in 32. Outside that, the code's value can be wrong (see "## Findings").
- BitReader.LeReadAdvances: states the bits left behind only when they fit in 32. Outside that, the code can keep wrong bits (see "## Findings").
- BitReader.LeReadAgrees: states agreement on the accumulator only when the bits fit in 32 and n < 32. Outside that, the code's accumulator can differ (see "## Findings").
- The stream class follows the code as written, defects included. The corrected bit readers and terminator scan are separate reference functions proved against it; they are not a second stream class.

## Findings

| source | as written | input that shows it | evidently intended | confidence | as-written member | corrected member |
|---|---|---|---|---|---|---|
| src/KaitaiStream.ts:395-400 | `bits <<= 8` in the big-endian pull shifts pending bits past bit 31 when `bitsLeft + 8 * bytesNeeded > 32` | Stream FF 00 00 00 00: `readBitsIntBe(7)` then `readBitsIntBe(26)` returns 0 | the next 26 bits of the stream, 0x2000000 | not executed; high | BitExamples.BeCarryLost | BitReader.BeReadIdealNextBits |
| src/KaitaiStream.ts:429-433 | `buf[i] << bitsLeft` in the little-endian pull drops the byte's top bits when they would land at bit 32 or above | Stream 00 FF FF FF FF: `readBitsIntLe(7)`, `readBitsIntLe(26)`, then `readBitsIntLe(7)` returns 63 | 127, the stream's last 7 bits | not executed; high | BitExamples.LeCarryLost | BitReader.LeReadIdealNextBits |
| src/KaitaiStream.ts:405 | `& 0xffffffff` for n = 32 yields a signed 32-bit value; line 439 does the same in the little-endian reader | Bytes FF FF FF FF: `readBitsIntBe(32)` and `readBitsIntLe(32)` return -1 | 4294967295, the unsigned value of the 32 bits | not executed; medium | BitExamples.FullWidthSign | BitReader.BeReadIdealNextBits |
| src/KaitaiStream.ts:441-442 | `bits >>>= n` for n = 32 is a shift by 0, so the bits read stay in `bits` while `bitsLeft` drops to 0 | Stream 01 00 00 00 00: `readBitsIntLe(32)` then `readBitsIntLe(8)` returns 1 | 0, the fifth byte | not executed; high | BitExamples.LeStaleBits | BitReader.LeReadIdealNextBits |
| src/KaitaiStream.ts:475-482 | with `include` and `consume` both set, the cursor moves past the terminator once for each flag | Stream 41 00 42: `readBytesTerm(0, true, true, false)` leaves the cursor at 3, skipping 42; on 41 00 it leaves it at 3, past the end | the cursor just past the terminator, at 2. The corrected read keeps the code's own `include` step: with `include` set and `consume` off it still moves past the terminator, as `mapUint8Array(i + 1)` does. Kaitai's usual meaning, where `consume` off leaves the terminator unread, is not what this code does. | not executed; medium | ByteView.ReadTermOverrun | ByteView.ReadTermIntendedSpec |
