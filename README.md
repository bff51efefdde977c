# BinaryReader, modelled in Dafny

A model of `BinaryReader` from `src/binary.rs`: a cursor over a seekable byte
source that decodes fixed-width little-endian integers (u8/i8 to u64/i64),
hands out the raw bit patterns of f32/f64 values, copies raw byte ranges
(`read_to_buf`, `read_bytes`) and moves the cursor to an absolute offset
(`position`, `set_position`).

Three modules:

- `LittleEndian` (`little_endian.dfy`), pure. The reader's shift-and-OR
  expressions, written on bit-vectors as the code spells them, are
  `DecodeU16`, `DecodeU32` and `DecodeU64`. The signed decoders read the same
  bits as two's complement. They are tied to an independent reference value,
  `LeValue(b) = Σ b[i]·256^i`. The module also holds a companion
  little-endian writer, `EncodeLe`, with round trips in both directions.
- `ByteStream` (`byte_stream.dfy`). The owned byte source is modelled as an
  in-memory byte string with a cursor. It stands in for the buffered wrapper
  over any `Read + Seek` stream. Its `Read` may deliver any number of bytes
  allowed by `PartialRead`: at most the count asked for, at most what is
  left, and none only when nothing was asked for or nothing is left. Which
  count it delivers is chosen nondeterministically.
- `Binary` (`binary.dfy`). The class `BinaryReader` owns a `ByteSource`, and
  each reader operation is a method that moves that source's cursor.

Behaviour kept from the code:

- Each typed read does exactly one underlying read into a zero-initialised
  array of its width. The cursor advances by what that read delivered, at
  most the width. Bytes not delivered stay 0, and they are the high-order
  ones.
- `read_u8`/`read_i8` therefore return 0 at the end of the source. A typed
  read is sometimes described as advancing by exactly its width, but the
  code advances by the delivered count, and the model follows the code.
- The tail of `read_bytes` past the available bytes is left unspecified,
  because the code hands out uninitialised memory there.

## Model

| member | source | states |
|---|---|---|
| `LittleEndian.LeValue` | src/binary.rs:32 | the positional value Σ b[i]·256^i of a byte string, always below 256^(length) |
| `LittleEndian.DecodeU16Value` | src/binary.rs:32 | read_u16's shift-and-OR expression equals b[0] + 256·b[1] |
| `LittleEndian.DecodeU32Value` | src/binary.rs:46 | the 4-byte shift-and-OR expression equals Σ b[i]·256^i |
| `LittleEndian.DecodeU64Value` | src/binary.rs:60 | the 8-byte shift-and-OR expression equals Σ b[i]·256^i (no byte is shifted out or overlaps another) |
| `LittleEndian.DecodeI8` | src/binary.rs:22-26 | transmuting a byte to i8 gives the value in [-128, 128) that is congruent to the byte mod 256 |
| `LittleEndian.DecodeI16` | src/binary.rs:35-40 | the result lies in the i16 range and is congruent mod 2^16 to the little-endian value of the bytes |
| `LittleEndian.DecodeI32` | src/binary.rs:49-54 | the result lies in the i32 range and is congruent mod 2^32 to the little-endian value of the bytes |
| `LittleEndian.DecodeI64` | src/binary.rs:63-68 | the result lies in the i64 range and is congruent mod 2^64 to the little-endian value of the bytes |
| `LittleEndian.FromUnsigned` | src/binary.rs:39 | reading a w-byte bit pattern as signed gives a value in the signed range that is congruent to the pattern |
| `LittleEndian.SignedRoundTrip` | src/binary.rs:39 | taking the bit pattern of a signed-range value and reading it as signed again returns the value |
| `LittleEndian.UnsignedRoundTrip` | src/binary.rs:39 | reading a bit pattern as signed and taking its bit pattern again returns the pattern |
| `LittleEndian.FromUnsignedUnique` | src/binary.rs:39 | the signed reading is the only signed-range value with that bit pattern |
| `LittleEndian.LeValueZeroPad` | src/binary.rs:29-32 | zero high-order bytes do not change the value, so a short read decodes to the value of the delivered prefix, which is below 256^(delivered count) |
| `LittleEndian.DecodeEncode` | src/binary.rs:28-68 | decoding what the little-endian writer wrote gives the value back |
| `LittleEndian.EncodeDecode` | src/binary.rs:28-68 | writing a decoded value gives the same bytes back, so decoding is a bijection between w-byte strings and [0, 256^w) |
| `LittleEndian.RoundTripU16` | src/binary.rs:28-33 | read_u16's expression inverts the writer for every u16 |
| `LittleEndian.RoundTripU32` | src/binary.rs:42-47 | read_u32's expression inverts the writer for every u32 |
| `LittleEndian.RoundTripU64` | src/binary.rs:56-61 | read_u64's expression inverts the writer for every u64 |
| `LittleEndian.RoundTripI16` | src/binary.rs:35-40 | every i16, written as its two's-complement pattern, reads back unchanged |
| `LittleEndian.RoundTripI32` | src/binary.rs:49-54 | every i32, written as its two's-complement pattern, reads back unchanged |
| `LittleEndian.RoundTripI64` | src/binary.rs:63-68 | every i64, written as its two's-complement pattern, reads back unchanged |
| `LittleEndian.Bits32` | src/binary.rs:73 | transmuting an i32 keeps its 32-bit pattern, which is its residue mod 2^32 |
| `LittleEndian.Bits64` | src/binary.rs:79 | transmuting an i64 keeps its 64-bit pattern, which is its residue mod 2^64 |
| `LittleEndian.U16Example` | src/binary.rs:32 | bytes [0x01, 0x02] decode to 0x0201 |
| `LittleEndian.I32AllOnes` | src/binary.rs:53 | bytes [0xFF, 0xFF, 0xFF, 0xFF] decode to -1 as i32 |
| `ByteStream.SingleByteRead` | src/binary.rs:18 | a one-byte read delivers exactly one byte unless the source is exhausted |
| `ByteStream.ZeroReadMeansEnd` | src/binary.rs:90 | a read that asked for bytes and got none means the source is exhausted |
| `ByteStream.ByteSource.Read` | src/binary.rs:86 | the underlying read copies the next delivered bytes into the front of the buffer slice, leaves the rest of the buffer alone, and advances the cursor by the count |
| `ByteStream.ByteSource.StreamPosition` | src/binary.rs:105 | reports the cursor |
| `ByteStream.ByteSource.SeekCurrent` | src/binary.rs:112 | a relative seek to a non-negative target moves the cursor there, also past the end; a negative target fails and leaves the cursor alone |
| `Binary.AsI64Small` | src/binary.rs:112 | `as i64` is the identity on offsets below 2^63 |
| `Binary.RelativeSeekLands` | src/binary.rs:110-115 | the delta `position as i64 - curr_pos as i64` fits an i64 and lands on `position` from `curr_pos` |
| `Binary.BinaryReader.constructor` | src/binary.rs:8-14 | takes the source over without moving its cursor |
| `Binary.BinaryReader.ReadPadded` | src/binary.rs:29-30 | one underlying read into a zeroed array: the array holds the delivered bytes and then zeros, and the cursor moves by the delivered count |
| `Binary.BinaryReader.ReadU8` | src/binary.rs:16-20 | returns the byte at the cursor and advances by one, or returns 0 and stays put at the end of the source |
| `Binary.BinaryReader.ReadI8` | src/binary.rs:22-26 | the same byte read as two's complement, in [-128, 128); 0 at the end |
| `Binary.BinaryReader.ReadU16` | src/binary.rs:28-33 | the value is the little-endian value of the 0 to 2 bytes delivered; the cursor advances by that count |
| `Binary.BinaryReader.ReadI16` | src/binary.rs:35-40 | an i16-range value congruent to the delivered bytes' little-endian value; the cursor advances by the delivered count |
| `Binary.BinaryReader.ReadU32` | src/binary.rs:42-47 | the little-endian value of the 0 to 4 bytes delivered; the cursor advances by that count |
| `Binary.BinaryReader.ReadI32` | src/binary.rs:49-54 | an i32-range value congruent to the delivered bytes' value; the cursor advances by the delivered count |
| `Binary.BinaryReader.ReadU64` | src/binary.rs:56-61 | the little-endian value of the 0 to 8 bytes delivered; the cursor advances by that count |
| `Binary.BinaryReader.ReadI64` | src/binary.rs:63-68 | an i64-range value congruent to the delivered bytes' value; the cursor advances by the delivered count |
| `Binary.BinaryReader.ReadF32` | src/binary.rs:70-74 | consumes bytes as read_i32 does, and the 32-bit pattern is the delivered bytes' little-endian value |
| `Binary.BinaryReader.ReadF64` | src/binary.rs:76-80 | consumes bytes as read_i64 does, and the 64-bit pattern is the delivered bytes' little-endian value |
| `Binary.BinaryReader.ReadToBuf` | src/binary.rs:82-94 | terminates; the count is min(buffer length, bytes left), so it is short only at the end of the source; buf[..c] holds the source bytes from the old cursor; buf[c..] is untouched; the cursor advances by c |
| `Binary.BinaryReader.ReadBytes` | src/binary.rs:96-102 | returns exactly n bytes, the first min(n, bytes left) of them taken from the source, and advances the cursor by that count; nothing is said about the tail |
| `Binary.BinaryReader.Position` | src/binary.rs:104-108 | returns the cursor |
| `Binary.BinaryReader.SetPosition` | src/binary.rs:110-115 | afterwards the cursor is exactly `position`; the source bytes are unchanged |
| `Binary.SetThenPosition` | src/binary.rs:104-115 | set_position(p) then position() returns p, and the next read_u8 returns the byte at p |
| `Binary.ShortReadMidStream` | src/binary.rs:28-33 | with [0x01, 0x02] ahead, a one-byte delivery is a legal read, and it yields 0x0001 where the full value is 0x0201 |
| `Binary.BinaryReader.ReadPaddedFull` | src/binary.rs:82-94 | a typed read's array filled as read_to_buf fills it: the cursor advances by min(width, bytes left), and the array holds those bytes followed by zeros |
| `Binary.BinaryReader.ReadU16Full` | src/binary.rs:28-33 | read_u16 as intended: it returns the value of the next two bytes whenever two are left |

## Left out

- I/O errors. The in-memory source never fails, so the `io::Error` results
  and their propagation through `?` are not modelled. Nor is the partial
  cursor movement an error may leave behind.
- The buffering of `BufReader` and the generic `Read + Seek` traits are not
  modelled. They are replaced by `ByteSource` and its nondeterministic
  partial-read contract.
- The floating-point meaning of `read_f32`/`read_f64` is not modelled.
  IEEE 754 binary32/binary64 values are not part of this model; only the
  32/64-bit pattern is.
- Uninitialised memory in `read_bytes` is not modelled. The allocation is an
  array whose contents are unknown to the verifier, so the model promises
  nothing about the tail.
- The commented-out `MemStream` is not modelled, because it is dead code.
- `usize` is taken to be 64 bits wide, so `position as usize` is the
  identity.
- Binary.BinaryReader.SetPosition: requires the target and the current cursor
  to be below 2^63. From there the `as i64` casts would wrap, and the seek
  would fail or the subtraction would overflow. That path is not modelled.
- Binary.SetThenPosition: has the same precondition as SetPosition.

## Findings

| source | as written | input that shows it | evidently intended | confidence | as-written member | corrected member |
|---|---|---|---|---|---|---|
| src/binary.rs:28-68 | each typed read issues one `read` and accepts however many bytes it returns; a buffered reader returns only what is left in its buffer, so a value that straddles the buffer boundary comes back short in the middle of the source | [0x01, 0x02] ahead, and the underlying read delivers one byte: read_u16 yields 0x0001 and moves the cursor by 1 | fill the array until it is full or the source ends (as read_to_buf does): 0x0201, cursor +2 | not executed | `Binary.ShortReadMidStream` (about `Binary.BinaryReader.ReadU16`) | `Binary.BinaryReader.ReadU16Full` (via `Binary.BinaryReader.ReadPaddedFull`) |

The other typed reads keep the code's single-read behaviour. `ReadPaddedFull`
is the corrected fill they would share.
