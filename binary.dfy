/** BinaryReader: typed little-endian reads, raw byte reads and absolute
    positioning over an owned byte source.  Every typed read issues exactly
    one underlying read into a zero-initialised array of its width, so at the
    end of the source (or after any short read) the bytes it did not receive
    stay zero: they are always the high-order ones. */
module Binary {
  import opened LittleEndian
  import opened ByteStream

  /** 2^63: the offsets below it survive the `as i64` casts of set_position. */
  const I64_LIMIT: nat := 0x8000_0000_0000_0000

  /** `x as i64` for a 64-bit unsigned offset x (usize or u64): keep the low
      64 bits and read them as two's complement. */
  function AsI64(x: nat): int
  {
    assert Pow256(8) == 0x1_0000_0000_0000_0000;
    FromUnsigned(ToUnsigned(x, 8), 8)
  }

  /** The casts are the identity on offsets below 2^63. */
  lemma AsI64Small(x: nat)
    requires x < I64_LIMIT
    ensures AsI64(x) == x
  {
    assert Pow256(8) == 0x1_0000_0000_0000_0000;
    ModOfSmall(x, Pow256(8));
  }

  /** set_position's delta `position as i64 - curr_pos as i64` fits an i64 and
      a relative seek by it from curr_pos lands on position. */
  lemma RelativeSeekLands(position: nat, current: nat)
    requires position < I64_LIMIT && current < I64_LIMIT
    ensures -(I64_LIMIT as int) <= AsI64(position) - AsI64(current) < I64_LIMIT
    ensures current + (AsI64(position) - AsI64(current)) == position
  {
    AsI64Small(position);
    AsI64Small(current);
  }

  /** Min(a, b), the count read_to_buf reaches. */
  function Min(a: nat, b: nat): (m: nat)
    ensures m <= a && m <= b && (m == a || m == b)
  {
    if a <= b then a else b
  }

  class BinaryReader {
    /** The owned, buffered byte source; the reader's cursor is its cursor. */
    const source: ByteSource

    /** `new`: takes the source over; no I/O, the cursor stays where it was. */
    constructor (source: ByteSource)
      ensures this.source == source
    {
      this.source := source;
    }

    /** The shared first step of every typed read: one underlying read into a
        w-byte array that starts as all zeros.  The result holds the bytes
        delivered, then zeros. */
    method ReadPadded(w: nat) returns (bytes: seq<byte>)
      modifies source
      ensures old(source.pos) <= source.pos
      ensures PartialRead(|old(source.Available())|, w, source.pos - old(source.pos))
      ensures bytes == ZeroPad(old(source.Available())[..source.pos - old(source.pos)], w)
    {
      var buf := new byte[w](_ => 0);
      var k := source.Read(buf, 0);
      bytes := buf[..];
      assert bytes[..k] == buf[0..k];
      assert bytes == bytes[..k] + buf[k..];
    }

    /** `read_u8`: the next byte, or 0 with the cursor unmoved at the end. */
    method ReadU8() returns (r: byte)
      modifies source
      ensures old(source.pos) < |source.data| ==> r == source.data[old(source.pos)] && source.pos == old(source.pos) + 1
      ensures old(source.pos) >= |source.data| ==> r == 0 && source.pos == old(source.pos)
    {
      var bytes := ReadPadded(1);
      SingleByteRead(|old(source.Available())|, source.pos - old(source.pos));
      r := bytes[0];
    }

    /** `read_i8`: the next byte reinterpreted as two's complement, or 0 at
        the end. */
    method ReadI8() returns (r: int)
      modifies source
      ensures old(source.pos) < |source.data| ==> r == DecodeI8(source.data[old(source.pos)]) && source.pos == old(source.pos) + 1
      ensures old(source.pos) >= |source.data| ==> r == 0 && source.pos == old(source.pos)
      ensures -0x80 <= r < 0x80
    {
      var bytes := ReadPadded(1);
      SingleByteRead(|old(source.Available())|, source.pos - old(source.pos));
      r := DecodeI8(bytes[0]);
    }

    /** `read_u16`: b[0] + 256·b[1] over the delivered bytes b, zero-extended. */
    method ReadU16() returns (r: bv16)
      modifies source
      ensures old(source.pos) <= source.pos
      ensures PartialRead(|old(source.Available())|, 2, source.pos - old(source.pos))
      ensures r as int == LeValue(old(source.Available())[..source.pos - old(source.pos)])
    {
      var bytes := ReadPadded(2);
      r := DecodeU16(bytes);
      DecodeU16Value(bytes);
      LeValueZeroPad(old(source.Available())[..source.pos - old(source.pos)], 2);
    }

    /** `read_i16`: the two's-complement reading of the same value. */
    method ReadI16() returns (r: int)
      modifies source
      ensures old(source.pos) <= source.pos
      ensures PartialRead(|old(source.Available())|, 2, source.pos - old(source.pos))
      ensures -0x8000 <= r < 0x8000
      ensures r % 0x1_0000 == LeValue(old(source.Available())[..source.pos - old(source.pos)])
    {
      var bytes := ReadPadded(2);
      r := DecodeI16(bytes);
      LeValueZeroPad(old(source.Available())[..source.pos - old(source.pos)], 2);
    }

    /** `read_u32`: Σ b[i]·256^i over the delivered bytes b, zero-extended. */
    method ReadU32() returns (r: bv32)
      modifies source
      ensures old(source.pos) <= source.pos
      ensures PartialRead(|old(source.Available())|, 4, source.pos - old(source.pos))
      ensures r as int == LeValue(old(source.Available())[..source.pos - old(source.pos)])
    {
      var bytes := ReadPadded(4);
      r := DecodeU32(bytes);
      DecodeU32Value(bytes);
      LeValueZeroPad(old(source.Available())[..source.pos - old(source.pos)], 4);
    }

    /** `read_i32`: the two's-complement reading of the same value. */
    method ReadI32() returns (r: int)
      modifies source
      ensures old(source.pos) <= source.pos
      ensures PartialRead(|old(source.Available())|, 4, source.pos - old(source.pos))
      ensures -0x8000_0000 <= r < 0x8000_0000
      ensures r % 0x1_0000_0000 == LeValue(old(source.Available())[..source.pos - old(source.pos)])
    {
      var bytes := ReadPadded(4);
      r := DecodeI32(bytes);
      LeValueZeroPad(old(source.Available())[..source.pos - old(source.pos)], 4);
    }

    /** `read_u64`: Σ b[i]·256^i over the delivered bytes b, zero-extended. */
    method ReadU64() returns (r: bv64)
      modifies source
      ensures old(source.pos) <= source.pos
      ensures PartialRead(|old(source.Available())|, 8, source.pos - old(source.pos))
      ensures r as int == LeValue(old(source.Available())[..source.pos - old(source.pos)])
    {
      var bytes := ReadPadded(8);
      r := DecodeU64(bytes);
      DecodeU64Value(bytes);
      LeValueZeroPad(old(source.Available())[..source.pos - old(source.pos)], 8);
    }

    /** `read_i64`: the two's-complement reading of the same value. */
    method ReadI64() returns (r: int)
      modifies source
      ensures old(source.pos) <= source.pos
      ensures PartialRead(|old(source.Available())|, 8, source.pos - old(source.pos))
      ensures -0x8000_0000_0000_0000 <= r < 0x8000_0000_0000_0000
      ensures r % 0x1_0000_0000_0000_0000 == LeValue(old(source.Available())[..source.pos - old(source.pos)])
    {
      var bytes := ReadPadded(8);
      r := DecodeI64(bytes);
      LeValueZeroPad(old(source.Available())[..source.pos - old(source.pos)], 8);
    }

    /** `read_f32`, as the raw binary32 bit pattern: read_i32, then the same
        32 bits.  They are the delivered bytes read as an unsigned value. */
    method ReadF32() returns (bits: bv32)
      modifies source
      ensures old(source.pos) <= source.pos
      ensures PartialRead(|old(source.Available())|, 4, source.pos - old(source.pos))
      ensures bits as int == LeValue(old(source.Available())[..source.pos - old(source.pos)])
    {
      var i := ReadI32();
      bits := Bits32(i);
      assert Pow256(4) == 0x1_0000_0000;
      ModOfSmall(LeValue(old(source.Available())[..source.pos - old(source.pos)]), Pow256(4));
    }

    /** `read_f64`, as the raw binary64 bit pattern: read_i64, then the same
        64 bits. */
    method ReadF64() returns (bits: bv64)
      modifies source
      ensures old(source.pos) <= source.pos
      ensures PartialRead(|old(source.Available())|, 8, source.pos - old(source.pos))
      ensures bits as int == LeValue(old(source.Available())[..source.pos - old(source.pos)])
    {
      var i := ReadI64();
      bits := Bits64(i);
      assert Pow256(8) == 0x1_0000_0000_0000_0000;
      ModOfSmall(LeValue(old(source.Available())[..source.pos - old(source.pos)]), Pow256(8));
    }

    /** `read_to_buf`: repeats underlying reads into the unfilled rest of buf
        until it is full or a read returns nothing.  The count c is the
        smaller of the buffer length and the bytes left, so c falls short of
        the length only at the end of the source; buf[..c] holds the source
        bytes from the old cursor and buf[c..] is untouched. */
    method ReadToBuf(buf: array<byte>) returns (c: nat)
      modifies source, buf
      ensures c == Min(buf.Length, |old(source.Available())|)
      ensures c < buf.Length ==> old(source.pos) + c >= |source.data|
      ensures buf[..c] == old(source.Available())[..c]
      ensures buf[c..] == old(buf[c..])
      ensures source.pos == old(source.pos) + c
    {
      ghost var avail := source.Available();
      var total := 0;
      while true
        invariant total <= buf.Length && total <= |avail|
        invariant source.pos == old(source.pos) + total
        invariant source.Available() == avail[total..]
        invariant buf[..total] == avail[..total]
        invariant buf[total..] == old(buf[total..])
        decreases buf.Length - total
      {
        var amount := source.Read(buf, total);
        assert buf[total..total + amount] == avail[total..total + amount];
        assert buf[..total + amount] == buf[..total] + buf[total..total + amount];
        total := total + amount;
        if total >= buf.Length || amount == 0 {
          return total;
        }
      }
    }

    /** `read_bytes`: a sequence of exactly n bytes filled by read_to_buf.
        Where the source ran out, its tail is whatever the fresh allocation
        held, and nothing is promised about it. */
    method ReadBytes(n: nat) returns (v: seq<byte>)
      modifies source
      ensures |v| == n
      ensures v[..Min(n, |old(source.Available())|)] == old(source.Available())[..Min(n, |old(source.Available())|)]
      ensures source.pos == old(source.pos) + Min(n, |old(source.Available())|)
    {
      var buf := new byte[n];
      var count := ReadToBuf(buf);
      v := buf[..];
    }

    /** The typed reads as evidently intended: fill the zero-initialised
        w-byte array the way read_to_buf does, so that it comes back short,
        and the value zero-padded, only at the end of the source. */
    method ReadPaddedFull(w: nat) returns (bytes: seq<byte>)
      modifies source
      ensures source.pos == old(source.pos) + Min(w, |old(source.Available())|)
      ensures bytes == ZeroPad(old(source.Available())[..Min(w, |old(source.Available())|)], w)
    {
      var buf := new byte[w](_ => 0);
      var c := ReadToBuf(buf);
      bytes := buf[..];
      assert bytes == bytes[..c] + buf[c..];
    }

    /** read_u16 as evidently intended: two bytes whenever two are left. */
    method ReadU16Full() returns (r: bv16)
      modifies source
      ensures source.pos == old(source.pos) + Min(2, |old(source.Available())|)
      ensures |old(source.Available())| >= 2 ==> r as int == LeValue(old(source.Available())[..2])
      ensures |old(source.Available())| < 2 ==> r as int == LeValue(old(source.Available()))
    {
      ghost var avail := source.Available();
      var bytes := ReadPaddedFull(2);
      r := DecodeU16(bytes);
      DecodeU16Value(bytes);
      LeValueZeroPad(avail[..Min(2, |avail|)], 2);
      assert |avail| < 2 ==> avail[..Min(2, |avail|)] == avail;
    }

    /** `position`: the absolute offset of the cursor. */
    method Position() returns (p: nat)
      ensures p == source.pos
    {
      p := source.StreamPosition();
    }

    /** `set_position`: a relative seek by the distance from the current
        cursor to the target.  Only the cursor changes. */
    method SetPosition(position: nat)
      requires position < I64_LIMIT && source.pos < I64_LIMIT
      modifies source
      ensures source.pos == position
    {
      var current := source.StreamPosition();
      RelativeSeekLands(position, current);
      var ok := source.SeekCurrent(AsI64(position) - AsI64(current));
      assert ok;
    }
  }

  /** The single underlying read of a typed read may be short in the middle
      of the source (a buffered reader hands out what is left in its buffer):
      with the two bytes [0x01, 0x02] ahead, delivering one of them is a legal
      read, and read_u16 then yields 0x0001 and moves the cursor by one, where
      the filling read yields 0x0201. */
  lemma ShortReadMidStream()
    ensures PartialRead(2, 2, 1)
    ensures LeValue([0x01, 0x02][..1]) == 0x0001
    ensures LeValue([0x01, 0x02]) == 0x0201
  {
  }

  /** set_position(p) followed by position() gives p back, and a following
      read starts at offset p. */
  method SetThenPosition(reader: BinaryReader, p: nat) returns (q: nat, next: byte)
    requires p < I64_LIMIT && reader.source.pos < I64_LIMIT
    modifies reader.source
    ensures q == p
    ensures p < |reader.source.data| ==> next == reader.source.data[p]
  {
    reader.SetPosition(p);
    q := reader.Position();
    next := reader.ReadU8();
  }
}
