/** The pure half of the binary reader: how a fixed-width little-endian value is
    built from the bytes one underlying read delivered.  The shift-and-OR
    expressions are written on bit-vectors exactly as the reader spells them;
    their meaning is given by an independent reference definition, the
    positional value `LeValue`, and the lemmas below connect the two. */
module LittleEndian {

  type byte = bv8

  /** 256^i: the weight of byte i in a little-endian number. */
  function Pow256(i: nat): (p: nat)
    ensures p > 0
  {
    if i == 0 then 1 else 256 * Pow256(i - 1)
  }

  lemma {:induction false} Pow256Monotone(i: nat, j: nat)
    requires i <= j
    ensures Pow256(i) <= Pow256(j)
    decreases j
  {
    if i < j {
      Pow256Monotone(i, j - 1);
    }
  }

  /** The reference meaning of a little-endian byte string:
      bs[0] + 256 * bs[1] + ... + 256^(|bs|-1) * bs[|bs|-1]. */
  function LeValue(bs: seq<byte>): (v: nat)
    ensures v < Pow256(|bs|)
  {
    if bs == [] then 0 else bs[0] as nat + 256 * LeValue(bs[1..])
  }

  /** A string of n zero bytes: what a zero-initialised array holds where a
      short read wrote nothing. */
  function Zeros(n: nat): (z: seq<byte>)
    ensures |z| == n
    ensures forall i :: 0 <= i < n ==> z[i] == 0
  {
    seq(n, _ => 0)
  }

  /** A w-byte array that started as all zeros after a read delivered `bs`
      into its front. */
  function ZeroPad(bs: seq<byte>, w: nat): (r: seq<byte>)
    requires |bs| <= w
    ensures |r| == w && r[..|bs|] == bs
    ensures forall i :: |bs| <= i < w ==> r[i] == 0
  {
    bs + Zeros(w - |bs|)
  }

  lemma {:induction false} LeValueZeros(n: nat)
    ensures LeValue(Zeros(n)) == 0
  {
    if n > 0 {
      assert Zeros(n)[1..] == Zeros(n - 1);
      LeValueZeros(n - 1);
    }
  }

  /** Zero high-order bytes do not change a little-endian value, so a short
      read decodes to the value of the bytes it did deliver, which is below
      256^(number of delivered bytes). */
  lemma {:induction false} LeValueZeroPad(bs: seq<byte>, w: nat)
    requires |bs| <= w
    ensures LeValue(ZeroPad(bs, w)) == LeValue(bs)
    ensures LeValue(ZeroPad(bs, w)) < Pow256(|bs|)
    decreases |bs|
  {
    if bs == [] {
      assert ZeroPad(bs, w) == Zeros(w);
      LeValueZeros(w);
    } else {
      assert ZeroPad(bs, w)[1..] == ZeroPad(bs[1..], w - 1);
      LeValueZeroPad(bs[1..], w - 1);
    }
  }

  // ---------------------------------------------------------------------
  // The decoders, as the reader writes them.

  /** `bytes[0] as u16 | ((bytes[1] as u16) << 8)` */
  function DecodeU16(b: seq<byte>): bv16
    requires |b| == 2
  {
    b[0] as bv16 | ((b[1] as bv16) << 8)
  }

  /** `bytes[0] as u32 | ((bytes[1] as u32) << 8) | ... | ((bytes[3] as u32) << 24)` */
  function DecodeU32(b: seq<byte>): bv32
    requires |b| == 4
  {
    b[0] as bv32 | ((b[1] as bv32) << 8) | ((b[2] as bv32) << 16) | ((b[3] as bv32) << 24)
  }

  /** `bytes[0] as u64 | ((bytes[1] as u64) << 8) | ... | ((bytes[7] as u64) << 56)` */
  function DecodeU64(b: seq<byte>): bv64
    requires |b| == 8
  {
    b[0] as bv64 | ((b[1] as bv64) << 8) | ((b[2] as bv64) << 16) | ((b[3] as bv64) << 24)
    | ((b[4] as bv64) << 32) | ((b[5] as bv64) << 40) | ((b[6] as bv64) << 48) | ((b[7] as bv64) << 56)
  }

  // ---------------------------------------------------------------------
  // Two's complement over w bytes.

  /** s lies in the signed range of a w-byte integer: [-256^w / 2, 256^w / 2). */
  predicate InSignedRange(s: int, w: nat)
  {
    -(Pow256(w) as int) <= 2 * s < Pow256(w)
  }

  lemma ModOfSmall(x: int, p: int)
    requires 0 <= x < p
    ensures x % p == x
  {
  }

  lemma ModOfNegative(x: int, p: int)
    requires -p <= x < 0
    ensures x % p == x + p
  {
  }

  /** Reinterprets the bit pattern u of a w-byte value as a signed integer:
      the integer of the signed range that is congruent to u modulo 256^w. */
  function FromUnsigned(u: nat, w: nat): (s: int)
    requires 0 < w && u < Pow256(w)
    ensures InSignedRange(s, w)
    ensures s % Pow256(w) == u
  {
    if 2 * u < Pow256(w) then
      ModOfSmall(u, Pow256(w));
      u
    else
      ModOfNegative(u - Pow256(w), Pow256(w));
      u - Pow256(w)
  }

  /** The w-byte bit pattern of a signed integer: its residue modulo 256^w. */
  function ToUnsigned(s: int, w: nat): (u: nat)
    ensures u < Pow256(w)
  {
    s % Pow256(w)
  }

  /** Two's complement is a bijection between the signed range and the bit
      patterns: from the signed side round trip ... */
  lemma SignedRoundTrip(s: int, w: nat)
    requires 0 < w && InSignedRange(s, w)
    ensures FromUnsigned(ToUnsigned(s, w), w) == s
  {
    if s < 0 {
      ModOfNegative(s, Pow256(w));
    } else {
      ModOfSmall(s, Pow256(w));
    }
  }

  /** ... and from the bit-pattern side. */
  lemma UnsignedRoundTrip(u: nat, w: nat)
    requires 0 < w && u < Pow256(w)
    ensures ToUnsigned(FromUnsigned(u, w), w) == u
  {
  }

  /** The signed reinterpretation is the only signed-range integer with the
      given bit pattern. */
  lemma FromUnsignedUnique(u: nat, w: nat, s: int)
    requires 0 < w && u < Pow256(w)
    requires InSignedRange(s, w) && ToUnsigned(s, w) == u
    ensures s == FromUnsigned(u, w)
  {
    SignedRoundTrip(s, w);
  }

  /** `transmute::<u8, i8>(byte)` */
  function DecodeI8(b: byte): (r: int)
    ensures -0x80 <= r < 0x80
    ensures r % 0x100 == b as int
  {
    assert Pow256(1) == 0x100;
    FromUnsigned(b as nat, 1)
  }

  /** `bytes[0] as i16 | ((bytes[1] as i16) << 8)`: the cast `u8 as i16`
      zero-extends, so the bits are those of DecodeU16, read as signed. */
  function DecodeI16(b: seq<byte>): (r: int)
    requires |b| == 2
    ensures -0x8000 <= r < 0x8000
    ensures r % 0x1_0000 == LeValue(b)
  {
    DecodeU16Value(b);
    assert Pow256(2) == 0x1_0000;
    FromUnsigned(DecodeU16(b) as nat, 2)
  }

  /** `bytes[0] as i32 | ... | ((bytes[3] as i32) << 24)`, bits as DecodeU32. */
  function DecodeI32(b: seq<byte>): (r: int)
    requires |b| == 4
    ensures -0x8000_0000 <= r < 0x8000_0000
    ensures r % 0x1_0000_0000 == LeValue(b)
  {
    DecodeU32Value(b);
    assert Pow256(4) == 0x1_0000_0000;
    FromUnsigned(DecodeU32(b) as nat, 4)
  }

  /** `bytes[0] as i64 | ... | ((bytes[7] as i64) << 56)`, bits as DecodeU64. */
  function DecodeI64(b: seq<byte>): (r: int)
    requires |b| == 8
    ensures -0x8000_0000_0000_0000 <= r < 0x8000_0000_0000_0000
    ensures r % 0x1_0000_0000_0000_0000 == LeValue(b)
  {
    DecodeU64Value(b);
    assert Pow256(8) == 0x1_0000_0000_0000_0000;
    FromUnsigned(DecodeU64(b) as nat, 8)
  }

  // ---------------------------------------------------------------------
  // The shift-and-OR expressions compute the positional value.

  /** One Horner step in 64 bits: put byte b below x. */
  function Nest(b: byte, x: bv64): bv64
  {
    b as bv64 | (x << 8)
  }

  /** The Horner form of a little-endian string of at most 8 bytes. */
  function Horner(b: seq<byte>): bv64
    requires |b| <= 8
  {
    if b == [] then 0 else Nest(b[0], Horner(b[1..]))
  }

  /** Below 2^56, shifting left by 8 and OR-ing in a byte is exact
      arithmetic: nothing is shifted out and the byte lands in zero bits. */
  lemma ShiftOrValue(b: byte, x: bv64)
    requires x as int < 0x100_0000_0000_0000
    ensures (b as bv64 | (x << 8)) as int == b as int + 256 * (x as int)
  {
  }

  lemma NestValue(b: byte, x: bv64)
    requires x as int < 0x100_0000_0000_0000
    ensures Nest(b, x) as int == b as int + 256 * (x as int)
  {
    ShiftOrValue(b, x);
  }

  lemma {:induction false} HornerValue(b: seq<byte>)
    requires |b| <= 8
    ensures Horner(b) as int == LeValue(b)
  {
    if b != [] {
      HornerValue(b[1..]);
      Pow256Monotone(|b| - 1, 7);
      assert Pow256(7) == 0x100_0000_0000_0000;
      NestValue(b[0], Horner(b[1..]));
    }
  }

  // The reader's flat expressions, byte by byte, are the Horner form
  // (pure bit-vector facts, stated on the bytes themselves).

  lemma FlatIsNested16(b0: byte, b1: byte)
    ensures (b0 as bv16 | ((b1 as bv16) << 8)) as bv64 == Nest(b0, Nest(b1, 0))
  {
  }

  lemma FlatIsNested32(b0: byte, b1: byte, b2: byte, b3: byte)
    ensures (b0 as bv32 | ((b1 as bv32) << 8) | ((b2 as bv32) << 16) | ((b3 as bv32) << 24)) as bv64
         == Nest(b0, Nest(b1, Nest(b2, Nest(b3, 0))))
  {
  }

  lemma FlatIsNested64(b0: byte, b1: byte, b2: byte, b3: byte, b4: byte, b5: byte, b6: byte, b7: byte)
    ensures b0 as bv64 | ((b1 as bv64) << 8) | ((b2 as bv64) << 16) | ((b3 as bv64) << 24)
          | ((b4 as bv64) << 32) | ((b5 as bv64) << 40) | ((b6 as bv64) << 48) | ((b7 as bv64) << 56)
         == Nest(b0, Nest(b1, Nest(b2, Nest(b3, Nest(b4, Nest(b5, Nest(b6, Nest(b7, 0))))))))
  {
  }

  lemma Bv16AsInt(x: bv16)
    ensures (x as bv64) as int == x as int
  {
  }

  lemma Bv32AsInt(x: bv32)
    ensures (x as bv64) as int == x as int
  {
  }

  lemma HornerUnfold(b: seq<byte>)
    requires 0 < |b| <= 8
    ensures Horner(b) == Nest(b[0], Horner(b[1..]))
  {
  }

  /** Horner(b) spelled out for a string of at most 8 bytes, innermost last. */
  lemma {:induction false} HornerSuffixes(b: seq<byte>)
    requires |b| <= 8
    ensures |b| == 2 ==> Horner(b) == Nest(b[0], Nest(b[1], 0))
    ensures |b| == 4 ==> Horner(b) == Nest(b[0], Nest(b[1], Nest(b[2], Nest(b[3], 0))))
    ensures |b| == 8 ==>
              Horner(b) == Nest(b[0], Nest(b[1], Nest(b[2], Nest(b[3], Nest(b[4], Nest(b[5], Nest(b[6], Nest(b[7], 0))))))))
  {
    var k := |b|;
    while k > 0
      invariant 0 <= k <= |b|
      invariant forall j :: k <= j < |b| ==> Horner(b[j..]) == Nest(b[j], Horner(b[j + 1..]))
      decreases k
    {
      k := k - 1;
      HornerUnfold(b[k..]);
      assert b[k..][1..] == b[k + 1..];
    }
    assert b[|b|..] == [];
    assert b[0..] == b;
  }

  /** read_u64's expression is Σ b[i]·256^i. */
  lemma DecodeU64Value(b: seq<byte>)
    requires |b| == 8
    ensures DecodeU64(b) as int == LeValue(b)
  {
    FlatIsNested64(b[0], b[1], b[2], b[3], b[4], b[5], b[6], b[7]);
    HornerSuffixes(b);
    HornerValue(b);
  }

  /** read_u32's expression is Σ b[i]·256^i. */
  lemma DecodeU32Value(b: seq<byte>)
    requires |b| == 4
    ensures DecodeU32(b) as int == LeValue(b)
  {
    FlatIsNested32(b[0], b[1], b[2], b[3]);
    Bv32AsInt(DecodeU32(b));
    HornerSuffixes(b);
    HornerValue(b);
  }

  /** read_u16's expression is b[0] + 256·b[1]. */
  lemma DecodeU16Value(b: seq<byte>)
    requires |b| == 2
    ensures DecodeU16(b) as int == LeValue(b)
  {
    FlatIsNested16(b[0], b[1]);
    Bv16AsInt(DecodeU16(b));
    HornerSuffixes(b);
    HornerValue(b);
  }

  // ---------------------------------------------------------------------
  // The companion little-endian writer, and round trips through it.

  /** Shifting a bit in below a byte under 0x80 is exact arithmetic. */
  lemma ShiftInBit(x: byte, bit: byte)
    requires x as int < 0x80 && bit as int < 2
    ensures ((x << 1) | bit) as int == 2 * (x as int) + bit as int
  {
  }

  /** The byte whose value is n, built bit by bit, high bit first. */
  function ByteOf(n: nat): (b: byte)
    requires n < 0x100
    ensures b as int == n
  {
    if n == 0 then 0
    else
      var bit: byte := if n % 2 == 1 then 1 else 0;
      ShiftInBit(ByteOf(n / 2), bit);
      (ByteOf(n / 2) << 1) | bit
  }

  lemma ByteOfValue(b: byte)
    ensures ByteOf(b as int) == b
  {
  }

  /** The w bytes of u, low-order byte first. */
  function EncodeLe(u: nat, w: nat): (b: seq<byte>)
    requires u < Pow256(w)
    ensures |b| == w
  {
    if w == 0 then []
    else
      assert u / 256 < Pow256(w - 1);
      [ByteOf(u % 256)] + EncodeLe(u / 256, w - 1)
  }

  /** Decoding what the writer wrote gives the value back ... */
  lemma {:induction false} DecodeEncode(u: nat, w: nat)
    requires u < Pow256(w)
    ensures LeValue(EncodeLe(u, w)) == u
  {
    if w > 0 {
      assert u / 256 < Pow256(w - 1);
      var b := EncodeLe(u, w);
      assert b[1..] == EncodeLe(u / 256, w - 1);
      DecodeEncode(u / 256, w - 1);
    }
  }

  /** ... and writing a decoded value gives the bytes back, so LeValue is a
      bijection between w-byte strings and [0, 256^w). */
  lemma {:induction false} EncodeDecode(b: seq<byte>)
    ensures EncodeLe(LeValue(b), |b|) == b
  {
    if b != [] {
      var v := LeValue(b);
      var rest := LeValue(b[1..]);
      assert v == b[0] as int + 256 * rest;
      assert v % 256 == b[0] as int && v / 256 == rest;
      EncodeDecode(b[1..]);
      ByteOfValue(b[0]);
    }
  }

  /** The 32-bit pattern of a signed integer, `transmute::<i32, f32>` on the
      bits: built through the writer, since the pattern is its residue. */
  function Bits32(s: int): (r: bv32)
    ensures r as int == ToUnsigned(s, 4)
  {
    assert Pow256(4) == 0x1_0000_0000;
    var b := EncodeLe(ToUnsigned(s, 4), 4);
    DecodeU32Value(b);
    DecodeEncode(ToUnsigned(s, 4), 4);
    DecodeU32(b)
  }

  /** The 64-bit pattern of a signed integer, `transmute::<i64, f64>`. */
  function Bits64(s: int): (r: bv64)
    ensures r as int == ToUnsigned(s, 8)
  {
    assert Pow256(8) == 0x1_0000_0000_0000_0000;
    var b := EncodeLe(ToUnsigned(s, 8), 8);
    DecodeU64Value(b);
    DecodeEncode(ToUnsigned(s, 8), 8);
    DecodeU64(b)
  }

  lemma RoundTripU16(u: nat)
    requires u < 0x1_0000
    ensures DecodeU16(EncodeLe(u, 2)) as int == u
  {
    assert Pow256(2) == 0x1_0000;
    DecodeU16Value(EncodeLe(u, 2));
    DecodeEncode(u, 2);
  }

  lemma RoundTripU32(u: nat)
    requires u < 0x1_0000_0000
    ensures DecodeU32(EncodeLe(u, 4)) as int == u
  {
    assert Pow256(4) == 0x1_0000_0000;
    DecodeU32Value(EncodeLe(u, 4));
    DecodeEncode(u, 4);
  }

  lemma RoundTripU64(u: nat)
    requires u < 0x1_0000_0000_0000_0000
    ensures DecodeU64(EncodeLe(u, 8)) as int == u
  {
    assert Pow256(8) == 0x1_0000_0000_0000_0000;
    DecodeU64Value(EncodeLe(u, 8));
    DecodeEncode(u, 8);
  }

  /** A signed value written as its two's-complement pattern reads back. */
  lemma RoundTripI16(s: int)
    requires -0x8000 <= s < 0x8000
    ensures DecodeI16(EncodeLe(ToUnsigned(s, 2), 2)) == s
  {
    assert Pow256(2) == 0x1_0000;
    DecodeEncode(ToUnsigned(s, 2), 2);
    FromUnsignedUnique(ToUnsigned(s, 2), 2, s);
    RoundTripU16(ToUnsigned(s, 2));
  }

  lemma RoundTripI32(s: int)
    requires -0x8000_0000 <= s < 0x8000_0000
    ensures DecodeI32(EncodeLe(ToUnsigned(s, 4), 4)) == s
  {
    assert Pow256(4) == 0x1_0000_0000;
    DecodeEncode(ToUnsigned(s, 4), 4);
    FromUnsignedUnique(ToUnsigned(s, 4), 4, s);
    RoundTripU32(ToUnsigned(s, 4));
  }

  lemma RoundTripI64(s: int)
    requires -0x8000_0000_0000_0000 <= s < 0x8000_0000_0000_0000
    ensures DecodeI64(EncodeLe(ToUnsigned(s, 8), 8)) == s
  {
    assert Pow256(8) == 0x1_0000_0000_0000_0000;
    DecodeEncode(ToUnsigned(s, 8), 8);
    FromUnsignedUnique(ToUnsigned(s, 8), 8, s);
    RoundTripU64(ToUnsigned(s, 8));
  }

  // ---------------------------------------------------------------------
  // Concrete cases: endianness and the all-ones pattern.

  lemma U16Example()
    ensures DecodeU16([0x01, 0x02]) == 0x0201
  {
  }

  lemma I32AllOnes()
    ensures DecodeI32([0xFF, 0xFF, 0xFF, 0xFF]) == -1
  {
  }
}
