/** The stateful CRC-32 of src/crc.cc: the table loop, the context operations built on it,
    and what a checksum guarantees to the receiver of a message.
 */
module Crc32 {
  import opened Crc32Table
  import opened Crc32Register
  import opened Gf2Polynomial
  import opened Sequences
  import Crc32Division

  const INITIAL: bv32 := 0xFFFF_FFFF

  /** What a register holds after a message and its own checksum. */
  const RESIDUE: bv32 := 0xDEBB20E3

  function Byte0(val: bv32): bv8 {
    (val & 0xFF) as bv8
  }

  /** The bytes of a value in the memory of a little-endian host. */
  function LittleEndian32(val: bv32): (r: seq<bv8>)
    ensures |r| == 4
  {
    var val1 := DropByte(val);
    var val2 := DropByte(val1);
    [Byte0(val), Byte0(val1), Byte0(val2), Byte0(DropByte(val2))]
  }

  function LittleEndian16(val: bv16): (r: seq<bv8>)
    ensures |r| == 2
  {
    [Byte0(val as bv32), Byte0(DropByte(val as bv32))]
  }

  /** The checksum of a message, by the bit-serial register. */
  function Checksum(bytes: seq<bv8>): bv32 {
    RegisterOfBytes(INITIAL, bytes) ^ 0xFFFF_FFFF
  }

  lemma OneByte(crc: bv32, b: bv8)
    ensures Lookup(Xor(crc, b as bv32)) == RegisterOfBytes(crc, [b])
  {
    hide Xor, Lookup, Eight, ByteBits, Register;
    TableRound(Xor(crc, b as bv32));
    ByteStep(crc, b);
    assert Bits([b]) == ByteBits(b) + Bits([]) == ByteBits(b);
  }

  lemma NoBytes(crc: bv32)
    ensures RegisterOfBytes(crc, []) == crc
  {
  }

  /** _crc32_hash: one table lookup a byte computes the bit-serial register. */
  method HashBuffer(start: bv32, buf: array<bv8>, size: nat) returns (crc: bv32)
    requires size <= buf.Length
    ensures crc == RegisterOfBytes(start, buf[..size])
  {
    hide RegisterOfBytes, Xor, Lookup;
    crc := start;
    var p := 0;
    NoBytes(start);
    assert buf[..0] == [];
    while p < size
      invariant 0 <= p <= size
      invariant crc == RegisterOfBytes(start, buf[..p])
    {
      OneByte(crc, buf[p]);
      BytesAppend(start, buf[..p], [buf[p]]);
      assert buf[..p] + [buf[p]] == buf[..p + 1];
      crc := Xor(crc, buf[p] as bv32);
      crc := Lookup(crc);
      p := p + 1;
    }
  }

  /** A CRC context: the register, and as a ghost every byte hashed since it was initialised. */
  class Context {
    var crc: bv32
    ghost var fed: seq<bv8>

    ghost predicate Valid()
      reads this
    {
      crc == RegisterOfBytes(INITIAL, fed)
    }

    constructor ()
      ensures Valid() && fed == []
    {
      crc := INITIAL;
      fed := [];
      new;
      NoBytes(INITIAL);
    }

    method Init()
      modifies this
      ensures Valid() && fed == []
    {
      crc := INITIAL;
      fed := [];
      NoBytes(INITIAL);
    }

    method Hash(buf: array<bv8>, size: nat)
      requires Valid() && size <= buf.Length
      modifies this
      ensures Valid() && fed == old(fed) + buf[..size]
    {
      hide RegisterOfBytes;
      BytesAppend(INITIAL, fed, buf[..size]);
      crc := HashBuffer(crc, buf, size);
      fed := fed + buf[..size];
    }

    method Hash32(val: bv32)
      requires Valid()
      modifies this
      ensures Valid() && fed == old(fed) + LittleEndian32(val)
    {
      hide RegisterOfBytes;
      var bytes := LittleEndian32(val);
      var buf := new bv8[4](i requires 0 <= i < 4 => bytes[i]);
      assert buf[..4] == bytes;
      Hash(buf, 4);
    }

    method Hash16(val: bv16)
      requires Valid()
      modifies this
      ensures Valid() && fed == old(fed) + LittleEndian16(val)
    {
      hide RegisterOfBytes;
      var bytes := LittleEndian16(val);
      var buf := new bv8[2](i requires 0 <= i < 2 => bytes[i]);
      assert buf[..2] == bytes;
      Hash(buf, 2);
    }

    method Hash8(val: bv8)
      requires Valid()
      modifies this
      ensures Valid() && fed == old(fed) + [val]
    {
      hide RegisterOfBytes;
      var buf := new bv8[1](_ => val);
      assert buf[..1] == [val];
      Hash(buf, 1);
    }

    method Result() returns (r: bv32)
      requires Valid()
      ensures r == Checksum(fed)
    {
      r := crc ^ 0xFFFF_FFFF;
    }
  }

  // ---- the checksum as a trailer -----------------------------------------------------

  lemma {:induction false} LowBitsKept(w: bv32, m: bv32, n: nat)
    requires forall i :: 0 <= i < n ==> LowBits(m, n)[i]
    ensures LowBits(And(w, m), n) == LowBits(w, n)
    decreases n
  {
    hide Half, Odd, And;
    if n > 0 {
      MaskOdd(w, m);
      MaskHalf(w, m);
      assert LowBits(m, n)[0] == Odd(m);
      assert LowBits(Half(m), n - 1) == LowBits(m, n)[1..];
      LowBitsKept(Half(w), Half(m), n - 1);
    }
  }

  lemma ByteOf(w: bv32)
    ensures ByteBits(Byte0(w)) == LowBits(w, 8)
  {
    assert Byte0(w) as bv32 == w & 0xFF;
    LowMask();
    LowBitsKept(w, 0xFF, 8);
  }

  lemma LowMask()
    ensures forall i :: 0 <= i < 8 ==> LowBits(0xFF, 8)[i]
  {
  }

  lemma BitsOfFour(b: seq<bv8>)
    requires |b| == 4
    ensures Bits(b) == ByteBits(b[0]) + (ByteBits(b[1]) + (ByteBits(b[2]) + ByteBits(b[3])))
  {
    hide ByteBits;
    assert b[1..][1..] == b[2..] && b[2..][1..] == b[3..];
    assert Bits(b[3..]) == ByteBits(b[3]) + Bits(b[3..][1..]) == ByteBits(b[3]);
    assert Bits(b[2..]) == ByteBits(b[2]) + Bits(b[3..]);
    assert Bits(b[1..]) == ByteBits(b[1]) + Bits(b[2..]);
  }

  /** Four bytes in memory are the 32 bits of their value, lowest first. */
  lemma WordBits(w: bv32)
    ensures Bits(LittleEndian32(w)) == LowBits(w, 32)
  {
    hide LowBits, ShiftRight, ByteBits, Bits, DropByte, Byte0;
    BitsOfFour(LittleEndian32(w));
    var w1 := DropByte(w);
    var w2 := DropByte(w1);
    ByteOf(w);
    ByteOf(w1);
    ByteOf(w2);
    ByteOf(DropByte(w2));
    ShiftRightByte(w);
    ShiftRightByte(w1);
    ShiftRightByte(w2);
    Crc32Division.LowBitsAppend(w, 8, 24);
    Crc32Division.LowBitsAppend(w1, 8, 16);
    Crc32Division.LowBitsAppend(w2, 8, 8);
  }

  /** Two bytes in memory are the 16 bits of their value, lowest first. */
  lemma HalfWordBits(v: bv16)
    ensures Bits(LittleEndian16(v)) == LowBits(v as bv32, 16)
  {
    hide LowBits, ShiftRight, ByteBits, DropByte, Byte0;
    var b, w := LittleEndian16(v), v as bv32;
    assert Bits(b[1..]) == ByteBits(b[1]) + Bits(b[1..][1..]) == ByteBits(b[1]);
    assert Bits(b) == ByteBits(b[0]) + Bits(b[1..]);
    ByteOf(w);
    ByteOf(DropByte(w));
    ShiftRightByte(w);
    Crc32Division.LowBitsAppend(w, 8, 8);
  }

  lemma ResidueValue()
    ensures Steps(0xFFFF_FFFF, 32) == RESIDUE
  {
    StepsAdd(0xFFFFFFFF, 8, 24);
    StepsAdd(0x2DFD1072, 8, 16);
    StepsAdd(0xBE26ED00, 8, 8);
    StepsEight(0xFFFFFFFF);
    StepsEight(0x2DFD1072);
    StepsEight(0xBE26ED00);
    StepsEight(0x00BE26ED);
    EightValues();
    hide Steps, Eight;
  }

  lemma EightValues()
    ensures Eight(0xFFFFFFFF) == 0x2DFD1072 && Eight(0x2DFD1072) == 0xBE26ED00
    ensures Eight(0xBE26ED00) == 0x00BE26ED && Eight(0x00BE26ED) == 0xDEBB20E3
  {
  }

  lemma ComplementCancels(crc: bv32)
    ensures Xor(crc, crc ^ 0xFFFF_FFFF) == 0xFFFF_FFFF
  {
  }

  /** Whatever the register holds, its complement fed in as four bytes leaves one constant. */
  lemma TrailerResidue(crc: bv32)
    ensures RegisterOfBytes(crc, LittleEndian32(crc ^ 0xFFFF_FFFF)) == RESIDUE
  {
    var w := crc ^ 0xFFFF_FFFF;
    WordBits(w);
    WordStep(crc, w);
    ComplementCancels(crc);
    ResidueValue();
    hide LittleEndian32, LowBits, Steps, Register, Xor;
  }

  /** The receiver's test: a message and four bytes leave the residue in the register exactly
      when the four bytes are the message's checksum. */
  lemma TrailerIff(message: seq<bv8>, trailer: seq<bv8>)
    requires |trailer| == 4
    ensures RegisterOfBytes(INITIAL, message + trailer) == RESIDUE
       <==> trailer == LittleEndian32(Checksum(message))
  {
    hide RegisterOfBytes, LittleEndian32;
    var good := LittleEndian32(Checksum(message));
    BytesAppend(INITIAL, message, good);
    TrailerResidue(RegisterOfBytes(INITIAL, message));
    if trailer != good {
      assert (message + trailer)[|message|..] == trailer && (message + good)[|message|..] == good;
      Crc32Division.FourByteBurstDetected(INITIAL, message + trailer, message + good, |message|);
    }
  }

  /** Two messages of one length, of any length, that differ only inside four consecutive
      bytes have different checksums. */
  lemma ChecksumDetectsBurst(a: seq<bv8>, b: seq<bv8>, i: nat)
    requires |a| == |b| && a != b
    requires forall k :: 0 <= k < |a| && (k < i || i + 4 <= k) ==> a[k] == b[k]
    ensures Checksum(a) != Checksum(b)
  {
    Crc32Division.FourByteBurstDetected(INITIAL, a, b, i);
    ComplementInjective(RegisterOfBytes(INITIAL, a), RegisterOfBytes(INITIAL, b));
    hide RegisterOfBytes;
  }

  lemma ComplementInjective(c: bv32, d: bv32)
    requires c != d
    ensures c ^ 0xFFFF_FFFF != d ^ 0xFFFF_FFFF
  {
  }

  // ---- the checksum as such ------------------------------------------------------------

  lemma OnesBits()
    ensures LowBits(0xFFFF_FFFF, 32) == Repeat(true, 32)
  {
    hide LowBits, Bits;
    WordBits(0xFFFF_FFFF);
    var bytes := LittleEndian32(0xFFFF_FFFF);
    assert bytes == [0xFF, 0xFF, 0xFF, 0xFF];
    BitsOfFour(bytes);
    LowMask();
    assert ByteBits(0xFF) == Repeat(true, 8);
    assert Repeat(true, 8) + (Repeat(true, 8) + (Repeat(true, 8) + Repeat(true, 8))) == Repeat(true, 32);
  }

  /** The checksum of a message is the complement of a remainder: that of the message times
      x^32, with its 32 highest terms inverted, on division by the generator. */
  lemma ChecksumIsRemainder(message: seq<bv8>, r: Polynomial)
    requires |r| == 32
    ensures IsRemainder(Sum(Repeat(true, 32) + Zeros(8 * |message|), Bits(message) + Zeros(32)),
                        Crc32Division.GENERATOR, r)
       <==> r == LowBits(Checksum(message) ^ 0xFFFF_FFFF, 32)
  {
    hide Register, Bits, LowBits, Sum, IsRemainder, Crc32Division.GENERATOR;
    OnesBits();
    Crc32Division.RemainderIff(0xFFFF_FFFF, Bits(message), r);
    ComplementTwice(Register(0xFFFF_FFFF, Bits(message)));
  }

  lemma ComplementTwice(crc: bv32)
    ensures crc ^ 0xFFFF_FFFF ^ 0xFFFF_FFFF == crc
  {
  }

  lemma NextByte(crc: bv32, bytes: seq<bv8>, k: nat, next: bv32)
    requires k < |bytes| && Eight(Xor(crc, bytes[k] as bv32)) == next
    ensures RegisterOfBytes(crc, bytes[k..]) == RegisterOfBytes(next, bytes[k + 1..])
  {
    hide RegisterOfBytes, Xor, Lookup, Eight;
    assert bytes[k..] == [bytes[k]] + bytes[k + 1..];
    BytesAppend(crc, [bytes[k]], bytes[k + 1..]);
    OneByte(crc, bytes[k]);
    TableRound(Xor(crc, bytes[k] as bv32));
  }

  lemma CheckSteps()
    ensures Eight(0xFFFFFFCE) == 0x7C231048 && Eight(0x7C23107A) == 0xB0ACBB32
    ensures Eight(0xB0ACBB01) == 0x77B79C2D && Eight(0x77B79C19) == 0x641C1F5C
  {
  }

  lemma CheckStepsLater()
    ensures Eight(0x641C1F69) == 0x340AC5E3 && Eight(0x340AC5D5) == 0xF68D2C9E
    ensures Eight(0xF68D2CA9) == 0xAFFC9660 && Eight(0xAFFC9658) == 0x651F2550
    ensures Eight(0x651F2569) == 0x340BC6D9
  {
  }

  /** The check value of this CRC: the checksum of the characters "123456789". */
  lemma CheckValue()
    ensures Checksum([0x31, 0x32, 0x33, 0x34, 0x35, 0x36, 0x37, 0x38, 0x39]) == 0xCBF43926
    ensures Checksum([]) == 0
  {
    CheckSteps();
    CheckStepsLater();
    hide RegisterOfBytes, Eight;
    var digits: seq<bv8> := [0x31, 0x32, 0x33, 0x34, 0x35, 0x36, 0x37, 0x38, 0x39];
    assert digits[0..] == digits && digits[9..] == [];
    NextByte(0xFFFFFFFF, digits, 0, 0x7C231048);
    NextByte(0x7C231048, digits, 1, 0xB0ACBB32);
    NextByte(0xB0ACBB32, digits, 2, 0x77B79C2D);
    NextByte(0x77B79C2D, digits, 3, 0x641C1F5C);
    NextByte(0x641C1F5C, digits, 4, 0x340AC5E3);
    NextByte(0x340AC5E3, digits, 5, 0xF68D2C9E);
    NextByte(0xF68D2C9E, digits, 6, 0xAFFC9660);
    NextByte(0xAFFC9660, digits, 7, 0x651F2550);
    NextByte(0x651F2550, digits, 8, 0x340BC6D9);
    NoBytes(0x340BC6D9);
    NoBytes(0xFFFF_FFFF);
  }

  // ---- the algebra of whole buffers ----------------------------------------------------

  function XorBytes(a: seq<bv8>, b: seq<bv8>): (r: seq<bv8>)
    requires |a| == |b|
    ensures |r| == |a| && forall i :: 0 <= i < |a| ==> r[i] == a[i] ^ b[i]
  {
    seq(|a|, i requires 0 <= i < |a| => a[i] ^ b[i])
  }

  lemma ByteXor(x: bv8, y: bv8)
    ensures ByteBits(x ^ y) == Sum(ByteBits(x), ByteBits(y))
  {
    assert (x ^ y) as bv32 == Xor(x as bv32, y as bv32);
    hide LowBits, Xor;
    Crc32Division.LowBitsXor(x as bv32, y as bv32, 8);
  }

  lemma {:induction false} BitsXor(a: seq<bv8>, b: seq<bv8>)
    requires |a| == |b|
    ensures Bits(XorBytes(a, b)) == Sum(Bits(a), Bits(b))
    decreases |a|
  {
    hide ByteBits, Sum;
    if a == [] {
      assert Sum([], []) == [];
    } else {
      XorBytesRest(a, b);
      hide XorBytes;
      ByteXor(a[0], b[0]);
      BitsXor(a[1..], b[1..]);
      SumAppend(ByteBits(a[0]), ByteBits(b[0]), Bits(a[1..]), Bits(b[1..]));
    }
  }

  lemma XorBytesRest(a: seq<bv8>, b: seq<bv8>)
    requires |a| == |b| > 0
    ensures XorBytes(a, b)[0] == a[0] ^ b[0] && XorBytes(a, b)[1..] == XorBytes(a[1..], b[1..])
  {
  }

  /** The register is linear over GF(2) in its start value and the buffer together. */
  lemma BytesLinear(c: bv32, d: bv32, a: seq<bv8>, b: seq<bv8>)
    requires |a| == |b|
    ensures RegisterOfBytes(c ^ d, XorBytes(a, b)) == RegisterOfBytes(c, a) ^ RegisterOfBytes(d, b)
  {
    BitsXor(a, b);
    RegisterLinear(c, d, Bits(a), Bits(b));
    hide Register, Bits;
  }

  /** Hashing a fixed buffer maps start values to end values one to one, and onto. */
  lemma BytesBijective(bytes: seq<bv8>, end: bv32) returns (start: bv32)
    ensures RegisterOfBytes(start, bytes) == end
    ensures forall c :: RegisterOfBytes(c, bytes) == end ==> c == start
  {
    hide Register, Unregister, Bits;
    start := Unregister(end, Bits(bytes));
    RegisterUnregister(end, Bits(bytes));
    forall c | RegisterOfBytes(c, bytes) == end
      ensures c == start
    {
      UnregisterRegister(c, Bits(bytes));
    }
  }
}
