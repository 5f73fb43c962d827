/** The bit-serial CRC-32 register: the specification that the table-driven code of
    src/crc.cc is held to, and its algebra.
 */
module Crc32Register {
  import opened Crc32Table
  import opened Gf2Polynomial

  // Word operations by name, so that a proof can hide what they do to single bits.

  const REFLECTED_POLYNOMIAL: bv32 := 0xEDB88320

  function Xor(c: bv32, d: bv32): bv32 {
    c ^ d
  }

  function Half(c: bv32): bv32 {
    c >> 1
  }

  predicate Odd(c: bv32) {
    c & 1 == 1
  }

  lemma StepByName(c: bv32)
    ensures Step(c) == if Odd(c) then Xor(Half(c), REFLECTED_POLYNOMIAL) else Half(c)
  {
  }

  function Word(bit: bool): bv32 {
    if bit then 1 else 0
  }

  /** Shifts one message bit into the register. */
  function Feed(crc: bv32, bit: bool): bv32 {
    Step(Xor(crc, Word(bit)))
  }

  /** Shifts a whole bit string into the register, first bit first. */
  function Register(crc: bv32, bits: seq<bool>): bv32
    decreases |bits|
  {
    if bits == [] then crc else Register(Feed(crc, bits[0]), bits[1..])
  }

  /** The `n` low bits of a word, lowest first: the order in which they are transmitted. */
  function LowBits(w: bv32, n: nat): (r: seq<bool>)
    ensures |r| == n
    decreases n
  {
    if n == 0 then [] else [Odd(w)] + LowBits(Half(w), n - 1)
  }

  function ByteBits(b: bv8): (r: seq<bool>)
    ensures |r| == 8
  {
    LowBits(b as bv32, 8)
  }

  function Bits(bytes: seq<bv8>): (r: seq<bool>)
    ensures |r| == 8 * |bytes|
  {
    if bytes == [] then [] else ByteBits(bytes[0]) + Bits(bytes[1..])
  }

  /** The register after a byte string. */
  function RegisterOfBytes(crc: bv32, bytes: seq<bv8>): bv32 {
    Register(crc, Bits(bytes))
  }

  lemma {:induction false} RegisterAppend(crc: bv32, a: seq<bool>, b: seq<bool>)
    ensures Register(crc, a + b) == Register(Register(crc, a), b)
    decreases |a|
  {
    hide Feed;
    if a == [] {
      assert a + b == b;
    } else {
      assert (a + b)[1..] == a[1..] + b;
      RegisterAppend(Feed(crc, a[0]), a[1..], b);
    }
  }

  lemma {:induction false} BitsAppend(a: seq<bv8>, b: seq<bv8>)
    ensures Bits(a + b) == Bits(a) + Bits(b)
    decreases |a|
  {
    hide ByteBits;
    if a == [] {
      assert a + b == b;
    } else {
      assert (a + b)[1..] == a[1..] + b;
      BitsAppend(a[1..], b);
      assert ByteBits(a[0]) + (Bits(a[1..]) + Bits(b)) == Bits(a) + Bits(b);
    }
  }

  /** Hashing a split buffer part by part gives the register of the whole. */
  lemma BytesAppend(crc: bv32, a: seq<bv8>, b: seq<bv8>)
    ensures RegisterOfBytes(crc, a + b) == RegisterOfBytes(RegisterOfBytes(crc, a), b)
  {
    hide Register, Bits;
    BitsAppend(a, b);
    RegisterAppend(crc, Bits(a), Bits(b));
  }

  // ---- linearity ---------------------------------------------------------------

  lemma LowestBit(c: bv32)
    ensures c & 1 == 0 || c & 1 == 1
  {
  }

  lemma XorOdd(c: bv32, d: bv32)
    ensures Odd(Xor(c, d)) == (Odd(c) != Odd(d))
  {
    LowestBit(c);
    LowestBit(d);
    assert (c ^ d) & 1 == (c & 1) ^ (d & 1);
  }

  lemma XorHalf(c: bv32, d: bv32)
    ensures Half(Xor(c, d)) == Xor(Half(c), Half(d))
  {
  }

  lemma XorRegroup(a: bv32, b: bv32, c: bv32, d: bv32)
    ensures Xor(Xor(a, b), Xor(c, d)) == Xor(Xor(a, c), Xor(b, d))
  {
    hide Xor;
    XorAssociative(a, b, Xor(c, d));
    XorAssociative(b, c, d);
    XorRules(b, c);
    XorAssociative(c, b, d);
    XorAssociative(a, c, Xor(b, d));
  }

  lemma XorRules(a: bv32, b: bv32)
    ensures Xor(a, b) == Xor(b, a)
    ensures Xor(Xor(a, b), b) == a && Xor(Xor(a, b), a) == b
    ensures Xor(a, 0) == a && Xor(a, a) == 0
  {
  }

  lemma XorAssociative(a: bv32, b: bv32, c: bv32)
    ensures Xor(Xor(a, b), c) == Xor(a, Xor(b, c))
  {
  }

  lemma StepLinear(c: bv32, d: bv32)
    ensures Step(Xor(c, d)) == Xor(Step(c), Step(d))
  {
    hide Xor, Half, Odd, Step;
    StepByName(c);
    StepByName(d);
    StepByName(Xor(c, d));
    XorOdd(c, d);
    XorHalf(c, d);
    var p, h, k := REFLECTED_POLYNOMIAL, Half(c), Half(d);
    XorRules(Xor(h, k), p);
    XorRules(h, p);
    XorRegroup(h, p, k, p);
    XorRules(p, p);
    XorRules(Xor(h, k), 0);
    XorAssociative(h, k, p);
    XorRegroup(h, p, k, 0);
    XorRules(p, 0);
    XorRules(k, 0);
  }

  lemma WordXor(a: bool, b: bool)
    ensures Word(a != b) == Xor(Word(a), Word(b))
  {
  }

  lemma FeedLinear(c: bv32, d: bv32, a: bool, b: bool)
    ensures Feed(Xor(c, d), a != b) == Xor(Feed(c, a), Feed(d, b))
  {
    hide Xor, Word, Step;
    WordXor(a, b);
    XorRegroup(c, d, Word(a), Word(b));
    StepLinear(Xor(c, Word(a)), Xor(d, Word(b)));
  }

  /** The register is linear over GF(2) in its start value and the message together. */
  lemma {:induction false} RegisterLinear(c: bv32, d: bv32, a: seq<bool>, b: seq<bool>)
    requires |a| == |b|
    ensures Register(Xor(c, d), Sum(a, b)) == Xor(Register(c, a), Register(d, b))
    decreases |a|
  {
    hide Xor, Feed;
    if a != [] {
      assert Sum(a, b)[1..] == Sum(a[1..], b[1..]);
      FeedLinear(c, d, a[0], b[0]);
      RegisterLinear(Feed(c, a[0]), Feed(d, b[0]), a[1..], b[1..]);
    }
  }

  // ---- the register can be run backwards ---------------------------------------------

  predicate TopBit(d: bv32) {
    d & 0x8000_0000 != 0
  }

  function Double(d: bv32): bv32 {
    d << 1
  }

  function DoublePlusOne(d: bv32): bv32 {
    (d << 1) | 1
  }

  /** Undoes `Step`: the top bit tells whether the polynomial was added. */
  function Unstep(d: bv32): bv32 {
    if TopBit(d) then DoublePlusOne(Xor(d, REFLECTED_POLYNOMIAL)) else Double(d)
  }

  lemma HalfTop(c: bv32)
    ensures !TopBit(Half(c)) && TopBit(Xor(Half(c), REFLECTED_POLYNOMIAL))
  {
    assert (c >> 1) & 0x8000_0000 == 0;
    assert ((c >> 1) ^ 0xEDB8_8320) & 0x8000_0000 == 0x8000_0000;
  }

  lemma DoubleHalf(c: bv32)
    ensures if Odd(c) then DoublePlusOne(Half(c)) == c else Double(Half(c)) == c
  {
    LowestBit(c);
    assert ((c >> 1) << 1) | (c & 1) == c;
    assert ((c >> 1) << 1) | 0 == (c >> 1) << 1;
  }

  lemma HalfDouble(d: bv32)
    ensures !Odd(Double(d)) && Odd(DoublePlusOne(d))
    ensures !TopBit(d) ==> Half(Double(d)) == d && Half(DoublePlusOne(d)) == d
  {
    assert (d << 1) & 1 == 0;
    assert ((d << 1) | 1) & 1 == 1;
    assert ((d << 1) | 1) >> 1 == d & 0x7FFF_FFFF;
    assert (d << 1) >> 1 == d & 0x7FFF_FFFF;
    if !TopBit(d) {
      assert d & 0x8000_0000 == 0;
      assert d & 0x7FFF_FFFF == d;
    }
  }

  lemma TopXor(d: bv32)
    ensures TopBit(d) ==> !TopBit(Xor(d, REFLECTED_POLYNOMIAL))
  {
  }

  lemma UnstepStep(c: bv32)
    ensures Unstep(Step(c)) == c
  {
    hide Xor, Half, Odd, TopBit, Double, DoublePlusOne, Step;
    StepByName(c);
    HalfTop(c);
    DoubleHalf(c);
    XorRules(Half(c), REFLECTED_POLYNOMIAL);
  }

  lemma StepUnstep(d: bv32)
    ensures Step(Unstep(d)) == d
  {
    hide Xor, Half, Odd, TopBit, Double, DoublePlusOne, Step;
    StepByName(Unstep(d));
    TopXor(d);
    HalfDouble(d);
    HalfDouble(Xor(d, REFLECTED_POLYNOMIAL));
    XorRules(d, REFLECTED_POLYNOMIAL);
  }

  /** Runs the register backwards over a bit string. */
  function Unregister(crc: bv32, bits: seq<bool>): bv32
    decreases |bits|
  {
    if bits == [] then crc
    else Xor(Unstep(Unregister(crc, bits[1..])), Word(bits[0]))
  }

  lemma {:induction false} UnregisterRegister(crc: bv32, bits: seq<bool>)
    ensures Unregister(Register(crc, bits), bits) == crc
    decreases |bits|
  {
    hide Xor, Step, Unstep, Word;
    if bits != [] {
      UnregisterRegister(Feed(crc, bits[0]), bits[1..]);
      UnstepStep(Xor(crc, Word(bits[0])));
      XorRules(crc, Word(bits[0]));
    }
  }

  lemma {:induction false} RegisterUnregister(crc: bv32, bits: seq<bool>)
    ensures Register(Unregister(crc, bits), bits) == crc
    decreases |bits|
  {
    hide Xor, Step, Unstep, Word;
    if bits != [] {
      var before := Unregister(crc, bits[1..]);
      XorRules(Unstep(before), Word(bits[0]));
      StepUnstep(before);
      RegisterUnregister(crc, bits[1..]);
    }
  }

  // ---- whole words -------------------------------------------------------------------

  function Steps(crc: bv32, n: nat): bv32
    decreases n
  {
    if n == 0 then crc else Steps(Step(crc), n - 1)
  }

  function ShiftRight(w: bv32, n: nat): bv32
    decreases n
  {
    if n == 0 then w else ShiftRight(Half(w), n - 1)
  }

  function Even(w: bv32): bv32 {
    w & 0xFFFF_FFFE
  }

  lemma EvenPart(w: bv32)
    ensures w == Xor(Word(Odd(w)), Even(w))
    ensures !Odd(Even(w)) && Half(Even(w)) == Half(w)
  {
    OddIsWord(w);
    EvenHalf(w);
    hide Odd, Half, Word;
  }

  lemma EvenHalf(w: bv32)
    ensures !Odd(Even(w)) && Half(Even(w)) == Half(w)
  {
    assert (w & 0xFFFF_FFFE) & 1 == 0;
    assert (w & 0xFFFF_FFFE) >> 1 == w >> 1;
  }

  lemma OddIsWord(w: bv32)
    ensures w == Word(Odd(w)) ^ (w & 0xFFFF_FFFE)
  {
    LowestBit(w);
    assert w == (w & 1) ^ (w & 0xFFFF_FFFE);
    assert Word(Odd(w)) == w & 1;
  }

  /** Adding a word to the register and stepping once is shifting in its lowest bit and
      adding the rest of the word. */
  lemma StepAbsorbs(c: bv32, w: bv32)
    ensures Step(Xor(c, w)) == Xor(Feed(c, Odd(w)), Half(w))
  {
    EvenPart(w);
    hide Xor, Half, Odd, Even, Word, Step;
    StepByName(Even(w));
    XorAssociative(c, Word(Odd(w)), Even(w));
    StepLinear(Xor(c, Word(Odd(w))), Even(w));
  }

  lemma {:induction false} StepsAbsorb(c: bv32, w: bv32, n: nat)
    ensures Steps(Xor(c, w), n) == Xor(Register(c, LowBits(w, n)), ShiftRight(w, n))
    decreases n
  {
    hide Xor, Half, Odd, Step, Feed;
    if n > 0 {
      StepAbsorbs(c, w);
      assert LowBits(w, n)[1..] == LowBits(Half(w), n - 1);
      StepsAbsorb(Feed(c, Odd(w)), Half(w), n - 1);
    }
  }

  lemma {:induction false} ShiftRightAdd(w: bv32, m: nat, n: nat)
    ensures ShiftRight(w, m + n) == ShiftRight(ShiftRight(w, m), n)
    decreases m
  {
    hide Half;
    if m > 0 {
      ShiftRightAdd(Half(w), m - 1, n);
    }
  }

  function LowByte(x: bv32): bv32 {
    x & 0xFF
  }

  function HighBytes(x: bv32): bv32 {
    x & 0xFFFF_FF00
  }

  function DropByte(x: bv32): bv32 {
    x >> 8
  }

  lemma ShiftRightByte(w: bv32)
    ensures ShiftRight(w, 8) == DropByte(w)
  {
    hide ShiftRight;
    ShiftRightFour(w);
    ShiftRightFour(w >> 4);
    ShiftRightAdd(w, 4, 4);
    assert (w >> 4) >> 4 == w >> 8;
  }

  lemma ShiftRightFour(w: bv32)
    ensures ShiftRight(w, 4) == w >> 4
  {
    hide ShiftRight;
    ShiftRightTwo(w);
    ShiftRightTwo(w >> 2);
    ShiftRightAdd(w, 2, 2);
    assert (w >> 2) >> 2 == w >> 4;
  }

  lemma ShiftRightTwo(w: bv32)
    ensures ShiftRight(w, 2) == w >> 2
  {
    assert ShiftRight(w, 2) == ShiftRight(Half(w), 1) == ShiftRight(Half(Half(w)), 0);
    assert (w >> 1) >> 1 == w >> 2;
  }

  lemma ShiftRightWord(w: bv32)
    ensures ShiftRight(w, 32) == 0
  {
    var w1 := DropByte(w);
    var w2 := DropByte(w1);
    var w3 := DropByte(w2);
    FourBytes(w);
    hide DropByte, ShiftRight;
    ShiftRightAdd(w, 8, 24);
    ShiftRightByte(w);
    ShiftRightAdd(w1, 8, 16);
    ShiftRightByte(w1);
    ShiftRightAdd(w2, 8, 8);
    ShiftRightByte(w2);
    ShiftRightByte(w3);
  }

  lemma FourBytes(w: bv32)
    ensures DropByte(DropByte(DropByte(DropByte(w)))) == 0
  {
  }

  lemma {:induction false} StepsAdd(c: bv32, m: nat, n: nat)
    ensures Steps(c, m + n) == Steps(Steps(c, m), n)
    decreases m
  {
    hide Step;
    if m > 0 {
      StepsAdd(Step(c), m - 1, n);
    }
  }

  lemma StepsFour(c: bv32)
    ensures Steps(c, 4) == Step(Step(Step(Step(c))))
  {
    hide Step;
    StepsAdd(c, 2, 2);
    assert Steps(c, 2) == Steps(Step(c), 1) == Steps(Step(Step(c)), 0);
    var d := Step(Step(c));
    assert Steps(d, 2) == Steps(Step(d), 1) == Steps(Step(Step(d)), 0);
  }

  lemma StepsEight(c: bv32)
    ensures Steps(c, 8) == Eight(c)
  {
    hide Step;
    StepsAdd(c, 4, 4);
    StepsFour(c);
    StepsFour(Steps(c, 4));
  }

  lemma ByteFits(b: bv8)
    ensures DropByte(b as bv32) == 0
  {
  }

  /** Eight bit-serial steps take in one byte. */
  lemma ByteStep(c: bv32, b: bv8)
    ensures Register(c, ByteBits(b)) == Eight(Xor(c, b as bv32))
  {
    hide Xor, Register, LowBits, Steps, ShiftRight, Eight, DropByte;
    StepsAbsorb(c, b as bv32, 8);
    ShiftRightByte(b as bv32);
    ByteFits(b);
    XorRules(Register(c, ByteBits(b)), 0);
    StepsEight(Xor(c, b as bv32));
  }

  /** Thirty-two bit-serial steps take in one word. */
  lemma WordStep(c: bv32, w: bv32)
    ensures Register(c, LowBits(w, 32)) == Steps(Xor(c, w), 32)
  {
    hide Xor, Register, LowBits, Steps, ShiftRight;
    StepsAbsorb(c, w, 32);
    ShiftRightWord(w);
    XorRules(Register(c, LowBits(w, 32)), 0);
  }

  lemma SplitLowByte(x: bv32)
    ensures x == Xor(LowByte(x), HighBytes(x)) && DropByte(HighBytes(x)) == DropByte(x)
  {
  }

  function And(w: bv32, m: bv32): bv32 {
    w & m
  }

  lemma {:induction false} LowBitsMasked(w: bv32, m: bv32, n: nat)
    requires forall i :: 0 <= i < n ==> !LowBits(m, n)[i]
    ensures LowBits(And(w, m), n) == LowBits(0, n)
    decreases n
  {
    hide Half, Odd, And;
    if n > 0 {
      MaskOdd(w, m);
      MaskHalf(w, m);
      ZeroIsEven();
      assert LowBits(m, n)[0] == Odd(m);
      assert LowBits(Half(m), n - 1) == LowBits(m, n)[1..];
      LowBitsMasked(Half(w), Half(m), n - 1);
    }
  }

  lemma MaskOdd(w: bv32, m: bv32)
    ensures Odd(And(w, m)) == (Odd(w) && Odd(m))
  {
    LowestBit(w);
    LowestBit(m);
    assert (w & m) & 1 == (w & 1) & (m & 1);
  }

  lemma MaskHalf(w: bv32, m: bv32)
    ensures Half(And(w, m)) == And(Half(w), Half(m))
  {
  }

  lemma ZeroIsEven()
    ensures !Odd(0) && Half(0) == 0
  {
  }

  lemma EightHigh(low: bv32, high: bv32)
    requires LowBits(high, 8) == LowBits(0, 8)
    ensures Eight(Xor(low, high)) == Xor(Eight(low), DropByte(high))
  {
    assert DropByte(0) == 0;
    hide Xor, Register, LowBits, Steps, ShiftRight, Eight, DropByte;
    StepsAbsorb(low, high, 8);
    ShiftRightByte(high);
    StepsEight(Xor(low, high));
    StepsEight(low);
    StepsAbsorb(low, 0, 8);
    ShiftRightByte(0);
    XorRules(low, 0);
    XorRules(Register(low, LowBits(0, 8)), 0);
  }

  lemma HighLowBits(x: bv32)
    ensures LowBits(HighBytes(x), 8) == LowBits(0, 8)
  {
    HighMaskLowBits();
    LowBitsMasked(x, 0xFFFF_FF00, 8);
  }

  lemma HighMaskLowBits()
    ensures forall i :: 0 <= i < 8 ==> !LowBits(0xFFFF_FF00, 8)[i]
  {
  }

  /** Eight steps are those of the low byte, plus the other three bytes moved down. */
  lemma EightByLowByte(x: bv32)
    ensures Eight(x) == Xor(Eight(LowByte(x)), DropByte(x))
  {
    hide Xor, Eight, LowBits, LowByte, HighBytes, DropByte;
    SplitLowByte(x);
    HighLowBits(x);
    EightHigh(LowByte(x), HighBytes(x));
  }

  /** The new register of one round of the table loop. */
  function Lookup(x: bv32): bv32 {
    LowByteIndex(x);
    TableLength();
    TABLE[(x & 0xFF) as int] ^ (x >> 8)
  }

  /** One round of the table loop is eight steps of the register. */
  lemma TableRound(x: bv32)
    ensures Lookup(x) == Eight(x)
  {
    hide Eight, TABLE;
    TableEntry(x & 0xFF);
    EightByLowByte(x);
    assert LowByte(x) == x & 0xFF && DropByte(x) == x >> 8;
    assert Lookup(x) == Xor(Eight(LowByte(x)), DropByte(x));
  }
}
