/** The CRC-32 register is the remainder of a polynomial division by
    x^32 + x^26 + x^23 + x^22 + x^16 + x^12 + x^11 + x^10 + x^8 + x^7 + x^5 + x^4 + x^2 + x + 1,
    and what that says about the errors it detects.
 */
module Crc32Division {
  import opened Crc32Table
  import opened Crc32Register
  import opened Gf2Polynomial

  const POWERS := {32, 26, 23, 22, 16, 12, 11, 10, 8, 7, 5, 4, 2, 1, 0}

  /** The polynomial 0x04C11DB7 with its leading term, highest power first. */
  const GENERATOR: Polynomial := seq(33, i => 32 - i in POWERS)

  /** A register as a polynomial: its lowest bit is the coefficient of x^31. */
  function Coefficients(crc: bv32): (r: Polynomial)
    ensures |r| == 32
  {
    LowBits(crc, 32)
  }

  // ---- one step in terms of coefficients ------------------------------------------------

  lemma {:induction false} LowBitsXor(c: bv32, d: bv32, n: nat)
    ensures LowBits(Xor(c, d), n) == Sum(LowBits(c, n), LowBits(d, n))
    decreases n
  {
    hide Xor, Half, Odd;
    if n > 0 {
      XorOdd(c, d);
      XorHalf(c, d);
      LowBitsXor(Half(c), Half(d), n - 1);
    }
  }

  lemma {:induction false} LowBitsAppend(w: bv32, m: nat, n: nat)
    ensures LowBits(w, m + n) == LowBits(w, m) + LowBits(ShiftRight(w, m), n)
    decreases m
  {
    hide Half, Odd;
    if m > 0 {
      LowBitsAppend(Half(w), m - 1, n);
    }
  }

  lemma LowBitsOne(w: bv32)
    ensures LowBits(w, 1) == [Odd(w)]
  {
    hide Half, Odd;
    assert LowBits(Half(w), 0) == [];
  }

  lemma LowBitsFirst(w: bv32, n: nat)
    requires n > 0
    ensures LowBits(w, n) == [Odd(w)] + LowBits(Half(w), n - 1)
  {
    hide Odd, Half;
  }

  lemma CoefficientsHalf(c: bv32)
    ensures Coefficients(Half(c)) == Coefficients(c)[1..] + [false]
  {
    hide Half, Odd, ShiftRight, LowBits;
    ZeroIsEven();
    ShiftRightWord(c);
    LowBitsAppend(c, 32, 1);
    LowBitsOne(0);
    LowBitsFirst(c, 33);
    assert LowBits(Half(c), 32) == LowBits(c, 33)[1..];
  }

  lemma {:induction false} LowBitsOfZero(n: nat)
    ensures LowBits(0, n) == Zeros(n)
    decreases n
  {
    hide Half, Odd;
    ZeroIsEven();
    if n > 0 {
      LowBitsOfZero(n - 1);
    }
  }

  lemma CoefficientsWord(bit: bool)
    ensures Coefficients(Word(bit)) == [bit] + Zeros(31)
  {
    LowBitsOfZero(31);
    WordOfBit(bit);
    hide Half, Odd, Word;
    assert LowBits(Word(bit), 32) == [Odd(Word(bit))] + LowBits(Half(Word(bit)), 31);
  }

  lemma WordOfBit(bit: bool)
    ensures Odd(Word(bit)) == bit && Half(Word(bit)) == 0
  {
  }

  // The polynomial's coefficients after the leading one, eight at a time.
  const G0: Polynomial := [false, false, false, false, false, true, false, false]
  const G1: Polynomial := [true, true, false, false, false, false, false, true]
  const G2: Polynomial := [false, false, false, true, true, true, false, true]
  const G3: Polynomial := [true, false, true, true, false, true, true, true]

  lemma GeneratorPowers()
    ensures GENERATOR == [true] + (G0 + (G1 + (G2 + G3)))
  {
  }

  lemma PolynomialByte0()
    ensures LowBits(0xEDB8_8320, 8) == G0 && ShiftRight(0xEDB8_8320, 8) == 0xED_B883
  {
    ShiftRightByte(0xEDB8_8320);
  }

  lemma PolynomialByte1()
    ensures LowBits(0xED_B883, 8) == G1 && ShiftRight(0xED_B883, 8) == 0xEDB8
  {
    ShiftRightByte(0xED_B883);
  }

  lemma PolynomialByte2()
    ensures LowBits(0xEDB8, 8) == G2 && ShiftRight(0xEDB8, 8) == 0xED
  {
    ShiftRightByte(0xEDB8);
  }

  lemma PolynomialByte3()
    ensures LowBits(0xED, 8) == G3
  {
  }

  lemma GeneratorCoefficients()
    ensures GENERATOR == [true] + Coefficients(REFLECTED_POLYNOMIAL)
  {
    hide LowBits, ShiftRight, GENERATOR, G0, G1, G2, G3;
    PolynomialByte0();
    PolynomialByte1();
    PolynomialByte2();
    PolynomialByte3();
    GeneratorPowers();
    LowBitsAppend(REFLECTED_POLYNOMIAL, 8, 24);
    LowBitsAppend(0xED_B883, 8, 16);
    LowBitsAppend(0xEDB8, 8, 8);
  }

  /** Feeding one bit: the register moves up one power, and the generator is added when
      the term that moves out, plus the message bit, is one. */
  lemma FeedCoefficients(c: bv32, bit: bool)
    ensures var r := Coefficients(c);
            Coefficients(Feed(c, bit)) == Sum(r[1..] + [false], Scale(r[0] != bit, GENERATOR[1..]))
  {
    var x := Xor(c, Word(bit));
    hide Xor, Half, Odd, Word, Step, GENERATOR, LowBits, Sum, Scale;
    CoefficientsFed(c, bit);
    StepByName(x);
    CoefficientsHalf(x);
    GeneratorCoefficients();
    assert GENERATOR[1..] == Coefficients(REFLECTED_POLYNOMIAL);
    LowBitsXor(Half(x), REFLECTED_POLYNOMIAL, 32);
    var moved := Coefficients(c)[1..] + [false];
    if Odd(x) {
      assert Scale(true, GENERATOR[1..]) == GENERATOR[1..];
    } else {
      assert Sum(moved, Scale(false, GENERATOR[1..])) == moved;
    }
  }

  lemma CoefficientsFed(c: bv32, bit: bool)
    ensures var x, r := Xor(c, Word(bit)), Coefficients(c);
            Odd(x) == (r[0] != bit) && Coefficients(x)[1..] == r[1..]
  {
    hide Xor, Half, Odd, Word, Sum, LowBits;
    var x := Xor(c, Word(bit));
    LowBitsXor(c, Word(bit), 32);
    CoefficientsWord(bit);
    LowBitsFirst(x, 32);
    assert Coefficients(x) == Sum(Coefficients(c), [bit] + Zeros(31));
  }

  // ---- the register is a remainder ---------------------------------------------------

  /** The message polynomial: the message bits times x^32, with the start value added to
      the 32 highest terms. */
  function Dividend(crc: bv32, bits: seq<bool>): (d: Polynomial)
    ensures |d| == |bits| + 32
  {
    Sum(Coefficients(crc) + Zeros(|bits|), bits + Zeros(32))
  }

  lemma DividendLast(crc: bv32, bits: seq<bool>, bit: bool)
    ensures Dividend(crc, bits + [bit])
         == Sum(Dividend(crc, bits), Zeros(|bits|) + [bit] + Zeros(31)) + [false]
  {
    hide Coefficients;
  }

  /** One place of long division, with a message bit brought down. */
  lemma DivisionStep(q: Polynomial, g: Polynomial, r: Polynomial, bit: bool, r': Polynomial)
    requires |g| == |r| + 1 && |r| > 0 && g[0]
    requires r' == Sum(r[1..] + [false], Scale(r[0] != bit, g[1..]))
    ensures Compose(q + [r[0] != bit], g, r')
         == Sum(Compose(q, g, r), Zeros(|q|) + [bit] + Zeros(|r| - 1)) + [false]
  {
    hide Carry, Compose, Sum, Scale;
    ComposeLast(q, r[0] != bit, g, r');
    CarryBack(g, r, bit, r');
    ComposeAdd(q, g, r, [bit] + Zeros(|r| - 1));
    assert Zeros(|q|) + ([bit] + Zeros(|r| - 1)) == Zeros(|q|) + [bit] + Zeros(|r| - 1);
  }

  lemma CarryBack(g: Polynomial, r: Polynomial, bit: bool, r': Polynomial)
    requires |g| == |r| + 1 && |r| > 0 && g[0]
    requires r' == Sum(r[1..] + [false], Scale(r[0] != bit, g[1..]))
    ensures Carry(r[0] != bit, g, r') == Sum(r, [bit] + Zeros(|r| - 1))
    ensures r'[|r| - 1] == ((r[0] != bit) && g[|r|])
  {
    var top := r[0] != bit;
    hide Carry, Sum, Scale;
    forall i | 0 <= i < |r|
      ensures Carry(top, g, r')[i] == Sum(r, [bit] + Zeros(|r| - 1))[i]
    {
      if i > 0 {
        assert r'[i - 1] == (r[i] != (top && g[i]));
      }
    }
  }

  lemma ComposeAdd(q: Polynomial, g: Polynomial, r: Polynomial, e: Polynomial)
    requires |g| == |r| + 1 && |e| == |r|
    ensures Compose(q, g, Sum(r, e)) == Sum(Compose(q, g, r), Zeros(|q|) + e)
  {
  }

  /** The register after a message is the remainder of the message polynomial. */
  lemma {:induction false} RegisterIsRemainder(crc: bv32, bits: seq<bool>) returns (q: Polynomial)
    ensures |q| == |bits|
    ensures Compose(q, GENERATOR, Coefficients(Register(crc, bits))) == Dividend(crc, bits)
    decreases |bits|
  {
    hide Compose, Feed, Coefficients, Sum;
    if bits == [] {
      q := [];
      DividendEmpty(crc);
      ComposeEmpty(GENERATOR, Coefficients(crc));
    } else {
      var n := |bits| - 1;
      var first, bit := bits[..n], bits[n];
      assert bits == first + [bit];
      var q0 := RegisterIsRemainder(crc, first);
      var c0 := Register(crc, first);
      RegisterAppend(crc, first, [bit]);
      assert Register(crc, bits) == Feed(c0, bit);
      q := q0 + [Coefficients(c0)[0] != bit];
      GeneratorLeads();
      FeedCoefficients(c0, bit);
      DivisionStep(q0, GENERATOR, Coefficients(c0), bit, Coefficients(Feed(c0, bit)));
      DividendLast(crc, first, bit);
    }
  }

  lemma DividendEmpty(crc: bv32)
    ensures Dividend(crc, []) == Coefficients(crc)
  {
    hide Coefficients;
  }

  lemma GeneratorLeads()
    ensures |GENERATOR| == 33 && GENERATOR[0] && GENERATOR[32]
  {
  }

  /** Division by the generator has exactly one remainder, the one in the register. */
  lemma RemainderIff(crc: bv32, bits: seq<bool>, r: Polynomial)
    requires |r| == 32
    ensures IsRemainder(Dividend(crc, bits), GENERATOR, r) <==> r == Coefficients(Register(crc, bits))
  {
    hide Compose, Coefficients, Dividend, GENERATOR, Register;
    GeneratorLeads();
    var d := Dividend(crc, bits);
    var q := RegisterIsRemainder(crc, bits);
    if IsRemainder(d, GENERATOR, r) {
      var q' :| |q'| == |d| - |r| && Compose(q', GENERATOR, r) == d;
      DivisionUnique(q, Coefficients(Register(crc, bits)), q', r, GENERATOR);
    }
  }

  // ---- which errors the CRC misses -----------------------------------------------------

  lemma {:induction false} LowBitsInjective(c: bv32, d: bv32, n: nat)
    requires LowBits(c, n) == LowBits(d, n) && ShiftRight(c, n) == ShiftRight(d, n)
    ensures c == d
    decreases n
  {
    hide Half, Odd;
    if n > 0 {
      assert LowBits(c, n)[0] == LowBits(d, n)[0];
      assert LowBits(Half(c), n - 1) == LowBits(c, n)[1..] == LowBits(d, n)[1..];
      LowBitsInjective(Half(c), Half(d), n - 1);
      OddAndHalf(c, d);
    }
  }

  lemma OddAndHalf(c: bv32, d: bv32)
    requires Odd(c) == Odd(d) && Half(c) == Half(d)
    ensures c == d
  {
    LowestBit(c);
    LowestBit(d);
    assert c == ((c >> 1) << 1) | (c & 1);
    assert d == ((d >> 1) << 1) | (d & 1);
  }

  lemma CoefficientsInjective(c: bv32, d: bv32)
    requires Coefficients(c) == Coefficients(d)
    ensures c == d
  {
    hide LowBits, ShiftRight;
    ShiftRightWord(c);
    ShiftRightWord(d);
    LowBitsInjective(c, d, 32);
  }

  /** Two messages of one length collide exactly when the generator divides their difference. */
  lemma CollisionIff(crc: bv32, a: seq<bool>, b: seq<bool>)
    requires |a| == |b|
    ensures Register(crc, a) == Register(crc, b)
       <==> IsRemainder(Sum(a, b) + Zeros(32), GENERATOR, Zeros(32))
  {
    var e := Sum(a, b);
    RegisterLinear(crc, crc, a, b);
    XorRules(crc, crc);
    XorZeroIff(Register(crc, a), Register(crc, b));
    LowBitsOfZero(32);
    DividendOfZero(e);
    hide Coefficients, Dividend, GENERATOR, Register, Xor, Sum, Zeros;
    RemainderIff(0, e, Zeros(32));
    if Coefficients(Register(0, e)) == Coefficients(0) {
      CoefficientsInjective(Register(0, e), 0);
    }
  }

  lemma XorZeroIff(c: bv32, d: bv32)
    ensures Xor(c, d) == 0 <==> c == d
  {
    hide Xor;
    XorRules(c, d);
    XorRules(d, 0);
    XorRules(0, d);
  }

  lemma DividendOfZero(e: seq<bool>)
    ensures Dividend(0, e) == e + Zeros(32)
  {
    LowBitsOfZero(32);
    hide LowBits;
  }

  /** No burst of at most 32 bits is missed, whatever comes before and after it. */
  lemma BurstDetected(crc: bv32, before: seq<bool>, w1: seq<bool>, w2: seq<bool>, after: seq<bool>)
    requires |w1| == |w2| <= 32 && w1 != w2
    ensures Register(crc, before + w1 + after) != Register(crc, before + w2 + after)
  {
    hide Register, Unregister;
    var c := Register(crc, before);
    RegisterAppend(crc, before + w1, after);
    RegisterAppend(crc, before + w2, after);
    RegisterAppend(crc, before, w1);
    RegisterAppend(crc, before, w2);
    UnregisterRegister(Register(c, w1), after);
    UnregisterRegister(Register(c, w2), after);
    ShortBurst(c, w1, w2);
  }

  lemma ShortBurst(crc: bv32, w1: seq<bool>, w2: seq<bool>)
    requires |w1| == |w2| <= 32 && w1 != w2
    ensures Register(crc, w1) != Register(crc, w2)
  {
    hide Register, GENERATOR;
    if Register(crc, w1) == Register(crc, w2) {
      GeneratorLeads();
      CollisionIff(crc, w1, w2);
      var d := Sum(w1, w2) + Zeros(32);
      var q: Polynomial :| |q| == |w1| && Compose(q, GENERATOR, Zeros(32)) == d;
      MultipleByZeroRemainder(q, GENERATOR, 32);
      ShortMultipleIsZero(q, GENERATOR, 32);
      ZeroDifference(w1, w2);
    }
  }

  lemma ZeroDifference(a: Polynomial, b: Polynomial)
    requires |a| == |b| && Sum(a, b) + Zeros(32) == Zeros(|a| + 32)
    ensures a == b
  {
    assert forall i :: 0 <= i < |a| ==> !(Sum(a, b) + Zeros(32))[i];
    assert forall i :: 0 <= i < |a| ==> (Sum(a, b) + Zeros(32))[i] == Sum(a, b)[i];
  }

  lemma MultipleByZeroRemainder(q: Polynomial, g: Polynomial, n: nat)
    requires |g| == n + 1
    ensures Compose(q, g, Zeros(n)) == Times(q, g)
  {
    assert Zeros(|q|) + Zeros(n) == Zeros(|q| + n);
  }

  // ---- the same on bytes -----------------------------------------------------------------

  lemma {:induction false} BitsInjective(a: seq<bv8>, b: seq<bv8>)
    requires |a| == |b| && Bits(a) == Bits(b)
    ensures a == b
    decreases |a|
  {
    hide ByteBits;
    if a != [] {
      assert ByteBits(a[0]) == Bits(a)[..8] == Bits(b)[..8] == ByteBits(b[0]);
      assert Bits(a[1..]) == Bits(a)[8..] == Bits(b)[8..] == Bits(b[1..]);
      ByteBitsInjective(a[0], b[0]);
      BitsInjective(a[1..], b[1..]);
    }
  }

  lemma ByteBitsInjective(x: bv8, y: bv8)
    requires ByteBits(x) == ByteBits(y)
    ensures x == y
  {
    hide LowBits, ShiftRight, DropByte;
    ShiftRightByte(x as bv32);
    ShiftRightByte(y as bv32);
    ByteFits(x);
    ByteFits(y);
    LowBitsInjective(x as bv32, y as bv32, 8);
    ByteWidens(x, y);
  }

  lemma ByteWidens(x: bv8, y: bv8)
    requires x as bv32 == y as bv32
    ensures x == y
  {
  }

  /** Messages of one length, of any length, that differ only inside four consecutive bytes
      never have the same register. */
  lemma FourByteBurstDetected(crc: bv32, a: seq<bv8>, b: seq<bv8>, i: nat)
    requires |a| == |b| && a != b
    requires forall k :: 0 <= k < |a| && (k < i || i + 4 <= k) ==> a[k] == b[k]
    ensures RegisterOfBytes(crc, a) != RegisterOfBytes(crc, b)
  {
    hide Register, Bits;
    var lo := if i < |a| then i else |a|;
    var hi := if i + 4 < |a| then i + 4 else |a|;
    var before, after := a[..lo], a[hi..];
    var w1, w2 := a[lo..hi], b[lo..hi];
    assert b[..lo] == before && b[hi..] == after;
    assert a == before + w1 + after && b == before + w2 + after;
    BitsAppend(before + w1, after);
    BitsAppend(before, w1);
    BitsAppend(before + w2, after);
    BitsAppend(before, w2);
    if Bits(w1) == Bits(w2) {
      BitsInjective(w1, w2);
    }
    BurstDetected(crc, Bits(before), Bits(w1), Bits(w2), Bits(after));
  }
}
