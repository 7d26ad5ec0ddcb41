/** What the CRC register computes (the remainder of a polynomial division) and what it never
    misses (a change confined to 32 consecutive bits). */
module CrcTheorems {
  import opened Base
  import opened Crc

  // ---- polynomial division ---------------------------------------------------------------

  /** The coefficients of x^31 .. x^0 of the CRC-32 generator, whose x^32 is implied. */
  const GENERATOR: seq<bool> :=
    [false, false, false, false, false, true, false, false,    // x^26
     true, true, false, false, false, false, false, true,      // x^23 x^22 x^16
     false, false, false, true, true, true, false, true,       // x^12 x^11 x^10 x^8
     true, false, true, true, false, true, true, true]         // x^7 x^5 x^4 x^2 x 1

  /** Schoolbook long division over GF(2), highest power first: the remainder. */
  function LongDivision(dividend: seq<bool>): (remainder: seq<bool>)
    requires |dividend| >= 32
    ensures |remainder| == 32
    decreases |dividend|
  {
    if |dividend| == 32 then dividend
    else if dividend[0] then LongDivision(XorBits(dividend[1..33], GENERATOR) + dividend[33..])
    else LongDivision(dividend[1..])
  }

  /** The message times x^32, with its first 32 coefficients changed by `preset`. */
  function Dividend(preset: seq<bool>, message: seq<bool>): (d: seq<bool>)
    requires |preset| == 32
    ensures |d| == |message| + 32
  {
    XorBits(message + Zeros(32), preset + Zeros(|message|))
  }

  function Complement(bits: seq<bool>): seq<bool> {
    seq(|bits|, i requires 0 <= i < |bits| => !bits[i])
  }

  lemma LowFour(w: Reg)
    ensures LowBits(w, 4) == [Low(w), Low(Shr(w)), Low(Shr(Shr(w))), Low(Shr(Shr(Shr(w))))]
    ensures ShrN(w, 4) == Shr(Shr(Shr(Shr(w))))
  {
    hide Low, Shr;
    assert LowBits(Shr(Shr(w)), 2) == [Low(Shr(Shr(w))), Low(Shr(Shr(Shr(w))))];
  }

  function EightLows(w: Reg): seq<bool> {
    var x := Shr(Shr(Shr(Shr(w))));
    [Low(w), Low(Shr(w)), Low(Shr(Shr(w))), Low(Shr(Shr(Shr(w)))),
     Low(x), Low(Shr(x)), Low(Shr(Shr(x))), Low(Shr(Shr(Shr(x))))]
  }

  lemma LowEight(w: Reg)
    ensures LowBits(w, 8) == EightLows(w)
  {
    hide Low, Shr, LowBits;
    LowBitsAdd(w, 4, 4);
    LowFour(w);
    LowFour(Shr(Shr(Shr(Shr(w)))));
  }

  lemma LowThirtyTwo(w: Reg)
    ensures LowBits(w, 32)
            == LowBits(w, 8) + LowBits(Shr8(w), 8) + LowBits(Shr8(Shr8(w)), 8) + LowBits(Shr8(Shr8(Shr8(w))), 8)
  {
    LowBitsAdd(w, 24, 8);
    LowBitsAdd(w, 16, 8);
    LowBitsAdd(w, 8, 8);
    ShrBy24(w);
    ShrByEight(w);
    ShrByEight(Shr8(w));
    ShrNAdds(w, 8, 8);
  }

  lemma PolynomialBytes()
    ensures EightLows(Reg(POLYNOMIAL)) == [false, false, false, false, false, true, false, false]
    ensures EightLows(Reg(0xEDB883)) == [true, true, false, false, false, false, false, true]
    ensures EightLows(Reg(0xEDB8)) == [false, false, false, true, true, true, false, true]
    ensures EightLows(Reg(0xED)) == [true, false, true, true, false, true, true, true]
    ensures Shr8(Reg(POLYNOMIAL)) == Reg(0xEDB883) && Shr8(Reg(0xEDB883)) == Reg(0xEDB8)
    ensures Shr8(Reg(0xEDB8)) == Reg(0xED)
  {
  }

  lemma PolynomialIsGenerator()
    ensures LowBits(Reg(POLYNOMIAL), 32) == GENERATOR
  {
    hide LowBits, EightLows, Shr8;
    PolynomialBytes();
    LowThirtyTwo(Reg(POLYNOMIAL));
    LowEight(Reg(POLYNOMIAL));
    LowEight(Reg(0xEDB883));
    LowEight(Reg(0xEDB8));
    LowEight(Reg(0xED));
  }

  lemma OnesBytes()
    ensures EightLows(ONES) == [true, true, true, true, true, true, true, true]
    ensures EightLows(Reg(0xFF_FFFF)) == [true, true, true, true, true, true, true, true]
    ensures EightLows(Reg(0xFFFF)) == [true, true, true, true, true, true, true, true]
    ensures EightLows(Reg(0xFF)) == [true, true, true, true, true, true, true, true]
    ensures Shr8(ONES) == Reg(0xFF_FFFF) && Shr8(Reg(0xFF_FFFF)) == Reg(0xFFFF) && Shr8(Reg(0xFFFF)) == Reg(0xFF)
  {
  }

  lemma AllOnes()
    ensures LowBits(ONES, 32) == Complement(Zeros(32))
  {
    hide LowBits, EightLows, Shr8;
    OnesBytes();
    LowThirtyTwo(ONES);
    LowEight(ONES);
    LowEight(Reg(0xFF_FFFF));
    LowEight(Reg(0xFFFF));
    LowEight(Reg(0xFF));
  }

  lemma {:induction false} LowBitsAdd(w: Reg, m: nat, n: nat)
    ensures LowBits(w, m + n) == LowBits(w, m) + LowBits(ShrN(w, m), n)
    decreases m
  {
    if m > 0 {
      LowBitsAdd(Shr(w), m - 1, n);
    }
  }

  lemma {:induction false} LowBitsXor(a: Reg, b: Reg, n: nat)
    ensures LowBits(Xor(a, b), n) == XorBits(LowBits(a, n), LowBits(b, n))
    decreases n
  {
    hide LowWord, ShrWord, XorWord;
    if n > 0 {
      ShrXor(a, b);
      LowBitsXor(Shr(a), Shr(b), n - 1);
    }
  }

  lemma ShrDropsLow(s: Reg, bit: bool)
    ensures Shr(Xor(s, Unit(bit))) == Shr(s) && Low(Xor(s, Unit(bit))) == (Low(s) != bit)
  {
    ShrXor(s, Unit(bit));
    assert Shr(Unit(bit)) == ZERO;
    XorUnits(Shr(s));
  }

  lemma ShrOnCoefficients(s: Reg)
    ensures LowBits(Shr(s), 32) == LowBits(s, 32)[1..] + [false]
    ensures LowBits(s, 32)[0] == Low(s)
  {
    LowBitsAdd(s, 32, 1);
    ShrAll(s);
    assert !Low(ZERO);
    assert LowBits(ZERO, 1) == [false];
    var whole := LowBits(s, 33);
    assert whole == LowBits(s, 32) + [false];
    assert whole == [Low(s)] + LowBits(Shr(s), 32);
    assert whole[1..] == LowBits(s, 32)[1..] + [false];
  }

  /** One step of the register on coefficients. */
  lemma FeedOnCoefficients(s: Reg, bit: bool)
    ensures var c := LowBits(s, 32);
            LowBits(Feed(s, bit), 32)
            == if c[0] != bit then XorBits(c[1..] + [false], GENERATOR) else c[1..] + [false]
  {
    hide LowWord, ShrWord, XorWord, ShiftWord;
    var x := Xor(s, Unit(bit));
    ShrDropsLow(s, bit);
    ShrOnCoefficients(s);
    ShiftCases(x);
    LowBitsXor(Shr(x), Reg(POLYNOMIAL), 32);
    PolynomialIsGenerator();
  }

  /** The same step on the dividend. */
  lemma DivisionStep(c: seq<bool>, c': seq<bool>, message: seq<bool>)
    requires |c| == 32 && message != []
    requires c' == if c[0] != message[0] then XorBits(c[1..] + [false], GENERATOR) else c[1..] + [false]
    ensures LongDivision(Dividend(c, message)) == LongDivision(Dividend(c', message[1..]))
  {
    var d, d' := Dividend(c, message), Dividend(c', message[1..]);
    assert d' == if d[0] then XorBits(d[1..33], GENERATOR) + d[33..] else d[1..];
  }

  /** The register after a message holds the remainder of the division. */
  lemma {:induction false} RegisterDivides(s: Reg, message: seq<bool>)
    ensures LowBits(FeedAll(s, message), 32) == LongDivision(Dividend(LowBits(s, 32), message))
    decreases message
  {
    hide Feed;
    if message == [] {
      assert Dividend(LowBits(s, 32), message) == LowBits(s, 32);
    } else {
      var s' := Feed(s, message[0]);
      FeedOnCoefficients(s, message[0]);
      DivisionStep(LowBits(s, 32), LowBits(s', 32), message);
      RegisterDivides(s', message[1..]);
    }
  }

  /** crc32 is the complement of the remainder left by the generator in the message times x^32
      with its first 32 coefficients complemented. */
  lemma CrcIsPolynomialRemainder(data: seq<byte>)
    ensures LowBits(Crc32(data), 32) == Complement(LongDivision(Dividend(LowBits(ONES, 32), Bits(data))))
    ensures LowBits(ONES, 32) == Complement(Zeros(32))
  {
    AllOnes();
    RegisterDivides(ONES, Bits(data));
    LowBitsXor(FeedAll(ONES, Bits(data)), ONES, 32);
  }

  // ---- burst detection -------------------------------------------------------------------

  lemma WordShiftOdd(x: bv32)
    requires LowWord(x)
    ensures ShiftWord(x) & 0x8000_0000 != 0
  {
  }

  /** If fewer than 32 bits can empty the register, it held no more bits than that. */
  lemma {:induction false} EmptiedSoon(s: Reg, bits: seq<bool>)
    requires |bits| <= 31 && FeedAll(s, bits) == ZERO
    ensures ShrN(s, |bits|) == ZERO
    decreases bits
  {
    hide LowWord, ShrWord, XorWord, ShiftWord;
    if bits != [] {
      var x, s' := Xor(s, Unit(bits[0])), Feed(s, bits[0]);
      EmptiedSoon(s', bits[1..]);
      ShrDropsLow(s, bits[0]);
      ShiftCases(x);
      if Low(x) {
        WordShiftOdd(x.w);
        ShrKeepsTop(s', |bits| - 1);
      }
    }
  }

  /** Up to 32 bits of difference, the first of them set, leave the register changed. */
  lemma BurstLeavesMark(e: seq<bool>)
    requires 1 <= |e| <= 32 && e[0]
    ensures FeedAll(ZERO, e) != ZERO
  {
    if FeedAll(ZERO, e) == ZERO {
      var s := Feed(ZERO, true);
      assert s == Reg(POLYNOMIAL);
      EmptiedSoon(s, e[1..]);
      ShrKeepsTop(s, |e| - 1);
    }
  }

  lemma PaddedLeavesMark(f: nat, e: seq<bool>, z: nat)
    requires 1 <= |e| <= 32 && e[0]
    ensures FeedAll(ZERO, Zeros(f) + e + Zeros(z)) != ZERO
  {
    hide FeedAll;
    FeedAllAppends(ZERO, Zeros(f) + e, Zeros(z));
    FeedAllAppends(ZERO, Zeros(f), e);
    FeedAllZeros(ZERO, f);
    BurstLeavesMark(e);
    FeedAllZeros(FeedAll(ZERO, e), z);
  }

  lemma WindowLeavesMark(e: seq<bool>, p: nat)
    requires exists k :: 0 <= k < |e| && e[k]
    requires forall k :: 0 <= k < |e| && e[k] ==> p <= k < p + 32
    ensures FeedAll(ZERO, e) != ZERO
  {
    hide FeedAll;
    var f: nat := 0;
    while !e[f]
      invariant f < |e| && forall k :: 0 <= k < f ==> !e[k]
      decreases |e| - f
    {
      f := f + 1;
    }
    var g := if f + 32 <= |e| then f + 32 else |e|;
    PaddedLeavesMark(f, e[f..g], |e| - g);
    assert e == Zeros(f) + e[f..g] + Zeros(|e| - g);
  }

  lemma ByteBitsDiffer(a: byte, b: byte)
    requires LowBits(ByteReg(a), 8) == LowBits(ByteReg(b), 8)
    ensures a == b
  {
    LowEight(ByteReg(a));
    LowEight(ByteReg(b));
    var p, q := EightLows(ByteReg(a)), EightLows(ByteReg(b));
    assert p[0] == q[0] && p[1] == q[1] && p[2] == q[2] && p[3] == q[3]
        && p[4] == q[4] && p[5] == q[5] && p[6] == q[6] && p[7] == q[7];
  }

  lemma {:induction false} BitsDiffer(a: seq<byte>, b: seq<byte>)
    requires |a| == |b| && Bits(a) == Bits(b)
    ensures a == b
    decreases a
  {
    if a != [] {
      assert LowBits(ByteReg(a[0]), 8) == Bits(a)[..8] == Bits(b)[..8] == LowBits(ByteReg(b[0]), 8);
      ByteBitsDiffer(a[0], b[0]);
      assert Bits(a[1..]) == Bits(a)[8..] == Bits(b)[8..] == Bits(b[1..]);
      BitsDiffer(a[1..], b[1..]);
    }
  }

  /** The bits of two payloads agree outside the 32 that start at bit `p`. */
  ghost predicate AgreeOutside(a: seq<byte>, b: seq<byte>, p: nat) {
    && |a| == |b|
    && forall k :: 0 <= k < 8 * |a| && !(p <= k < p + 32) ==> Bits(a)[k] == Bits(b)[k]
  }

  /** Burst detection: two different payloads of one length that differ only inside 32
      consecutive bits, anywhere in a payload of any length, have different CRCs. */
  lemma BurstsAreDetected(a: seq<byte>, b: seq<byte>, p: nat)
    requires AgreeOutside(a, b, p) && a != b
    ensures Crc32(a) != Crc32(b)
  {
    var e := XorBits(Bits(a), Bits(b));
    if forall k :: 0 <= k < |e| ==> !e[k] {
      assert Bits(a) == Bits(b) by {
        assert forall k :: 0 <= k < |e| ==> e[k] == (Bits(a)[k] != Bits(b)[k]);
      }
      BitsDiffer(a, b);
    }
    WindowLeavesMark(e, p);
    FeedAllXor(ONES, ONES, Bits(a), Bits(b));
    XorUnits(ONES);
    XorZero(FeedAll(ONES, Bits(a)), FeedAll(ONES, Bits(b)));
    XorInjective(FeedAll(ONES, Bits(a)), FeedAll(ONES, Bits(b)), ONES);
  }

  lemma XorInjective(a: Reg, b: Reg, c: Reg)
    ensures Xor(a, c) == Xor(b, c) <==> a == b
  {
  }

  // ---- 32 bits in place -----------------------------------------------------------------

  function Twice(k: nat): nat {
    if k == 0 then 1 else 2 * Twice(k - 1)
  }

  /** 2^k steps leave no register but zero as it was: over GF(2) the square of
      "step and xor" is "two steps and xor". */
  lemma {:induction false} NoFixedPoint(x: Reg, k: nat)
    requires ShiftN(x, Twice(k)) == x
    ensures x == ZERO
    decreases k
  {
    hide ShiftWord, XorWord;
    if k == 0 {
      assert ShiftN(x, 1) == Shift(x);
      ShiftFixesOnlyZero(x);
    } else {
      var n := Twice(k - 1);
      var z := ShiftN(x, n);
      ShiftNAdds(x, n, n);
      ShiftNXor(x, z, n);
      XorCommutes(x, z);
      NoFixedPoint(Xor(x, z), k - 1);
      XorZero(x, z);
      NoFixedPoint(x, k - 1);
    }
  }
}
