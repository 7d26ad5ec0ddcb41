/** The CRC-32 of src/storage/wal_engine.c (RFC 1952, section 8): the shift register its
    table-driven loop stands for, and what that register guarantees. */
module Crc {
  import opened Base

  const POLYNOMIAL: bv32 := 0xEDB88320

  /** A register value; bit 0 is the coefficient of the highest power. */
  datatype Reg = Reg(w: bv32)

  const ZERO := Reg(0)
  const ONES := Reg(0xFFFF_FFFF)

  function ShiftWord(c: bv32): bv32 {
    if c & 1 == 1 then (c >> 1) ^ POLYNOMIAL else c >> 1
  }

  function XorWord(a: bv32, b: bv32): bv32 {
    a ^ b
  }

  function ShrWord(a: bv32): bv32 {
    a >> 1
  }

  predicate LowWord(a: bv32) {
    a & 1 == 1
  }

  /** One step of the register. */
  function Shift(r: Reg): Reg {
    Reg(ShiftWord(r.w))
  }

  function Xor(a: Reg, b: Reg): Reg {
    Reg(XorWord(a.w, b.w))
  }

  function Shr(r: Reg): Reg {
    Reg(ShrWord(r.w))
  }

  predicate Low(r: Reg) {
    LowWord(r.w)
  }

  function ShiftN(r: Reg, n: nat): Reg
    decreases n
  {
    if n == 0 then r else ShiftN(Shift(r), n - 1)
  }

  function ShrN(r: Reg, n: nat): Reg
    decreases n
  {
    if n == 0 then r else ShrN(Shr(r), n - 1)
  }

  function Unit(bit: bool): Reg {
    if bit then Reg(1) else ZERO
  }

  function Feed(s: Reg, bit: bool): Reg {
    Shift(Xor(s, Unit(bit)))
  }

  function FeedAll(s: Reg, bits: seq<bool>): Reg
    decreases bits
  {
    if bits == [] then s else FeedAll(Feed(s, bits[0]), bits[1..])
  }

  /** The `n` lowest bits of a word, least significant first. */
  function LowBits(w: Reg, n: nat): (bits: seq<bool>)
    ensures |bits| == n
    decreases n
  {
    if n == 0 then [] else [Low(w)] + LowBits(Shr(w), n - 1)
  }

  function ByteReg(b: byte): Reg {
    Reg(b as bv32)
  }

  /** The bits of a message in the order they are sent. */
  function Bits(data: seq<byte>): (bits: seq<bool>)
    ensures |bits| == 8 * |data|
  {
    if data == [] then [] else LowBits(ByteReg(data[0]), 8) + Bits(data[1..])
  }

  /** What crc32 of the source returns for `data`. */
  function Crc32(data: seq<byte>): Reg {
    Xor(FeedAll(ONES, Bits(data)), ONES)
  }

  // ---- one word -------------------------------------------------------------------------

  lemma WordShrXor(x: bv32, y: bv32)
    ensures (x ^ y) >> 1 == (x >> 1) ^ (y >> 1)
    ensures ((x ^ y) & 1 == 1) == ((x & 1 == 1) != (y & 1 == 1))
  {
  }

  lemma WordXor(a: bv32, b: bv32, p: bv32)
    ensures (a ^ p) ^ (b ^ p) == a ^ b && (a ^ p) ^ b == (a ^ b) ^ p && a ^ (b ^ p) == (a ^ b) ^ p
  {
  }

  lemma WordShift(x: bv32, y: bv32)
    ensures ShiftWord(x ^ y) == ShiftWord(x) ^ ShiftWord(y)
  {
    WordShrXor(x, y);
    WordXor(x >> 1, y >> 1, POLYNOMIAL);
  }

  lemma WordShiftXor(x: bv32, y: bv32)
    ensures ShiftWord(XorWord(x, y)) == XorWord(ShiftWord(x), ShiftWord(y))
  {
    WordShift(x, y);
  }

  lemma WordShrXorLow(x: bv32, y: bv32)
    ensures ShrWord(XorWord(x, y)) == XorWord(ShrWord(x), ShrWord(y))
    ensures LowWord(XorWord(x, y)) == (LowWord(x) != LowWord(y))
  {
    WordShrXor(x, y);
  }

  lemma WordShiftCases(x: bv32)
    ensures ShiftWord(x) == if LowWord(x) then XorWord(ShrWord(x), POLYNOMIAL) else ShrWord(x)
  {
  }

  lemma ShiftXor(x: Reg, y: Reg)
    ensures Shift(Xor(x, y)) == Xor(Shift(x), Shift(y))
  {
    WordShiftXor(x.w, y.w);
  }

  lemma ShrXor(x: Reg, y: Reg)
    ensures Shr(Xor(x, y)) == Xor(Shr(x), Shr(y)) && Low(Xor(x, y)) == (Low(x) != Low(y))
  {
    WordShrXorLow(x.w, y.w);
  }

  lemma ShiftCases(x: Reg)
    ensures Shift(x) == if Low(x) then Xor(Shr(x), Reg(POLYNOMIAL)) else Shr(x)
  {
    WordShiftCases(x.w);
  }

  lemma XorAssociates(a: Reg, b: Reg, c: Reg)
    ensures Xor(Xor(a, b), c) == Xor(a, Xor(b, c))
  {
  }

  lemma XorCommutes(a: Reg, b: Reg)
    ensures Xor(a, b) == Xor(b, a)
  {
  }

  lemma XorUnits(a: Reg)
    ensures Xor(a, ZERO) == a && Xor(ZERO, a) == a && Xor(a, a) == ZERO
  {
  }

  lemma Regroup(a: Reg, b: Reg, c: Reg, d: Reg)
    ensures Xor(Xor(a, b), Xor(c, d)) == Xor(Xor(a, c), Xor(b, d))
  {
  }

  lemma XorZero(a: Reg, b: Reg)
    ensures Xor(a, b) == ZERO <==> a == b
  {
  }

  /** Each step is injective, so the register never forgets a difference. */
  lemma ShiftKeepsNonZero(x: Reg)
    ensures Shift(x) == ZERO <==> x == ZERO
  {
  }

  lemma ShiftFixesOnlyZero(x: Reg)
    requires Shift(x) == x
    ensures x == ZERO
  {
  }

  // ---- many steps -----------------------------------------------------------------------

  lemma {:induction false} ShiftNXor(x: Reg, y: Reg, n: nat)
    ensures ShiftN(Xor(x, y), n) == Xor(ShiftN(x, n), ShiftN(y, n))
    decreases n
  {
    if n > 0 {
      ShiftXor(x, y);
      ShiftNXor(Shift(x), Shift(y), n - 1);
    }
  }

  lemma {:induction false} ShiftNAdds(x: Reg, m: nat, n: nat)
    ensures ShiftN(x, m + n) == ShiftN(ShiftN(x, m), n)
    decreases m
  {
    if m > 0 {
      ShiftNAdds(Shift(x), m - 1, n);
    }
  }

  lemma {:induction false} ShrNAdds(x: Reg, m: nat, n: nat)
    ensures ShrN(x, m + n) == ShrN(ShrN(x, m), n)
    decreases m
  {
    if m > 0 {
      ShrNAdds(Shr(x), m - 1, n);
    }
  }

  function Shr8Word(a: bv32): bv32 {
    a >> 8
  }

  function Shr8(r: Reg): Reg {
    Reg(Shr8Word(r.w))
  }

  lemma WordShrEight(x: bv32)
    ensures ShrWord(ShrWord(ShrWord(ShrWord(ShrWord(ShrWord(ShrWord(ShrWord(x)))))))) == Shr8Word(x)
  {
  }

  lemma ShrByEight(x: Reg)
    ensures ShrN(x, 8) == Shr8(x)
  {
    WordShrEight(x.w);
    var y := Shr(Shr(Shr(Shr(x))));
    assert ShrN(x, 4) == y;
    assert ShrN(y, 4) == Shr(Shr(Shr(Shr(y))));
    ShrNAdds(x, 4, 4);
  }

  lemma ShrBy24(x: Reg)
    ensures ShrN(x, 24) == Shr8(Shr8(Shr8(x)))
  {
    ShrByEight(x);
    ShrByEight(Shr8(x));
    ShrByEight(Shr8(Shr8(x)));
    ShrNAdds(x, 8, 8);
    ShrNAdds(x, 16, 8);
  }

  lemma WordShrAll(x: bv32)
    ensures Shr8Word(Shr8Word(Shr8Word(Shr8Word(x)))) == 0
  {
  }

  lemma ShrAll(x: Reg)
    ensures ShrN(x, 32) == ZERO
  {
    ShrBy24(x);
    ShrByEight(Shr8(Shr8(Shr8(x))));
    WordShrAll(x.w);
    ShrNAdds(x, 24, 8);
  }

  lemma WordShr31(x: bv32)
    requires x & 0x8000_0000 != 0
    ensures ShrWord(ShrWord(ShrWord(ShrWord(ShrWord(ShrWord(ShrWord(Shr8Word(Shr8Word(Shr8Word(x)))))))))) != 0
  {
  }

  /** A register whose top bit is set is not emptied by fewer than 32 right shifts. */
  lemma ShrKeepsTop(x: Reg, n: nat)
    requires x.w & 0x8000_0000 != 0 && n <= 31
    ensures ShrN(x, n) != ZERO
  {
    ShrBy24(x);
    WordShr31(x.w);
    var y := Shr8(Shr8(Shr8(x)));
    var z := Shr(Shr(Shr(Shr(y))));
    assert ShrN(y, 4) == z;
    assert ShrN(z, 3) == Shr(Shr(Shr(z)));
    ShrNAdds(y, 4, 3);
    ShrNAdds(x, 24, 7);
    ShrNAdds(x, n, 31 - n);
    ShrNZero(31 - n);
  }

  lemma {:induction false} ShrNZero(n: nat)
    ensures ShrN(ZERO, n) == ZERO
  {
    if n > 0 {
      assert Shr(ZERO) == ZERO;
      ShrNZero(n - 1);
    }
  }

  // ---- feeding bits ---------------------------------------------------------------------

  function XorBits(a: seq<bool>, b: seq<bool>): (c: seq<bool>)
    requires |a| == |b|
    ensures |c| == |a|
  {
    seq(|a|, i requires 0 <= i < |a| => a[i] != b[i])
  }

  function Zeros(n: nat): (z: seq<bool>)
    ensures |z| == n
  {
    seq(n, _ => false)
  }

  lemma FeedXor(s: Reg, t: Reg, x: bool, y: bool)
    ensures Feed(Xor(s, t), x != y) == Xor(Feed(s, x), Feed(t, y))
  {
    assert Xor(Unit(x), Unit(y)) == Unit(x != y);
    Regroup(s, t, Unit(x), Unit(y));
    ShiftXor(Xor(s, Unit(x)), Xor(t, Unit(y)));
  }

  /** The register is linear: two runs differ by the run of the difference. */
  lemma {:induction false} FeedAllXor(s: Reg, t: Reg, a: seq<bool>, b: seq<bool>)
    requires |a| == |b|
    ensures FeedAll(Xor(s, t), XorBits(a, b)) == Xor(FeedAll(s, a), FeedAll(t, b))
    decreases a
  {
    if a != [] {
      FeedXor(s, t, a[0], b[0]);
      assert XorBits(a, b)[1..] == XorBits(a[1..], b[1..]);
      FeedAllXor(Feed(s, a[0]), Feed(t, b[0]), a[1..], b[1..]);
    }
  }

  lemma {:induction false} FeedAllAppends(s: Reg, a: seq<bool>, b: seq<bool>)
    ensures FeedAll(s, a + b) == FeedAll(FeedAll(s, a), b)
    decreases a
  {
    if a == [] {
      assert a + b == b;
    } else {
      assert (a + b)[1..] == a[1..] + b;
      FeedAllAppends(Feed(s, a[0]), a[1..], b);
    }
  }

  /** Zero bits neither create nor hide a difference. */
  lemma {:induction false} FeedAllZeros(s: Reg, n: nat)
    ensures FeedAll(s, Zeros(n)) == ZERO <==> s == ZERO
    decreases n
  {
    if n > 0 {
      assert Zeros(n)[1..] == Zeros(n - 1);
      XorUnits(s);
      ShiftKeepsNonZero(s);
      FeedAllZeros(Shift(s), n - 1);
    }
  }

  lemma WordSplit(w: bv32)
    ensures XorWord(w & 1, w & 0xFFFF_FFFE) == w && ShiftWord(w & 0xFFFF_FFFE) == ShrWord(w)
  {
  }

  lemma FeedLowBit(s: Reg, w: Reg)
    ensures Xor(Feed(s, Low(w)), Shr(w)) == Shift(Xor(s, w))
  {
    var low, rest := Unit(Low(w)), Reg(w.w & 0xFFFF_FFFE);
    WordSplit(w.w);
    assert low.w == w.w & 1;
    assert Xor(low, rest) == w && Shift(rest) == Shr(w);
    XorAssociates(s, low, rest);
    ShiftXor(Xor(s, low), rest);
  }

  /** Feeding the low bits of a word one at a time is the same as xoring the word in first. */
  lemma {:induction false} FeedWord(s: Reg, w: Reg, n: nat)
    ensures FeedAll(s, LowBits(w, n)) == Xor(ShiftN(Xor(s, w), n), ShrN(w, n))
    decreases n
  {
    if n == 0 {
      XorAssociates(s, w, w);
      XorUnits(s);
      XorUnits(w);
    } else {
      var bits := LowBits(w, n);
      assert bits[1..] == LowBits(Shr(w), n - 1);
      FeedLowBit(s, w);
      FeedWord(Feed(s, Low(w)), Shr(w), n - 1);
    }
  }
}
