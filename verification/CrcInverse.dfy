/** Which register plus its own 32 steps gives a wanted one: the map is one-to-one, and its inverse
    is written out. Over GF(2) the square of "f and xor" is "f twice and xor", so doing "f and
    xor" 32 times is doing f 32 times, and xor. */
module CrcInverse {
  import opened Crc
  import opened CrcTheorems

  function Times(f: Reg -> Reg, n: nat, x: Reg): Reg
    decreases n
  {
    if n == 0 then x else Times(f, n - 1, f(x))
  }

  ghost predicate Linear(f: Reg -> Reg) {
    forall a, b {:trigger f(Xor(a, b))} :: f(Xor(a, b)) == Xor(f(a), f(b))
  }

  /** "f and xor". */
  function AndXor(f: Reg -> Reg): Reg -> Reg {
    x => Xor(x, f(x))
  }

  lemma {:induction false} TimesAdds(f: Reg -> Reg, m: nat, n: nat, x: Reg)
    ensures Times(f, m + n, x) == Times(f, n, Times(f, m, x))
    decreases m
  {
    if m > 0 {
      TimesAdds(f, m - 1, n, f(x));
    }
  }

  lemma {:induction false} TimesLinear(f: Reg -> Reg, n: nat, a: Reg, b: Reg)
    requires Linear(f)
    ensures Times(f, n, Xor(a, b)) == Xor(Times(f, n, a), Times(f, n, b))
    decreases n
  {
    hide Xor;
    if n > 0 {
      TimesLinear(f, n - 1, f(a), f(b));
    }
  }

  lemma Telescope(a: Reg, b: Reg, c: Reg)
    ensures Xor(Xor(a, b), Xor(b, c)) == Xor(a, c)
  {
  }

  lemma Once(f: Reg -> Reg, x: Reg)
    ensures Times(f, 1, x) == f(x)
  {
    assert Times(f, 1, x) == Times(f, 0, f(x));
  }

  lemma {:induction false} AndXorTwice(f: Reg -> Reg, k: nat, x: Reg)
    requires Linear(f)
    ensures Times(AndXor(f), Twice(k), x) == Xor(x, Times(f, Twice(k), x))
    decreases k
  {
    hide Xor, Times, Linear;
    if k == 0 {
      Once(AndXor(f), x);
      Once(f, x);
    } else {
      var n := Twice(k - 1);
      var y := Times(f, n, x);
      var z := Times(f, n, y);
      TimesAdds(AndXor(f), n, n, x);
      TimesAdds(f, n, n, x);
      AndXorTwice(f, k - 1, x);
      AndXorTwice(f, k - 1, Xor(x, y));
      TimesLinear(f, n, x, y);
      Telescope(x, y, z);
    }
  }

  lemma {:induction false} TimesShift(n: nat, x: Reg)
    ensures Times(Shift, n, x) == ShiftN(x, n)
    decreases n
  {
    if n > 0 {
      TimesShift(n - 1, Shift(x));
    }
  }

  lemma {:induction false} TimesShr(n: nat, x: Reg)
    ensures Times(Shr, n, x) == ShrN(x, n)
    decreases n
  {
    if n > 0 {
      TimesShr(n - 1, Shr(x));
    }
  }

  lemma ShiftAndShrAreLinear()
    ensures Linear(Shift) && Linear(Shr)
  {
    forall a, b
      ensures Shift(Xor(a, b)) == Xor(Shift(a), Shift(b)) && Shr(Xor(a, b)) == Xor(Shr(a), Shr(b))
    {
      ShiftXor(a, b);
      ShrXor(a, b);
    }
  }

  // ---- undoing one step -------------------------------------------------------------------

  /** Each bit the xor of itself and all above; bit 0 is the parity of the whole. */
  function Prefixes(z: Reg): Reg {
    Times(AndXor(Shr), 31, z)
  }

  /** A register is shifted out after 32 places, so 31 times undoes once. */
  lemma PrefixesUndo(z: Reg)
    ensures Xor(Prefixes(z), Shr(Prefixes(z))) == z
  {
    hide Xor, Shr, Times, ShrN;
    ShiftAndShrAreLinear();
    assert Twice(5) == 32;
    AndXorTwice(Shr, 5, z);
    TimesShr(32, z);
    ShrAll(z);
    XorUnits(z);
    TimesAdds(AndXor(Shr), 31, 1, z);
    Once(AndXor(Shr), Prefixes(z));
  }

  /** The register that, with its next value, xors to `y`. */
  function Solve(y: Reg): Reg {
    Prefixes(if Low(Prefixes(y)) then Xor(y, Reg(POLYNOMIAL)) else y)
  }

  /** Prefixes by doubling: 31 = 1 + 2 + 4 + 8 + 16. */
  lemma PrefixesByDoubling(z: Reg)
    ensures var a := Xor(z, ShrN(z, 1)); var b := Xor(a, ShrN(a, 2)); var c := Xor(b, ShrN(b, 4));
            var d := Xor(c, ShrN(c, 8)); Prefixes(z) == Xor(d, ShrN(d, 16))
  {
    hide Times, ShrN, Xor;
    ShiftAndShrAreLinear();
    var f := AndXor(Shr);
    var a := Xor(z, ShrN(z, 1));
    var b := Xor(a, ShrN(a, 2));
    var c := Xor(b, ShrN(b, 4));
    var d := Xor(c, ShrN(c, 8));
    Doubling(0, z);
    Doubling(1, a);
    Doubling(2, b);
    Doubling(3, c);
    Doubling(4, d);
    TimesAdds(f, 1, 30, z);
    TimesAdds(f, 2, 28, a);
    TimesAdds(f, 4, 24, b);
    TimesAdds(f, 8, 16, c);
  }

  lemma Doubling(k: nat, z: Reg)
    requires k <= 4
    ensures Times(AndXor(Shr), [1, 2, 4, 8, 16][k], z) == Xor(z, ShrN(z, [1, 2, 4, 8, 16][k]))
  {
    hide Times, ShrN, Xor;
    ShiftAndShrAreLinear();
    assert Twice(0) == 1 && Twice(1) == 2 && Twice(2) == 4 && Twice(3) == 8 && Twice(4) == 16;
    AndXorTwice(Shr, k, z);
    TimesShr(Twice(k), z);
  }

  lemma Shr2And4(z: Reg)
    ensures ShrN(z, 1) == Shr(z) && ShrN(z, 2) == Shr(Shr(z)) && ShrN(z, 4) == Shr(Shr(Shr(Shr(z))))
    ensures ShrN(z, 8) == Shr8(z) && ShrN(z, 16) == Shr8(Shr8(z))
  {
    hide Shr, Shr8;
    assert ShrN(Shr(Shr(z)), 2) == Shr(Shr(Shr(Shr(z))));
    ShrByEight(z);
    ShrByEight(Shr8(z));
    ShrNAdds(z, 8, 8);
  }

  /** The folds of the polynomial, one by one. */
  lemma FoldedConstants()
    ensures Xor(Reg(POLYNOMIAL), Shr(Reg(POLYNOMIAL))) == Reg(0x9B64_C2B0)
    ensures Xor(Reg(0x9B64_C2B0), Shr(Shr(Reg(0x9B64_C2B0)))) == Reg(0xBDBD_F21C)
    ensures Xor(Reg(0xBDBD_F21C), Shr(Shr(Shr(Shr(Reg(0xBDBD_F21C)))))) == Reg(0xB666_2D3D)
    ensures Xor(Reg(0xB666_2D3D), Shr8(Reg(0xB666_2D3D))) == Reg(0xB6D0_4B10)
    ensures Xor(Reg(0xB6D0_4B10), Shr8(Shr8(Reg(0xB6D0_4B10)))) == Reg(0xB6D0_FDC0)
    ensures !Low(Reg(0xB6D0_FDC0))
  {
  }

  /** The polynomial has an even number of ones. */
  lemma PolynomialIsEven()
    ensures !Low(Prefixes(Reg(POLYNOMIAL)))
  {
    hide Xor, Shr, Shr8, Low, Prefixes, ShrN;
    FoldedConstants();
    PrefixesByDoubling(Reg(POLYNOMIAL));
    Shr2And4(Reg(POLYNOMIAL));
    Shr2And4(Reg(0x9B64_C2B0));
    Shr2And4(Reg(0xBDBD_F21C));
    Shr2And4(Reg(0xB666_2D3D));
    Shr2And4(Reg(0xB6D0_4B10));
  }

  lemma LowXor(a: Reg, b: Reg)
    ensures Low(Xor(a, b)) <==> Low(a) != Low(b)
  {
    WordShrXorLow(a.w, b.w);
  }

  lemma AndXorIsLinear(f: Reg -> Reg)
    requires Linear(f)
    ensures Linear(AndXor(f))
  {
    hide Xor;
    forall a, b
      ensures AndXor(f)(Xor(a, b)) == Xor(AndXor(f)(a), AndXor(f)(b))
    {
      Regroup(a, b, f(a), f(b));
    }
  }

  lemma SolveSolves(y: Reg)
    ensures AndXor(Shift)(Solve(y)) == y
  {
    hide Xor, Shr, Low, Shift, Prefixes;
    var p, x := Reg(POLYNOMIAL), Solve(y);
    SolvedLow(y);
    PrefixesUndo(y);
    PrefixesUndo(Xor(y, p));
    ShiftCases(x);
    XorAssociates(x, Shr(x), p);
    XorAssociates(y, p, p);
    XorUnits(y);
    XorUnits(p);
  }

  lemma SolvedLow(y: Reg)
    ensures Low(Solve(y)) == Low(Prefixes(y))
  {
    hide Xor, Shr, Low, Times;
    ShiftAndShrAreLinear();
    AndXorIsLinear(Shr);
    TimesLinear(AndXor(Shr), 31, y, Reg(POLYNOMIAL));
    PolynomialIsEven();
    LowXor(Prefixes(y), Prefixes(Reg(POLYNOMIAL)));
  }

  // ---- undoing 32 -------------------------------------------------------------------------

  lemma {:induction false} SolveTimes(n: nat, y: Reg)
    ensures Times(AndXor(Shift), n, Times(Solve, n, y)) == y
    decreases n
  {
    hide Solve, AndXor;
    if n > 0 {
      TimesAdds(Solve, n - 1, 1, y);
      Once(Solve, Times(Solve, n - 1, y));
      SolveSolves(Times(Solve, n - 1, y));
      SolveTimes(n - 1, y);
    }
  }

  /** The register that xors to `y` with itself 32 steps on. */
  function Solve32(y: Reg): Reg {
    Times(Solve, 32, y)
  }

  lemma Solve32Solves(y: Reg)
    ensures Xor(Solve32(y), ShiftN(Solve32(y), 32)) == y
  {
    hide Xor, Shift, Solve, Times, AndXor;
    ShiftAndShrAreLinear();
    SolveTimes(32, y);
    assert Twice(5) == 32;
    AndXorTwice(Shift, 5, Solve32(y));
    TimesShift(32, Solve32(y));
  }

  /** And it is the only one. */
  lemma Solve32Exactly(x: Reg, y: Reg)
    ensures Xor(x, ShiftN(x, 32)) == y <==> x == Solve32(y)
  {
    hide Xor, Solve32, ShiftN;
    var z := Solve32(y);
    Solve32Solves(y);
    if Xor(x, ShiftN(x, 32)) == y {
      Regroup(x, ShiftN(x, 32), z, ShiftN(z, 32));
      ShiftNXor(x, z, 32);
      XorZero(y, y);
      XorZero(Xor(x, z), ShiftN(Xor(x, z), 32));
      assert Twice(5) == 32;
      NoFixedPoint(Xor(x, z), 5);
      XorZero(x, z);
    }
  }
}
