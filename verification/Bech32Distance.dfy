module Bech32Distance {
  // Why the Bech32 checksum detects up to three errors within 1023 characters: the generator vanishes at
  // three consecutive powers of an element of order 1023.

  import opened Bech32
  import opened Bech32Poly
  import opened Field1024
  import opened Positional

  //////////////////////////////////////////////////////////////////////////////
  // Powers of z
  //////////////////////////////////////////////////////////////////////////////

  function Alpha(n: nat): Ext { if n == 0 then ONE else Up(Alpha(n - 1)) }

  lemma {:induction false} AlphaSmall(n: nat)
    ensures Small(Alpha(n))
  {
    hide Up;
    if n > 0 {
      AlphaSmall(n - 1);
      UpSmall(Alpha(n - 1));
    }
  }

  lemma {:induction false} AlphaAdd(m: nat, n: nat)
    ensures Alpha(m + n) == Prod(Alpha(m), Alpha(n))
  {
    hide Up, Prod, Small;
    var y := Alpha(n);
    AlphaSmall(n);
    OneSmall();
    if m == 0 {
      ProdOne(y);
      ProdComm(y, ONE);
    } else {
      var x := Alpha(m - 1);
      AlphaAdd(m - 1, n);
      AlphaSmall(m - 1);
      UpSmall(x);
      ProdComm(Up(x), y);
      ProdUp(y, x);
      ProdComm(y, x);
    }
  }

  lemma OneSmall()
    ensures Small(ONE) && Small(ZERO) && ONE != ZERO && Alpha(0) == ONE
  {
  }

  //////////////////////////////////////////////////////////////////////////////
  // The order of z
  //////////////////////////////////////////////////////////////////////////////

  // Multiplication written out in bits, for the computations below.

  /** The sum so far, and x if the bit n of c is set. */
  function More(c: bv8, n: bv8, sum: bv8, x: bv8): bv8 { if c & n != 0 then sum ^ x else sum }

  lemma MoreIs(c: bv8, n: bv8, sum: bv8, x: bv8)
    ensures X8(sum, Part(Bit(c, n), x)) == More(c, n, sum, x) && Part(Bit(c, n), x) == More(c, n, 0, x)
  {
  }

  function Mix(c: bv8, x1: bv8, x2: bv8, x4: bv8, x8: bv8, x16: bv8): bv8 {
    More(c, 16, More(c, 8, More(c, 4, More(c, 2, More(c, 1, 0, x1), x2), x4), x8), x16)
  }

  lemma SumMix(c: bv8, x1: bv8, x2: bv8, x4: bv8, x8: bv8, x16: bv8)
    ensures Sum(c, x1, x2, x4, x8, x16) == Mix(c, x1, x2, x4, x8, x16)
  {
    hide X8, Part, Bit, More;
    var s1 := More(c, 1, 0, x1);
    var s2 := More(c, 2, s1, x2);
    var s4 := More(c, 4, s2, x4);
    MoreIs(c, 1, 0, x1);
    MoreIs(c, 2, s1, x2);
    MoreIs(c, 4, s2, x4);
    MoreIs(c, 8, s4, x8);
    MoreIs(c, 16, More(c, 8, s4, x8), x16);
  }

  function BitMul(c: bv8, x: bv8): bv8 {
    var x2 := TimesA(x);
    var x4 := TimesA(x2);
    var x8 := TimesA(x4);
    Mix(c, x, x2, x4, x8, TimesA(x8))
  }

  lemma BitMulIs(c: bv8, x: bv8)
    ensures Mul(c, x) == BitMul(c, x)
  {
    hide Sum, Mix, TimesA;
    var x2 := TimesA(x);
    var x4 := TimesA(x2);
    var x8 := TimesA(x4);
    SumMix(c, x, x2, x4, x8, TimesA(x8));
  }

  lemma BitUp(x: Ext)
    ensures Up(x) == Ext(X8(x.lo, BitMul(6, x.hi)), BitMul(19, x.hi))
  {
    hide Mul, BitMul, X8;
    BitMulIs(6, x.hi);
    BitMulIs(19, x.hi);
  }

  lemma BitProd(x: Ext, y: Ext)
    ensures var u, w := X8(y.lo, BitMul(6, y.hi)), BitMul(19, y.hi);
      Prod(x, y) == Ext(X8(BitMul(x.hi, u), BitMul(x.lo, y.hi)), X8(BitMul(x.hi, w), BitMul(x.lo, y.lo)))
  {
    hide Mul, BitMul, X8;
    BitUp(y);
    BitMulIs(x.hi, Up(y).hi);
    BitMulIs(x.hi, Up(y).lo);
    BitMulIs(x.lo, y.hi);
    BitMulIs(x.lo, y.lo);
  }

  // Products of powers, each by itself.

  lemma Up0(x: Ext) requires x == ONE ensures Up(x) == Ext(1, 0) { hide Up; BitUp(x); }
  lemma Up24(x: Ext) requires x == Ext(4, 8) ensures Up(x) == Ext(16, 30) { hide Up; BitUp(x); }
  lemma Up25(x: Ext) requires x == Ext(16, 30) ensures Up(x) == Ext(5, 3) { hide Up; BitUp(x); }
  lemma To2(x: Ext, y: Ext) requires x == Ext(1, 0) && y == Ext(1, 0) ensures Prod(x, y) == Ext(6, 19) { hide Prod; BitProd(x, y); }
  lemma To4(x: Ext, y: Ext) requires x == Ext(6, 19) && y == Ext(6, 19) ensures Prod(x, y) == Ext(3, 2) { hide Prod; BitProd(x, y); }
  lemma To8(x: Ext, y: Ext) requires x == Ext(3, 2) && y == Ext(3, 2) ensures Prod(x, y) == Ext(30, 9) { hide Prod; BitProd(x, y); }
  lemma To16(x: Ext, y: Ext) requires x == Ext(30, 9) && y == Ext(30, 9) ensures Prod(x, y) == Ext(26, 27) { hide Prod; BitProd(x, y); }
  lemma To24(x: Ext, y: Ext) requires x == Ext(26, 27) && y == Ext(30, 9) ensures Prod(x, y) == Ext(4, 8) { hide Prod; BitProd(x, y); }
  lemma To5(x: Ext, y: Ext) requires x == Ext(3, 2) && y == Ext(1, 0) ensures Prod(x, y) == Ext(8, 28) { hide Prod; BitProd(x, y); }
  lemma To32(x: Ext, y: Ext) requires x == Ext(26, 27) && y == Ext(26, 27) ensures Prod(x, y) == Ext(1, 6) { hide Prod; BitProd(x, y); }
  lemma To33(x: Ext, y: Ext) requires x == Ext(1, 6) && y == Ext(1, 0) ensures Prod(x, y) == Ext(0, 19) { hide Prod; BitProd(x, y); }
  lemma To64(x: Ext, y: Ext) requires x == Ext(1, 6) && y == Ext(1, 6) ensures Prod(x, y) == Ext(6, 7) { hide Prod; BitProd(x, y); }
  lemma To128(x: Ext, y: Ext) requires x == Ext(6, 7) && y == Ext(6, 7) ensures Prod(x, y) == Ext(3, 8) { hide Prod; BitProd(x, y); }
  lemma To256(x: Ext, y: Ext) requires x == Ext(3, 8) && y == Ext(3, 8) ensures Prod(x, y) == Ext(30, 31) { hide Prod; BitProd(x, y); }
  lemma To29(x: Ext, y: Ext) requires x == Ext(4, 8) && y == Ext(8, 28) ensures Prod(x, y) == Ext(6, 16) { hide Prod; BitProd(x, y); }
  lemma To93(x: Ext, y: Ext) requires x == Ext(6, 7) && y == Ext(6, 16) ensures Prod(x, y) == Ext(10, 22) { hide Prod; BitProd(x, y); }
  lemma To21(x: Ext, y: Ext) requires x == Ext(26, 27) && y == Ext(8, 28) ensures Prod(x, y) == Ext(14, 9) { hide Prod; BitProd(x, y); }
  lemma To85(x: Ext, y: Ext) requires x == Ext(6, 7) && y == Ext(14, 9) ensures Prod(x, y) == Ext(27, 14) { hide Prod; BitProd(x, y); }
  lemma To341(x: Ext, y: Ext) requires x == Ext(30, 31) && y == Ext(27, 14) ensures Prod(x, y) == Ext(12, 13) { hide Prod; BitProd(x, y); }
  lemma To682(x: Ext, y: Ext) requires x == Ext(12, 13) && y == Ext(12, 13) ensures Prod(x, y) == Ext(12, 12) { hide Prod; BitProd(x, y); }
  lemma To1023(x: Ext, y: Ext) requires x == Ext(12, 12) && y == Ext(12, 13) ensures Prod(x, y) == ONE { hide Prod; BitProd(x, y); }

  lemma AlphaUp(n: nat)
    ensures Alpha(n + 1) == Up(Alpha(n))
  {
  }

  lemma LowPowers()
    ensures Alpha(1) == Ext(1, 0) && Alpha(4) == Ext(3, 2) && Alpha(8) == Ext(30, 9) && Alpha(16) == Ext(26, 27)
    ensures Alpha(5) == Ext(8, 28) && Alpha(24) == Ext(4, 8) && Alpha(25) == Ext(16, 30) && Alpha(26) == Ext(5, 3)
  {
    hide Up, Prod, Alpha;
    OneSmall();
    AlphaUp(0);
    AlphaUp(24);
    AlphaUp(25);
    Up0(ONE);
    AlphaAdd(1, 1);
    To2(Alpha(1), Alpha(1));
    AlphaAdd(2, 2);
    To4(Alpha(2), Alpha(2));
    AlphaAdd(4, 4);
    To8(Alpha(4), Alpha(4));
    AlphaAdd(8, 8);
    To16(Alpha(8), Alpha(8));
    AlphaAdd(16, 8);
    To24(Alpha(16), Alpha(8));
    Up24(Alpha(24));
    Up25(Alpha(25));
    AlphaAdd(4, 1);
    To5(Alpha(4), Alpha(1));
  }

  lemma HighPowers()
    ensures Alpha(33) != ONE && Alpha(93) != ONE && Alpha(341) != ONE && Alpha(1023) == ONE
  {
    hide Up, Prod, Alpha;
    LowPowers();
    AlphaAdd(16, 16);
    To32(Alpha(16), Alpha(16));
    AlphaAdd(32, 1);
    To33(Alpha(32), Alpha(1));
    AlphaAdd(32, 32);
    To64(Alpha(32), Alpha(32));
    AlphaAdd(64, 64);
    To128(Alpha(64), Alpha(64));
    AlphaAdd(128, 128);
    To256(Alpha(128), Alpha(128));
    AlphaAdd(24, 5);
    To29(Alpha(24), Alpha(5));
    AlphaAdd(64, 29);
    To93(Alpha(64), Alpha(29));
    AlphaAdd(16, 5);
    To21(Alpha(16), Alpha(5));
    AlphaAdd(64, 21);
    To85(Alpha(64), Alpha(21));
    AlphaAdd(256, 85);
    To341(Alpha(256), Alpha(85));
    AlphaAdd(341, 341);
    To682(Alpha(341), Alpha(341));
    AlphaAdd(682, 341);
    To1023(Alpha(682), Alpha(341));
  }

  lemma {:induction false} AlphaTimes(e: nat, q: nat)
    requires Alpha(e) == ONE
    ensures Alpha(e * q) == ONE
  {
    hide Prod, Alpha;
    OneSmall();
    if q == 0 {
      assert e * q == 0;
    } else {
      AlphaTimes(e, q - 1);
      assert e * q == e + e * (q - 1);
      AlphaAdd(e, e * (q - 1));
      ProdOne(ONE);
    }
  }

  /** The least exponent that gives one. */
  lemma {:induction false} Least(d: nat) returns (e: nat)
    requires d > 0 && Alpha(d) == ONE
    ensures 0 < e <= d && Alpha(e) == ONE && forall r :: 0 < r < e ==> Alpha(r) != ONE
  {
    hide Alpha;
    if r :| 0 < r < d && Alpha(r) == ONE {
      e := Least(r);
    } else {
      e := d;
    }
  }

  lemma LeastDivides(e: nat) returns (q: nat)
    requires e > 0 && Alpha(e) == ONE && forall r :: 0 < r < e ==> Alpha(r) != ONE
    ensures e * q == 1023
  {
    hide Prod, Alpha;
    NotNegative(1023, e);
    q := 1023 / e;
    var r := 1023 % e;
    assert 1023 == e * q + r;
    AlphaTimes(e, q);
    HighPowers();
    AlphaAdd(r, e * q);
    AlphaSmall(r);
    ProdOne(Alpha(r));
  }

  /** 1023 is 3 * 11 * 31. */
  lemma SmallDivisors(k: nat, j: nat)
    requires 0 < k <= 31 && k * j == 1023
    ensures k == 1 || k == 3 || k == 11 || k == 31
  {
    assert k != 2 && k != 4 && k != 5 && k != 6 && k != 7 && k != 8 && k != 9 && k != 10 && k != 12;
    assert k != 13 && k != 14 && k != 15 && k != 16 && k != 17 && k != 18 && k != 19 && k != 20 && k != 21;
    assert k != 22 && k != 23 && k != 24 && k != 25 && k != 26 && k != 27 && k != 28 && k != 29 && k != 30;
  }

  lemma ProperDivisor(e: nat, q: nat)
    requires e < 1023 && e * q == 1023
    ensures (e == 1 || e == 3 || e == 11 || e == 31) || e == 341 || e == 93 || e == 33
  {
    if e <= 31 {
      SmallDivisors(e, q);
    } else {
      assert q <= 31 by {
        if q >= 32 {
          MulMono(32, e, 32, q);
        }
      }
      SmallDivisors(q, e);
    }
  }

  /** No smaller power of z than the 1023rd is one. */
  lemma Order(d: nat)
    requires 0 < d < 1023
    ensures Alpha(d) != ONE
  {
    hide Alpha;
    if Alpha(d) == ONE {
      var e := Least(d);
      var q := LeastDivides(e);
      ProperDivisor(e, q);
      HighPowers();
      AlphaTimes(e, 341);
      AlphaTimes(e, 31);
      AlphaTimes(e, 3);
      assert false;
    }
  }

  lemma {:induction false} AlphaNotZero(n: nat)
    ensures Alpha(n) != ZERO
  {
    hide Prod, Alpha, Small;
    OneSmall();
    if n > 0 {
      AlphaNotZero(n - 1);
      AlphaSmall(n - 1);
      AlphaSmall(1);
      LowPowers();
      AlphaAdd(n - 1, 1);
      if Alpha(n) == ZERO {
        NoZeroProd(Alpha(n - 1), Alpha(1));
        assert false;
      }
    }
  }

  //////////////////////////////////////////////////////////////////////////////
  // Evaluating polynomials
  //////////////////////////////////////////////////////////////////////////////

  function Horner(r: Ext, e: Ext, c: bv8): Ext { Plus(Prod(r, e), Ext(0, c)) }

  /** The value at r of the polynomial with the given coefficients, the highest first. */
  function Ev(r: Ext, d: Data): Ext {
    if d == [] then ZERO else Horner(r, Ev(r, d[..|d| - 1]), d[|d| - 1])
  }

  lemma EvSnoc(r: Ext, d: Data, c: bv8)
    ensures Ev(r, d + [c]) == Horner(r, Ev(r, d), c) && Ev(r, []) == ZERO
  {
    assert (d + [c])[..|d|] == d;
  }

  lemma HornerPlus(r: Ext, e: Ext, f: Ext, c: bv8, d: bv8)
    ensures Horner(r, Plus(e, f), X8(c, d)) == Plus(Horner(r, e, c), Horner(r, f, d))
  {
    assert Plus(Ext(0, c), Ext(0, d)) == Ext(0, X8(c, d)) by {
      hide X8;
      X8Zero(0);
    }
    hide Prod, Plus, X8;
    ProdPlus(r, e, f);
    PlusExchange(Prod(r, e), Prod(r, f), Ext(0, c), Ext(0, d));
  }

  lemma {:induction false} EvXor(r: Ext, p: Data, q: Data)
    requires |p| == |q|
    ensures Ev(r, Xor(p, q)) == Plus(Ev(r, p), Ev(r, q))
  {
    hide Horner, Plus, X8;
    if p == [] {
      PlusZero(ZERO);
    } else {
      var n := |p| - 1;
      assert Xor(p, q)[..n] == Xor(p[..n], q[..n]);
      XorAt(p, q, n);
      EvXor(r, p[..n], q[..n]);
      HornerPlus(r, Ev(r, p[..n]), Ev(r, q[..n]), p[n], q[n]);
    }
  }

  lemma HornerTimes(r: Ext, c: bv8, e: Ext, x: bv8)
    ensures Horner(r, Times(c, e), Mul(c, x)) == Times(c, Horner(r, e, x))
  {
    assert Times(c, Ext(0, x)) == Ext(0, Mul(c, x)) by {
      hide Mul;
      MulZero(c);
    }
    hide Prod, Plus, Times, Mul;
    ProdTimes(r, c, e);
    TimesPlus(c, Prod(r, e), Ext(0, x));
  }

  lemma TimesZero(c: bv8)
    ensures Times(c, ZERO) == ZERO
  {
    hide Mul;
    MulZero(c);
  }

  lemma {:induction false} EvTimes(r: Ext, c: bv8, p: Data, s: Data)
    requires |p| == |s| && forall i :: 0 <= i < |p| ==> s[i] == Mul(c, p[i])
    ensures Ev(r, s) == Times(c, Ev(r, p))
  {
    hide Horner, Times, Mul;
    if p == [] {
      TimesZero(c);
    } else {
      var n := |p| - 1;
      EvTimes(r, c, p[..n], s[..n]);
      HornerTimes(r, c, Ev(r, p[..n]), p[n]);
    }
  }

  lemma HornerZero(r: Ext, c: bv8)
    ensures Horner(r, ZERO, c) == Ext(0, c)
  {
    hide Prod, Plus;
    ProdZero(r);
    PlusZero(Ext(0, c));
  }

  lemma {:induction false} EvFront(r: Ext, p: Data)
    ensures Ev(r, [0] + p) == Ev(r, p)
  {
    hide Horner;
    if p == [] {
      assert [0] + p == [] + [0];
      EvSnoc(r, [], 0);
      HornerZero(r, 0);
    } else {
      var n := |p| - 1;
      assert [0] + p == ([0] + p[..n]) + [p[n]];
      EvSnoc(r, [0] + p[..n], p[n]);
      EvFront(r, p[..n]);
    }
  }

  lemma {:induction false} EvZeros(r: Ext, n: nat)
    ensures Ev(r, Zeros(n)) == ZERO
  {
    hide Horner;
    if n > 0 {
      assert Zeros(n) == Zeros(n - 1) + [0];
      EvSnoc(r, Zeros(n - 1), 0);
      EvZeros(r, n - 1);
      HornerZero(r, 0);
    }
  }

  lemma LoSmall(c: bv8)
    requires c < 32
    ensures Small(Ext(0, c))
  {
  }

  lemma {:induction false} EvSmall(r: Ext, d: Data)
    requires Small(r) && FiveBit(d)
    ensures Small(Ev(r, d))
  {
    hide Prod, Plus, Small;
    if d == [] {
      OneSmall();
    } else {
      var n := |d| - 1;
      EvSmall(r, d[..n]);
      ProdSmall(r, Ev(r, d[..n]));
      LoSmall(d[n]);
      PlusSmall(Prod(r, Ev(r, d[..n])), Ext(0, d[n]));
    }
  }

  //////////////////////////////////////////////////////////////////////////////
  // The generator and the remainder
  //////////////////////////////////////////////////////////////////////////////

  lemma EvSeven(r: Ext, c0: bv8, c1: bv8, c2: bv8, c3: bv8, c4: bv8, c5: bv8, c6: bv8)
    ensures Ev(r, [c0, c1, c2, c3, c4, c5, c6])
         == Horner(r, Horner(r, Horner(r, Horner(r, Horner(r, Horner(r, Ext(0, c0), c1), c2), c3), c4), c5), c6)
  {
    hide Horner, Ev;
    assert [] + [c0] == [c0];
    EvSnoc(r, [], c0);
    HornerZero(r, c0);
    EvSnoc(r, [c0], c1);
    EvSnoc(r, [c0, c1], c2);
    EvSnoc(r, [c0, c1, c2], c3);
    EvSnoc(r, [c0, c1, c2, c3], c4);
    EvSnoc(r, [c0, c1, c2, c3, c4], c5);
    EvSnoc(r, [c0, c1, c2, c3, c4, c5], c6);
    assert [c0] + [c1] == [c0, c1] && [c0, c1] + [c2] == [c0, c1, c2] && [c0, c1, c2] + [c3] == [c0, c1, c2, c3];
    assert [c0, c1, c2, c3] + [c4] == [c0, c1, c2, c3, c4] && [c0, c1, c2, c3, c4] + [c5] == [c0, c1, c2, c3, c4, c5];
    assert [c0, c1, c2, c3, c4, c5] + [c6] == [c0, c1, c2, c3, c4, c5, c6];
  }

  // The generator at three powers of z, coefficient by coefficient.

  lemma Root24_1(x: Ext, y: Ext) requires x == Ext(4, 8) && y == ONE ensures Horner(x, y, 29) == Ext(4, 21) { hide Prod; BitProd(x, y); }
  lemma Root24_2(x: Ext, y: Ext) requires x == Ext(4, 8) && y == Ext(4, 21) ensures Horner(x, y, 22) == Ext(20, 25) { hide Prod; BitProd(x, y); }
  lemma Root24_3(x: Ext, y: Ext) requires x == Ext(4, 8) && y == Ext(20, 25) ensures Horner(x, y, 20) == Ext(23, 12) { hide Prod; BitProd(x, y); }
  lemma Root24_4(x: Ext, y: Ext) requires x == Ext(4, 8) && y == Ext(23, 12) ensures Horner(x, y, 21) == Ext(8, 10) { hide Prod; BitProd(x, y); }
  lemma Root24_5(x: Ext, y: Ext) requires x == Ext(4, 8) && y == Ext(8, 10) ensures Horner(x, y, 29) == Ext(12, 25) { hide Prod; BitProd(x, y); }
  lemma Root24_6(x: Ext, y: Ext) requires x == Ext(4, 8) && y == Ext(12, 25) ensures Horner(x, y, 18) == ZERO { hide Prod; BitProd(x, y); }

  lemma Root25_1(x: Ext, y: Ext) requires x == Ext(16, 30) && y == ONE ensures Horner(x, y, 29) == Ext(16, 3) { hide Prod; BitProd(x, y); }
  lemma Root25_2(x: Ext, y: Ext) requires x == Ext(16, 30) && y == Ext(16, 3) ensures Horner(x, y, 22) == Ext(27, 4) { hide Prod; BitProd(x, y); }
  lemma Root25_3(x: Ext, y: Ext) requires x == Ext(16, 30) && y == Ext(27, 4) ensures Horner(x, y, 20) == Ext(30, 19) { hide Prod; BitProd(x, y); }
  lemma Root25_4(x: Ext, y: Ext) requires x == Ext(16, 30) && y == Ext(30, 19) ensures Horner(x, y, 21) == Ext(30, 25) { hide Prod; BitProd(x, y); }
  lemma Root25_5(x: Ext, y: Ext) requires x == Ext(16, 30) && y == Ext(30, 25) ensures Horner(x, y, 29) == Ext(26, 2) { hide Prod; BitProd(x, y); }
  lemma Root25_6(x: Ext, y: Ext) requires x == Ext(16, 30) && y == Ext(26, 2) ensures Horner(x, y, 18) == ZERO { hide Prod; BitProd(x, y); }

  lemma Root26_1(x: Ext, y: Ext) requires x == Ext(5, 3) && y == ONE ensures Horner(x, y, 29) == Ext(5, 30) { hide Prod; BitProd(x, y); }
  lemma Root26_2(x: Ext, y: Ext) requires x == Ext(5, 3) && y == Ext(5, 30) ensures Horner(x, y, 22) == Ext(15, 13) { hide Prod; BitProd(x, y); }
  lemma Root26_3(x: Ext, y: Ext) requires x == Ext(5, 3) && y == Ext(15, 13) ensures Horner(x, y, 20) == Ext(15, 26) { hide Prod; BitProd(x, y); }
  lemma Root26_4(x: Ext, y: Ext) requires x == Ext(5, 3) && y == Ext(15, 26) ensures Horner(x, y, 21) == Ext(22, 11) { hide Prod; BitProd(x, y); }
  lemma Root26_5(x: Ext, y: Ext) requires x == Ext(5, 3) && y == Ext(22, 11) ensures Horner(x, y, 29) == Ext(7, 8) { hide Prod; BitProd(x, y); }
  lemma Root26_6(x: Ext, y: Ext) requires x == Ext(5, 3) && y == Ext(7, 8) ensures Horner(x, y, 18) == ZERO { hide Prod; BitProd(x, y); }

  /** The generator vanishes at the 24th, 25th and 26th power of z. */
  lemma Roots(s: nat)
    requires 24 <= s <= 26
    ensures Ev(Alpha(s), GENERATOR) == ZERO
  {
    hide Horner, Ev, Alpha;
    LowPowers();
    EvSeven(Alpha(s), 1, 29, 22, 20, 21, 29, 18);
    if s == 24 {
      Root24_1(Alpha(24), ONE);
      Root24_2(Alpha(24), Ext(4, 21));
      Root24_3(Alpha(24), Ext(20, 25));
      Root24_4(Alpha(24), Ext(23, 12));
      Root24_5(Alpha(24), Ext(8, 10));
      Root24_6(Alpha(24), Ext(12, 25));
    } else if s == 25 {
      Root25_1(Alpha(25), ONE);
      Root25_2(Alpha(25), Ext(16, 3));
      Root25_3(Alpha(25), Ext(27, 4));
      Root25_4(Alpha(25), Ext(30, 19));
      Root25_5(Alpha(25), Ext(30, 25));
      Root25_6(Alpha(25), Ext(26, 2));
    } else {
      Root26_1(Alpha(26), ONE);
      Root26_2(Alpha(26), Ext(5, 30));
      Root26_3(Alpha(26), Ext(15, 13));
      Root26_4(Alpha(26), Ext(15, 26));
      Root26_5(Alpha(26), Ext(22, 11));
      Root26_6(Alpha(26), Ext(7, 8));
    }
  }

  /** One step of the remainder is one step of the evaluation, at a root of the generator. */
  lemma EvStep(r: Ext, c: bv32, v: bv8)
    requires c < 0x4000_0000 && v < 32 && Ev(r, GENERATOR) == ZERO
    ensures Ev(r, Groups(Step(c, v as bv32))) == Horner(r, Ev(r, Groups(c)), v)
  {
    hide Ev, Horner, Plus, Times, Step, Groups, Group, Scaled, Xor, Mul;
    var a, p, q := Groups(c) + [v], [0] + Groups(Step(c, v as bv32)), Scaled(Group(c, 0));
    StepDivides(c, v);
    EvSnoc(r, Groups(c), v);
    EvXor(r, p, q);
    forall i | 0 <= i < 7 ensures q[i] == Mul(Group(c, 0), GENERATOR[i]) {
      ScaledAt(Group(c, 0), i);
    }
    EvTimes(r, Group(c, 0), GENERATOR, q);
    TimesZero(Group(c, 0));
    EvFront(r, Groups(Step(c, v as bv32)));
    PlusZero(Ev(r, p));
  }

  lemma {:induction false} EvFold(r: Ext, d: Data)
    requires FiveBit(d) && Ev(r, GENERATOR) == ZERO
    ensures Ev(r, Groups(Fold(0, d))) == Ev(r, d)
    decreases |d|
  {
    hide Ev, Horner, Step, Groups, Fold;
    if d == [] {
      FoldNone(0, d);
      NoGroups();
      EvZeros(r, 6);
      EvSnoc(r, [], 0);
    } else {
      var n := |d| - 1;
      EvFold(r, d[..n]);
      FoldRange(0, d[..n]);
      assert d == d[..n] + [d[n]];
      FoldSnoc(0, d[..n], d[n]);
      EvSnoc(r, d[..n], d[n]);
      EvStep(r, Fold(0, d[..n]), d[n]);
    }
  }

  lemma NoGroups()
    ensures Groups(0) == Zeros(6)
  {
    hide Group;
    GroupZero(0);
    GroupZero(1);
    GroupZero(2);
    GroupZero(3);
    GroupZero(4);
    GroupZero(5);
  }

  /** What leaves no remainder vanishes where the generator does. */
  lemma FoldZeroEv(s: nat, d: Data)
    requires FiveBit(d) && Fold(0, d) == 0 && 24 <= s <= 26
    ensures Ev(Alpha(s), d) == ZERO
  {
    hide Ev, Alpha, Groups, Fold;
    Roots(s);
    EvFold(Alpha(s), d);
    NoGroups();
    EvZeros(Alpha(s), 6);
  }

  //////////////////////////////////////////////////////////////////////////////
  // Few coefficients
  //////////////////////////////////////////////////////////////////////////////

  /** The m-th power of the s-th power of z. */
  function Power(s: nat, m: nat): Ext { Alpha(s * m) }

  lemma PowerNext(s: nat, m: nat)
    ensures Power(s, m + 1) == Prod(Alpha(s), Power(s, m)) && Power(s, 0) == ONE
    ensures Power(s + 1, m) == Prod(Alpha(m), Power(s, m))
  {
    hide Prod, Alpha;
    OneSmall();
    Split(s, m, 1);
    AlphaAdd(s, s * m);
    Split(m, s, 1);
    AlphaAdd(m, s * m);
  }

  lemma PowerAdd(s: nat, m: nat, n: nat)
    ensures Power(s, m + n) == Prod(Power(s, m), Power(s, n))
  {
    hide Prod, Alpha;
    Split(s, m, n);
    AlphaAdd(s * m, s * n);
  }

  lemma PowerFacts(s: nat, m: nat)
    ensures Small(Power(s, m)) && Power(s, m) != ZERO
  {
    hide Alpha, Small;
    AlphaSmall(s * m);
    AlphaNotZero(s * m);
  }

  lemma Split(s: nat, a: nat, b: nat)
    ensures s * (a + b) == s * a + s * b
  {
  }

  lemma {:induction false} EvShift(s: nat, d: Data, m: nat)
    requires FiveBit(d)
    ensures Ev(Alpha(s), d + Zeros(m)) == Prod(Power(s, m), Ev(Alpha(s), d))
  {
    hide Ev, Alpha, Power, Prod, Plus, Small;
    var r, e := Alpha(s), Ev(Alpha(s), d);
    AlphaSmall(s);
    EvSmall(r, d);
    OneSmall();
    if m == 0 {
      assert d + Zeros(0) == d;
      PowerNext(s, 0);
      ProdOne(e);
      ProdComm(e, ONE);
    } else {
      assert d + Zeros(m) == (d + Zeros(m - 1)) + [0];
      EvSnoc(r, d + Zeros(m - 1), 0);
      EvShift(s, d, m - 1);
      PlusZero(Prod(r, Ev(r, d + Zeros(m - 1))));
      PowerNext(s, m - 1);
      PowerFacts(s, m - 1);
      ProdAssoc(r, Power(s, m - 1), e);
    }
  }

  /** From one coefficient to the next, with zeros between them. */
  lemma Gap(s: nat, d: Data, i: nat, j: nat)
    requires FiveBit(d) && i < j < |d| && forall t :: i < t < j ==> d[t] == 0
    ensures Ev(Alpha(s), d[..j + 1]) == Plus(Prod(Power(s, j - i), Ev(Alpha(s), d[..i + 1])), Ext(0, d[j]))
  {
    hide Ev, Alpha, Power, Prod, Plus, Small;
    var r, e, m := Alpha(s), Ev(Alpha(s), d[..i + 1]), j - i - 1;
    assert d[..j] == d[..i + 1] + Zeros(m) && d[..j + 1] == d[..j] + [d[j]];
    EvSnoc(r, d[..j], d[j]);
    EvShift(s, d[..i + 1], m);
    PowerNext(s, m);
    AlphaSmall(s);
    PowerFacts(s, m);
    EvSmall(r, d[..i + 1]);
    ProdAssoc(r, Power(s, m), e);
  }

  lemma Head(r: Ext, d: Data, i: nat)
    requires i < |d| && forall t :: 0 <= t < i ==> d[t] == 0
    ensures Ev(r, d[..i + 1]) == Ext(0, d[i])
  {
    hide Ev, Horner;
    assert d[..i] == Zeros(i) && d[..i + 1] == d[..i] + [d[i]];
    EvSnoc(r, d[..i], d[i]);
    EvZeros(r, i);
    HornerZero(r, d[i]);
  }

  /** All but three coefficients are zero. */
  predicate OnlyAt(d: Data, i: nat, j: nat, k: nat) {
    i < j < k < |d| && forall t :: 0 <= t < |d| && t != i && t != j && t != k ==> d[t] == 0
  }

  lemma DropTail(s: nat, d: Data, k: nat)
    requires FiveBit(d) && k < |d| && (forall t :: k < t < |d| ==> d[t] == 0) && Ev(Alpha(s), d) == ZERO
    ensures Ev(Alpha(s), d[..k + 1]) == ZERO
  {
    hide Ev, Alpha, Power, Prod, Small;
    var m := |d| - k - 1;
    assert d == d[..k + 1] + Zeros(m);
    EvShift(s, d[..k + 1], m);
    AlphaSmall(s);
    PowerFacts(s, m);
    EvSmall(Alpha(s), d[..k + 1]);
    NoZeroProd(Power(s, m), Ev(Alpha(s), d[..k + 1]));
  }

  lemma TwoGaps(s: nat, m: nat, n: nat, x: Ext, y: Ext)
    requires Small(x)
    ensures Prod(Power(s, n), Plus(Prod(Power(s, m), x), y)) == Plus(Prod(Power(s, n + m), x), Prod(Power(s, n), y))
  {
    hide Alpha, Power, Prod, Plus, Small;
    PowerFacts(s, n);
    PowerFacts(s, m);
    ProdPlus(Power(s, n), Prod(Power(s, m), x), y);
    ProdAssoc(Power(s, n), Power(s, m), x);
    PowerAdd(s, n, m);
  }

  /** Up to a power of z, the value is that of three terms. */
  lemma ThreeTerms(s: nat, d: Data, i: nat, j: nat, k: nat)
    requires FiveBit(d) && OnlyAt(d, i, j, k) && Ev(Alpha(s), d) == ZERO
    ensures Plus(Plus(Prod(Power(s, k - i), Ext(0, d[i])), Prod(Power(s, k - j), Ext(0, d[j]))), Ext(0, d[k])) == ZERO
  {
    hide Ev, Alpha, Power, Prod, Plus, Small;
    DropTail(s, d, k);
    Head(Alpha(s), d, i);
    Gap(s, d, i, j);
    Gap(s, d, j, k);
    LoSmall(d[i]);
    assert k - j + (j - i) == k - i;
    TwoGaps(s, j - i, k - j, Ext(0, d[i]), Ext(0, d[j]));
  }

  //////////////////////////////////////////////////////////////////////////////
  // Three equations
  //////////////////////////////////////////////////////////////////////////////

  lemma SumOfTwo(p: Ext, q: Ext, p': Ext, q': Ext, a: Ext)
    requires Plus(Plus(p, q), a) == ZERO && Plus(Plus(p', q'), a) == ZERO
    ensures Plus(p', p) == Plus(q', q)
  {
    hide Plus;
    PlusEqual(Plus(p, q), a);
    PlusEqual(Plus(p', q'), a);
    PlusZero(a);
    PlusExchange(p', q', p, q);
    PlusEqual(Plus(p', p), Plus(q', q));
  }

  lemma ProdLeft(x: Ext, w: Ext, y: Ext)
    requires Small(x) && Small(w) && Small(y)
    ensures Prod(Plus(x, w), y) == Plus(Prod(x, y), Prod(w, y))
  {
    hide Plus, Prod, Small;
    PlusSmall(x, w);
    ProdComm(Plus(x, w), y);
    ProdComm(x, y);
    ProdComm(w, y);
    ProdPlus(y, x, w);
  }

  /** x y + w y = 0 only for equal factors or y = 0. */
  lemma EqualFactors(x: Ext, w: Ext, y: Ext)
    requires Small(x) && Small(w) && Small(y) && Prod(x, y) == Prod(w, y) && x != w
    ensures y == ZERO
  {
    hide Plus, Prod, Small;
    ProdLeft(x, w, y);
    PlusZero(Prod(x, y));
    PlusSmall(x, w);
    NoZeroProd(Plus(x, w), y);
    if Plus(x, w) == ZERO {
      PlusEqual(x, w);
    }
  }

  lemma OneTimes(y: Ext)
    requires Small(y)
    ensures Prod(ONE, y) == y
  {
    hide Prod;
    OneSmall();
    ProdOne(y);
    ProdComm(y, ONE);
  }

  /** Three terms that vanish for the exponents 0, 1 and 2 of different factors are zero. */
  lemma Vandermonde(y1: Ext, y2: Ext, a1: Ext, a2: Ext, a3: Ext)
    requires Small(y1) && Small(y2) && Small(a1) && Small(a2) && y1 != ONE && y2 != ONE && y1 != y2
    requires Plus(Plus(a1, a2), a3) == ZERO
    requires Plus(Plus(Prod(y1, a1), Prod(y2, a2)), a3) == ZERO
    requires Plus(Plus(Prod(y1, Prod(y1, a1)), Prod(y2, Prod(y2, a2))), a3) == ZERO
    ensures a1 == ZERO && a2 == ZERO && a3 == ZERO
  {
    hide Plus, Prod, Small;
    var p1, p2 := Prod(y1, a1), Prod(y2, a2);
    SumOfTwo(a1, a2, p1, p2, a3);
    SumOfTwo(p1, p2, Prod(y1, p1), Prod(y2, p2), a3);
    var u := Plus(p1, a1);
    ProdPlus(y1, p1, a1);
    ProdPlus(y2, p2, a2);
    ProdSmall(y1, a1);
    PlusSmall(p1, a1);
    EqualFactors(y1, y2, u);
    PlusEqual(p1, a1);
    PlusEqual(p2, a2);
    OneSmall();
    OneTimes(a1);
    OneTimes(a2);
    EqualFactors(y1, ONE, a1);
    EqualFactors(y2, ONE, a2);
    PlusZero(ZERO);
    PlusZero(a3);
  }

  lemma AlphaDistinct(m: nat, n: nat)
    requires n < m < n + 1023
    ensures Alpha(m) != Alpha(n)
  {
    hide Alpha, Power, Prod, Small;
    Order(m - n);
    AlphaAdd(m - n, n);
    AlphaSmall(n);
    AlphaSmall(m - n);
    AlphaNotZero(n);
    OneSmall();
    OneTimes(Alpha(n));
    if Alpha(m) == Alpha(n) {
      EqualFactors(Alpha(m - n), ONE, Alpha(n));
      assert false;
    }
  }

  lemma TermUp(s: nat, m: nat, x: Ext)
    requires Small(x)
    ensures Prod(Power(s + 1, m), x) == Prod(Alpha(m), Prod(Power(s, m), x))
  {
    hide Alpha, Power, Prod, Small;
    PowerNext(s, m);
    AlphaSmall(m);
    PowerFacts(s, m);
    ProdAssoc(Alpha(m), Power(s, m), x);
  }

  lemma TermZero(s: nat, m: nat, c: bv8)
    requires c < 32 && Prod(Power(s, m), Ext(0, c)) == ZERO
    ensures c == 0
  {
    hide Power, Prod, Small;
    PowerFacts(s, m);
    LoSmall(c);
    NoZeroProd(Power(s, m), Ext(0, c));
  }

  /** A list that leaves no remainder and has at most three other values than zero, close enough together, has none. */
  lemma ThreeVanish(d: Data, i: nat, j: nat, k: nat)
    requires FiveBit(d) && OnlyAt(d, i, j, k) && k - i < 1023 && Fold(0, d) == 0
    ensures d[i] == 0 && d[j] == 0 && d[k] == 0
  {
    hide Ev, Alpha, Power, Prod, Plus, Small, Fold;
    FoldZeroEv(24, d);
    FoldZeroEv(25, d);
    FoldZeroEv(26, d);
    ThreeTerms(24, d, i, j, k);
    ThreeTerms(25, d, i, j, k);
    ThreeTerms(26, d, i, j, k);
    var m, n, x, y := k - i, k - j, Ext(0, d[i]), Ext(0, d[j]);
    LoSmall(d[i]);
    LoSmall(d[j]);
    TermUp(24, m, x);
    TermUp(25, m, x);
    TermUp(24, n, y);
    TermUp(25, n, y);
    AlphaSmall(m);
    AlphaSmall(n);
    PowerFacts(24, m);
    PowerFacts(24, n);
    ProdSmall(Power(24, m), x);
    ProdSmall(Power(24, n), y);
    Order(m);
    Order(n);
    AlphaDistinct(m, n);
    Vandermonde(Alpha(m), Alpha(n), Prod(Power(24, m), x), Prod(Power(24, n), y), Ext(0, d[k]));
    TermZero(24, m, d[i]);
    TermZero(24, n, d[j]);
  }

  //////////////////////////////////////////////////////////////////////////////
  // Errors
  //////////////////////////////////////////////////////////////////////////////

  /** Two lists with the same checksum that differ in at most three places within 1023 of each other are equal. */
  lemma ThreeErrors(e: Data, v: Data, w: Data, i: nat, j: nat, k: nat)
    requires |v| == |w| && FiveBit(v) && FiveBit(w) && Fold(1, e + v) == Fold(1, e + w)
    requires i < j < k < |v| && k - i < 1023
    requires forall t :: 0 <= t < |v| && t != i && t != j && t != k ==> v[t] == w[t]
    ensures v == w
  {
    hide Fold, X, Xor;
    FoldAppend(1, e, v);
    FoldAppend(1, e, w);
    DifferenceZero(Fold(1, e), v, w);
    XorFacts(v, w);
    ThreeVanish(Xor(v, w), i, j, k);
  }

  lemma OneError(e: Data, v: Data, w: Data, p: nat)
    requires |v| == |w| && FiveBit(v) && FiveBit(w) && Fold(1, e + v) == Fold(1, e + w) && p < |v|
    requires forall t :: 0 <= t < |v| && t != p ==> v[t] == w[t]
    ensures v == w
  {
    BurstDetected(e, v, w, p);
  }

  lemma TwoErrors(e: Data, v: Data, w: Data, p: nat, q: nat)
    requires |v| == |w| && FiveBit(v) && FiveBit(w) && Fold(1, e + v) == Fold(1, e + w) && p < q < |v| && q - p < 1023
    requires forall t :: 0 <= t < |v| && t != p && t != q ==> v[t] == w[t]
    ensures v == w
  {
    if q == p + 1 {
      BurstDetected(e, v, w, p);
    } else {
      ThreeErrors(e, v, w, p, p + 1, q);
    }
  }

  /** The places where two lists differ. */
  ghost function Differences(v: Data, w: Data): set<nat>
    requires |v| == |w|
  {
    set t: nat | t < |v| && v[t] != w[t]
  }

  ghost predicate Within(places: set<nat>, n: nat) { forall p, q :: p in places && q in places ==> p < q + n }

  lemma AtMostThree(d: set<nat>) returns (p: nat, q: nat, r: nat)
    requires d != {} && |d| <= 3
    ensures d == {p, q, r}
  {
    p :| p in d;
    var d1 := d - {p};
    if d1 == {} {
      q, r := p, p;
    } else {
      q :| q in d1;
      var d2 := d1 - {q};
      if d2 == {} {
        r := q;
      } else {
        r :| r in d2;
        assert |d2 - {r}| == 0;
      }
    }
  }

  lemma Ordered(p: nat, q: nat, r: nat) returns (i: nat, j: nat, k: nat)
    ensures i <= j <= k && {i, j, k} == {p, q, r}
  {
    i, j := if p < q then p else q, if p < q then q else p;
    k := r;
    if r < i {
      i, j, k := r, i, j;
    } else if r < j {
      j, k := r, j;
    }
  }

  lemma FewErrors(e: Data, v: Data, w: Data, i: nat, j: nat, k: nat)
    requires |v| == |w| && FiveBit(v) && FiveBit(w) && Fold(1, e + v) == Fold(1, e + w)
    requires i <= j <= k < |v| && k - i < 1023
    requires forall t :: 0 <= t < |v| && t != i && t != j && t != k ==> v[t] == w[t]
    ensures v == w
  {
    hide Fold;
    if i == k {
      OneError(e, v, w, i);
    } else if i == j || j == k {
      TwoErrors(e, v, w, i, k);
    } else {
      ThreeErrors(e, v, w, i, j, k);
    }
  }

  /** Different lists with the same checksum differ in at least four places, if all of them are within 1023 of each other. */
  lemma FourPlaces(e: Data, v: Data, w: Data)
    requires |v| == |w| && FiveBit(v) && FiveBit(w) && v != w && Fold(1, e + v) == Fold(1, e + w)
    requires Within(Differences(v, w), 1023)
    ensures |Differences(v, w)| >= 4
  {
    hide Fold, FiveBit;
    var d := Differences(v, w);
    var t: nat :| t < |v| && v[t] != w[t];
    assert t in d;
    if |d| <= 3 {
      var p, q, r := AtMostThree(d);
      var i, j, k := Ordered(p, q, r);
      assert i in d && k in d;
      assert forall t: nat :: t < |v| && t !in d ==> v[t] == w[t];
      FewErrors(e, v, w, i, j, k);
    }
  }
}
