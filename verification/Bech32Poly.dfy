module Bech32Poly {
  // What the Bech32 remainder is: that of a polynomial over GF(32) on division by the generator.

  import opened Bech32

  //////////////////////////////////////////////////////////////////////////////
  // The field of 32 elements: polynomials over GF(2) modulo a^5 + a^3 + 1
  //////////////////////////////////////////////////////////////////////////////

  /** Multiplication by a. */
  function TimesA(x: bv8): bv8 { if x & 16 == 0 then x << 1 else (x << 1) ^ 0x29 }

  function Part(on: bool, x: bv8): bv8 { if on then x else 0 }

  /** The sum of the multiples by a^n, for each bit n of c. */
  function Mul(c: bv8, x: bv8): bv8 {
    var x2 := TimesA(x);
    var x4 := TimesA(x2);
    var x8 := TimesA(x4);
    var x16 := TimesA(x8);
    Sum(c, x, x2, x4, x8, x16)
  }

  lemma MulOne(c: bv8)
    requires c < 32
    ensures Mul(c, 1) == c && Mul(0, c) == 0
  {
  }

  lemma X8Assoc(a: bv8, b: bv8, c: bv8)
    ensures X8(X8(a, b), c) == X8(a, X8(b, c))
  {
    assert (a ^ b) ^ c == a ^ (b ^ c);
  }

  lemma X8Comm(a: bv8, b: bv8)
    ensures X8(a, b) == X8(b, a)
  {
  }

  predicate Bit(c: bv8, n: bv8) { c & n != 0 }

  /** The sum of the values whose bits are set in c. */
  function Sum(c: bv8, x1: bv8, x2: bv8, x4: bv8, x8: bv8, x16: bv8): bv8 {
    X8(X8(X8(X8(Part(Bit(c, 1), x1), Part(Bit(c, 2), x2)), Part(Bit(c, 4), x4)), Part(Bit(c, 8), x8)), Part(Bit(c, 16), x16))
  }

  //////////////////////////////////////////////////////////////////////////////
  // The field laws
  //////////////////////////////////////////////////////////////////////////////

  lemma TimesAXor(x: bv8, y: bv8)
    ensures TimesA(X8(x, y)) == X8(TimesA(x), TimesA(y))
  {
  }

  lemma PartXor(on: bool, x: bv8, y: bv8)
    ensures Part(on, X8(x, y)) == X8(Part(on, x), Part(on, y))
  {
  }

  lemma PartTimesA(on: bool, x: bv8)
    ensures Part(on, TimesA(x)) == TimesA(Part(on, x))
  {
  }

  lemma Exchange(a: bv8, b: bv8, c: bv8, d: bv8)
    ensures X8(X8(a, b), X8(c, d)) == X8(X8(a, c), X8(b, d))
  {
    hide X8;
    X8Assoc(a, b, X8(c, d));
    X8Assoc(b, c, d);
    X8Comm(b, c);
    X8Assoc(c, b, d);
    X8Assoc(a, c, X8(b, d));
  }

  lemma ChainXor(p1: bv8, p2: bv8, p4: bv8, p8: bv8, p16: bv8, q1: bv8, q2: bv8, q4: bv8, q8: bv8, q16: bv8)
    ensures X8(X8(X8(X8(X8(p1, q1), X8(p2, q2)), X8(p4, q4)), X8(p8, q8)), X8(p16, q16))
         == X8(X8(X8(X8(X8(p1, p2), p4), p8), p16), X8(X8(X8(X8(q1, q2), q4), q8), q16))
  {
    hide X8;
    var p, q := X8(p1, p2), X8(q1, q2);
    Exchange(p1, q1, p2, q2);
    Exchange(p, q, p4, q4);
    Exchange(X8(p, p4), X8(q, q4), p8, q8);
    Exchange(X8(X8(p, p4), p8), X8(X8(q, q4), q8), p16, q16);
  }

  lemma SumXor(c: bv8, x1: bv8, x2: bv8, x4: bv8, x8: bv8, x16: bv8, y1: bv8, y2: bv8, y4: bv8, y8: bv8, y16: bv8)
    ensures Sum(c, X8(x1, y1), X8(x2, y2), X8(x4, y4), X8(x8, y8), X8(x16, y16))
         == X8(Sum(c, x1, x2, x4, x8, x16), Sum(c, y1, y2, y4, y8, y16))
  {
    hide X8, Part, Bit, Sum;
    SumIs(c, x1, x2, x4, x8, x16);
    SumIs(c, y1, y2, y4, y8, y16);
    SumIs(c, X8(x1, y1), X8(x2, y2), X8(x4, y4), X8(x8, y8), X8(x16, y16));
    PickXor(Bit(c, 1), Bit(c, 2), Bit(c, 4), Bit(c, 8), Bit(c, 16), x1, x2, x4, x8, x16, y1, y2, y4, y8, y16);
  }

  /** The sum of the values that are on. */
  function Pick(b1: bool, b2: bool, b4: bool, b8: bool, b16: bool, x1: bv8, x2: bv8, x4: bv8, x8: bv8, x16: bv8): bv8 {
    X8(X8(X8(X8(Part(b1, x1), Part(b2, x2)), Part(b4, x4)), Part(b8, x8)), Part(b16, x16))
  }

  lemma SumIs(c: bv8, x1: bv8, x2: bv8, x4: bv8, x8: bv8, x16: bv8)
    ensures Sum(c, x1, x2, x4, x8, x16) == Pick(Bit(c, 1), Bit(c, 2), Bit(c, 4), Bit(c, 8), Bit(c, 16), x1, x2, x4, x8, x16)
  {
    hide X8, Part, Bit;
  }

  lemma PickXor(b1: bool, b2: bool, b4: bool, b8: bool, b16: bool,
                x1: bv8, x2: bv8, x4: bv8, x8: bv8, x16: bv8, y1: bv8, y2: bv8, y4: bv8, y8: bv8, y16: bv8)
    ensures Pick(b1, b2, b4, b8, b16, X8(x1, y1), X8(x2, y2), X8(x4, y4), X8(x8, y8), X8(x16, y16))
         == X8(Pick(b1, b2, b4, b8, b16, x1, x2, x4, x8, x16), Pick(b1, b2, b4, b8, b16, y1, y2, y4, y8, y16))
  {
    hide X8, Part;
    PartXor(b1, x1, y1);
    PartXor(b2, x2, y2);
    PartXor(b4, x4, y4);
    PartXor(b8, x8, y8);
    PartXor(b16, x16, y16);
    ChainXor(Part(b1, x1), Part(b2, x2), Part(b4, x4), Part(b8, x8), Part(b16, x16),
             Part(b1, y1), Part(b2, y2), Part(b4, y4), Part(b8, y8), Part(b16, y16));
  }

  lemma MulDistributes(c: bv8, x: bv8, y: bv8)
    ensures Mul(c, X8(x, y)) == X8(Mul(c, x), Mul(c, y))
  {
    hide X8, TimesA, Sum;
    var x2, y2 := TimesA(x), TimesA(y);
    var x4, y4 := TimesA(x2), TimesA(y2);
    var x8, y8 := TimesA(x4), TimesA(y4);
    TimesAXor(x, y);
    TimesAXor(x2, y2);
    TimesAXor(x4, y4);
    TimesAXor(x8, y8);
    SumXor(c, x, x2, x4, x8, TimesA(x8), y, y2, y4, y8, TimesA(y8));
  }

  lemma SumTimesA(c: bv8, x1: bv8, x2: bv8, x4: bv8, x8: bv8, x16: bv8)
    ensures Sum(c, TimesA(x1), TimesA(x2), TimesA(x4), TimesA(x8), TimesA(x16)) == TimesA(Sum(c, x1, x2, x4, x8, x16))
  {
    hide X8, Part, Bit, TimesA;
    var p1, p2, p4, p8, p16 := Part(Bit(c, 1), x1), Part(Bit(c, 2), x2), Part(Bit(c, 4), x4), Part(Bit(c, 8), x8), Part(Bit(c, 16), x16);
    PartTimesA(Bit(c, 1), x1);
    PartTimesA(Bit(c, 2), x2);
    PartTimesA(Bit(c, 4), x4);
    PartTimesA(Bit(c, 8), x8);
    PartTimesA(Bit(c, 16), x16);
    TimesAXor(p1, p2);
    TimesAXor(X8(p1, p2), p4);
    TimesAXor(X8(X8(p1, p2), p4), p8);
    TimesAXor(X8(X8(X8(p1, p2), p4), p8), p16);
  }

  lemma MulTimesA(c: bv8, x: bv8)
    ensures Mul(c, TimesA(x)) == TimesA(Mul(c, x))
  {
    hide TimesA, Sum;
    var x2 := TimesA(x);
    var x4 := TimesA(x2);
    var x8 := TimesA(x4);
    SumTimesA(c, x, x2, x4, x8, TimesA(x8));
  }

  lemma MulPart(b: bv8, on: bool, x: bv8)
    ensures Mul(b, Part(on, x)) == Part(on, Mul(b, x))
  {
    if !on {
      MulZero(b);
    }
  }

  lemma MulZero(b: bv8)
    ensures Mul(b, 0) == 0
  {
  }

  lemma MulSum(b: bv8, c: bv8, x1: bv8, x2: bv8, x4: bv8, x8: bv8, x16: bv8)
    ensures Mul(b, Sum(c, x1, x2, x4, x8, x16)) == Sum(c, Mul(b, x1), Mul(b, x2), Mul(b, x4), Mul(b, x8), Mul(b, x16))
  {
    hide X8, Part, Bit, Mul;
    var p1, p2, p4, p8, p16 := Part(Bit(c, 1), x1), Part(Bit(c, 2), x2), Part(Bit(c, 4), x4), Part(Bit(c, 8), x8), Part(Bit(c, 16), x16);
    MulPart(b, Bit(c, 1), x1);
    MulPart(b, Bit(c, 2), x2);
    MulPart(b, Bit(c, 4), x4);
    MulPart(b, Bit(c, 8), x8);
    MulPart(b, Bit(c, 16), x16);
    MulDistributes(b, p1, p2);
    MulDistributes(b, X8(p1, p2), p4);
    MulDistributes(b, X8(X8(p1, p2), p4), p8);
    MulDistributes(b, X8(X8(X8(p1, p2), p4), p8), p16);
  }

  /** b (c x) = c (b x): both are multiples of the multiples by a^n. */
  lemma MulExchange(b: bv8, c: bv8, x: bv8)
    ensures Mul(b, Mul(c, x)) == Mul(c, Mul(b, x))
  {
    var x2 := TimesA(x);
    var x4 := TimesA(x2);
    var x8 := TimesA(x4);
    var x16 := TimesA(x8);
    assert Mul(c, x) == Sum(c, x, x2, x4, x8, x16);
    MulSum(b, c, x, x2, x4, x8, x16);
    MulTimesA(b, x);
    MulTimesA(b, x2);
    MulTimesA(b, x4);
    MulTimesA(b, x8);
    var y := Mul(b, x);
    assert Mul(c, y) == Sum(c, y, TimesA(y), TimesA(TimesA(y)), TimesA(TimesA(TimesA(y))), TimesA(TimesA(TimesA(TimesA(y)))));
  }

  lemma MulRange(c: bv8, x: bv8)
    requires c < 32 && x < 32
    ensures Mul(c, x) < 32 && (c != 0 && x != 0 ==> Mul(c, x) != 0)
  {
  }

  lemma MulCommutes(c: bv8, x: bv8)
    requires c < 32 && x < 32
    ensures Mul(c, x) == Mul(x, c)
  {
    hide Mul;
    MulOne(c);
    MulOne(x);
    MulExchange(c, x, 1);
  }

  lemma MulAssociates(b: bv8, c: bv8, x: bv8)
    requires b < 32 && c < 32 && x < 32
    ensures Mul(Mul(b, c), x) == Mul(b, Mul(c, x))
  {
    hide Mul;
    MulRange(b, c);
    MulCommutes(Mul(b, c), x);
    MulExchange(x, b, c);
    MulCommutes(x, c);
  }

  lemma InversesLow()
    ensures Mul(1, 1) == 1 && Mul(2, 20) == 1 && Mul(3, 24) == 1 && Mul(4, 10) == 1
    ensures Mul(5, 8) == 1 && Mul(6, 12) == 1 && Mul(7, 29) == 1 && Mul(9, 11) == 1
  {
  }

  lemma InversesHigh()
    ensures Mul(13, 28) == 1 && Mul(14, 26) == 1 && Mul(15, 31) == 1 && Mul(16, 22) == 1
    ensures Mul(17, 18) == 1 && Mul(19, 23) == 1 && Mul(21, 25) == 1 && Mul(27, 30) == 1
  {
  }

  /** The inverse of each element. */
  function Inverse(c: bv8): bv8 {
    if c == 1 then 1 else if c == 2 then 20 else if c == 20 then 2 else if c == 3 then 24 else if c == 24 then 3 else if c == 4 then 10 else
    if c == 10 then 4 else if c == 5 then 8 else if c == 8 then 5 else if c == 6 then 12 else if c == 12 then 6 else if c == 7 then 29 else
    if c == 29 then 7 else if c == 9 then 11 else if c == 11 then 9 else if c == 13 then 28 else if c == 28 then 13 else if c == 14 then 26 else
    if c == 26 then 14 else if c == 15 then 31 else if c == 31 then 15 else if c == 16 then 22 else if c == 22 then 16 else if c == 17 then 18 else
    if c == 18 then 17 else if c == 19 then 23 else if c == 23 then 19 else if c == 21 then 25 else if c == 25 then 21 else if c == 27 then 30 else
    if c == 30 then 27 else 0
  }

  lemma InverseIs(c: bv8)
    requires 0 < c < 32
    ensures Inverse(c) < 32 && Mul(c, Inverse(c)) == 1
  {
    hide Mul;
    InversesLow();
    InversesHigh();
    MulCommutes(c, Inverse(c));
  }

  /** Five-bit values are a field under exclusive or and this multiplication. */
  lemma FieldLaws(b: bv8, c: bv8, x: bv8)
    requires b < 32 && c < 32 && x < 32
    ensures Mul(c, x) < 32 && Mul(c, x) == Mul(x, c) && Mul(Mul(b, c), x) == Mul(b, Mul(c, x))
    ensures Mul(c, X8(b, x)) == X8(Mul(c, b), Mul(c, x)) && Mul(c, 1) == c
    ensures Mul(c, x) == 0 <==> c == 0 || x == 0
    ensures c != 0 ==> Inverse(c) < 32 && Mul(c, Inverse(c)) == 1
  {
    hide Mul, X8, Inverse;
    MulRange(c, x);
    MulCommutes(c, x);
    MulAssociates(b, c, x);
    MulDistributes(c, b, x);
    MulOne(c);
    MulOne(x);
    MulZero(c);
    if c != 0 {
      InverseIs(c);
    }
  }

  //////////////////////////////////////////////////////////////////////////////
  // Polynomials, the highest coefficient first
  //////////////////////////////////////////////////////////////////////////////

  /** x^6 + {29}x^5 + {22}x^4 + {20}x^3 + {21}x^2 + {29}x + {18}. */
  const GENERATOR: Data := [1, 29, 22, 20, 21, 29, 18]

  function Scaled(c: bv8): (r: Data)
    ensures |r| == 7
  {
    [Mul(c, 1), Mul(c, 29), Mul(c, 22), Mul(c, 20), Mul(c, 21), Mul(c, 29), Mul(c, 18)]
  }

  lemma ScaledAt(c: bv8, i: nat)
    requires i < 7
    ensures Scaled(c)[i] == Mul(c, GENERATOR[i])
  {
    hide Mul;
    GeneratorIs();
  }

  lemma GeneratorIs()
    ensures GENERATOR[0] == 1 && GENERATOR[1] == 29 && GENERATOR[2] == 22 && GENERATOR[3] == 20
    ensures GENERATOR[4] == 21 && GENERATOR[5] == 29 && GENERATOR[6] == 18
  {
  }

  /** The product of a polynomial with the generator: coefficient by coefficient, times x and plus a multiple. */
  function Product(q: Data): (r: Data)
    ensures |r| == |q| + 6
  {
    if q == [] then Zeros(6)
    else
      var n := |q| - 1;
      Xor(Product(q[..n]) + [0], Zeros(n) + Scaled(q[n]))
  }

  /** f = q * g + r, with r of degree below 6. */
  ghost predicate Divides(f: Data, q: Data, r: Data) {
    |r| == 6 && |f| == |q| + 6 && f == Xor(Product(q), Zeros(|q|) + r)
  }

  //////////////////////////////////////////////////////////////////////////////
  // One step
  //////////////////////////////////////////////////////////////////////////////

  lemma Five25(a: bv32, b: bv32)
    ensures Low(From(X(a, b), 0)) == X(Low(From(a, 0)), Low(From(b, 0)))
  {
  }

  lemma Five20(a: bv32, b: bv32)
    ensures Low(From(X(a, b), 1)) == X(Low(From(a, 1)), Low(From(b, 1)))
  {
  }

  lemma Five15(a: bv32, b: bv32)
    ensures Low(From(X(a, b), 2)) == X(Low(From(a, 2)), Low(From(b, 2)))
  {
  }

  lemma Five10(a: bv32, b: bv32)
    ensures Low(From(X(a, b), 3)) == X(Low(From(a, 3)), Low(From(b, 3)))
  {
  }

  lemma Five5(a: bv32, b: bv32)
    ensures Low(From(X(a, b), 4)) == X(Low(From(a, 4)), Low(From(b, 4)))
  {
  }

  lemma Five0(a: bv32, b: bv32)
    ensures Low(From(X(a, b), 5)) == X(Low(From(a, 5)), Low(From(b, 5)))
  {
  }

  lemma Narrow(a: bv32, b: bv32, m: bv32)
    requires Low(m) == X(Low(a), Low(b))
    ensures FiveBits(m) == X8(FiveBits(a), FiveBits(b))
  {
    hide X;
    Widen(FiveBits(a), FiveBits(b));
    SameNarrow(FiveBits(m), X8(FiveBits(a), FiveBits(b)));
  }

  lemma SameNarrow(a: bv8, b: bv8)
    requires a as bv32 == b as bv32
    ensures a == b
  {
  }

  /** The group and everything above it. */
  function From(m: bv32, i: nat): bv32
    requires i < 6
  {
    if i == 0 then m >> 25 else if i == 1 then m >> 20 else if i == 2 then m >> 15
    else if i == 3 then m >> 10 else if i == 4 then m >> 5 else m >> 0
  }

  lemma GroupIs(m: bv32, i: nat)
    requires i < 6
    ensures Group(m, i) == FiveBits(From(m, i))
  {
    hide FiveBits;
  }

  lemma FiveAt(a: bv32, b: bv32, i: nat)
    requires i < 6
    ensures Low(From(X(a, b), i)) == X(Low(From(a, i)), Low(From(b, i)))
  {
    hide X, From, Low;
    if i == 0 {
      Five25(a, b);
    } else if i == 1 {
      Five20(a, b);
    } else if i == 2 {
      Five15(a, b);
    } else if i == 3 {
      Five10(a, b);
    } else if i == 4 {
      Five5(a, b);
    } else {
      Five0(a, b);
    }
  }

  lemma GroupXor(a: bv32, b: bv32, i: nat)
    requires i < 6
    ensures Group(X(a, b), i) == X8(Group(a, i), Group(b, i))
  {
    hide X, X8, FiveBits, Group, From, Low;
    GroupIs(a, i);
    GroupIs(b, i);
    GroupIs(X(a, b), i);
    FiveAt(a, b, i);
    Narrow(From(a, i), From(b, i), From(X(a, b), i));
  }

  lemma GroupZero(i: nat)
    requires i < 6
    ensures Group(0, i) == 0
  {
  }

  lemma SameBits(c: bv8)
    ensures ((c as bv32) & 1 != 0) == (Bit(c, 1)) && ((c as bv32) & 2 != 0) == (Bit(c, 2))
    ensures ((c as bv32) & 4 != 0) == (Bit(c, 4)) && ((c as bv32) & 8 != 0) == (Bit(c, 8))
    ensures ((c as bv32) & 16 != 0) == (Bit(c, 16))
  {
  }

  /** The groups of the constants are a^n times those of the first. */
  lemma Constants(i: nat)
    requires i < 6
    ensures var g := GENERATOR[i + 1];
      && Group(0x3b6a57b2, i) == g && Group(0x26508e6d, i) == TimesA(g) && Group(0x1ea119fa, i) == TimesA(TimesA(g))
      && Group(0x3d4233dd, i) == TimesA(TimesA(TimesA(g))) && Group(0x2a1462b3, i) == TimesA(TimesA(TimesA(TimesA(g))))
  {
    GeneratorIs();
  }

  lemma TermGroup(c: bv8, bit: bv32, on: bool, k: bv32, i: nat)
    requires i < 6 && ((c as bv32) & bit != 0) == on
    ensures Group(Term(c as bv32, bit, k), i) == Part(on, Group(k, i))
  {
    hide Group;
    GroupZero(i);
  }

  lemma SumGroups(t1: bv32, t2: bv32, t3: bv32, t4: bv32, t5: bv32, i: nat)
    requires i < 6
    ensures Group(X(X(X(X(t1, t2), t3), t4), t5), i)
         == X8(X8(X8(X8(Group(t1, i), Group(t2, i)), Group(t3, i)), Group(t4, i)), Group(t5, i))
  {
    hide Group, X, X8;
    GroupXor(t1, t2, i);
    GroupXor(X(t1, t2), t3, i);
    GroupXor(X(X(t1, t2), t3), t4, i);
    GroupXor(X(X(X(t1, t2), t3), t4), t5, i);
  }

  lemma TermGroups(c: bv8, i: nat)
    requires i < 6
    ensures Group(Term(c as bv32, 1, 0x3b6a57b2), i) == Part(Bit(c, 1), Group(0x3b6a57b2, i))
    ensures Group(Term(c as bv32, 2, 0x26508e6d), i) == Part(Bit(c, 2), Group(0x26508e6d, i))
    ensures Group(Term(c as bv32, 4, 0x1ea119fa), i) == Part(Bit(c, 4), Group(0x1ea119fa, i))
    ensures Group(Term(c as bv32, 8, 0x3d4233dd), i) == Part(Bit(c, 8), Group(0x3d4233dd, i))
    ensures Group(Term(c as bv32, 16, 0x2a1462b3), i) == Part(Bit(c, 16), Group(0x2a1462b3, i))
  {
    hide Group, Term, Part, Bit;
    SameBits(c);
    TermGroup(c, 1, Bit(c, 1), 0x3b6a57b2, i);
    TermGroup(c, 2, Bit(c, 2), 0x26508e6d, i);
    TermGroup(c, 4, Bit(c, 4), 0x1ea119fa, i);
    TermGroup(c, 8, Bit(c, 8), 0x3d4233dd, i);
    TermGroup(c, 16, Bit(c, 16), 0x2a1462b3, i);
  }

  /** What is added for a leading coefficient is that multiple of the generator. */
  lemma ReducedGroup(c: bv8, i: nat)
    requires i < 6
    ensures Group(Reduced(c as bv32), i) == Mul(c, GENERATOR[i + 1])
  {
    hide Group, X, X8, TimesA, Term, Part, Bit;
    var w := c as bv32;
    Constants(i);
    TermGroups(c, i);
    SumGroups(Term(w, 1, 0x3b6a57b2), Term(w, 2, 0x26508e6d), Term(w, 4, 0x1ea119fa), Term(w, 8, 0x3d4233dd), Term(w, 16, 0x2a1462b3), i);
  }

  lemma ShiftGroups(c: bv32, v: bv8)
    requires v < 32
    ensures var s := X(Shifted(c), v as bv32);
      Groups(s) == Groups(c)[1..] + [v]
  {
  }

  lemma TopGroup(c: bv32)
    requires c < 0x4000_0000
    ensures c >> 25 == Group(c, 0) as bv32
  {
  }

  /** A step: times x, plus the value, less a multiple of the generator. */
  lemma StepDivides(c: bv32, v: bv8)
    requires c < 0x4000_0000 && v < 32
    ensures Groups(c) + [v] == Xor([0] + Groups(Step(c, v as bv32)), Scaled(Group(c, 0)))
  {
    hide Group, Groups, X, X8, Mul, Reduced, Shifted, Scaled, Step, Xor;
    var a := Groups(c) + [v];
    var r := [0] + Groups(Step(c, v as bv32));
    var b := Xor(r, Scaled(Group(c, 0)));
    forall i | 0 <= i < 7 ensures a[i] == b[i] {
      XorAt(r, Scaled(Group(c, 0)), i);
      StepAt(c, v, i);
    }
  }

  lemma XorAt(a: Data, b: Data, i: nat)
    requires |a| == |b| && i < |a|
    ensures Xor(a, b)[i] == X8(a[i], b[i])
  {
    hide X8;
  }

  lemma GroupsAt(m: bv32, i: nat)
    requires i < 6
    ensures Groups(m)[i] == Group(m, i)
  {
    hide Group;
  }

  lemma StepAt(c: bv32, v: bv8, i: nat)
    requires c < 0x4000_0000 && v < 32 && i < 7
    ensures (Groups(c) + [v])[i] == X8(([0] + Groups(Step(c, v as bv32)))[i], Scaled(Group(c, 0))[i])
  {
    hide Group, Groups, X, X8, Mul, Reduced, Shifted, Scaled;
    var c0, s := Group(c, 0), X(Shifted(c), v as bv32);
    ScaledAt(c0, i);
    GeneratorIs();
    if i == 0 {
      GroupsAt(c, 0);
      MulOne(c0);
      X8Zero(c0);
    } else {
      ShiftGroups(c, v);
      TopGroup(c);
      GroupsAt(Step(c, v as bv32), i - 1);
      GroupsAt(s, i - 1);
      GroupXor(s, Reduced(c >> 25), i - 1);
      ReducedGroup(c0, i - 1);
      X8Cancel(Group(s, i - 1), Mul(c0, GENERATOR[i]));
    }
  }

  lemma X8Cancel(a: bv8, b: bv8)
    ensures X8(X8(a, b), b) == a
  {
  }

  //////////////////////////////////////////////////////////////////////////////
  // The remainder
  //////////////////////////////////////////////////////////////////////////////

  /** The values with a one in front, as a polynomial. */
  function Coefficients(v: Data): (r: Data)
    ensures |r| == |v| + 6
  {
    [0, 0, 0, 0, 0, 1] + v
  }

  lemma ProductNext(p: Data, c: bv8)
    ensures Product(p + [c]) == Xor(Product(p) + [0], Zeros(|p|) + Scaled(c))
  {
    hide Mul, X8, Xor;
    assert (p + [c])[..|p|] == p;
  }

  /** One more coefficient, one more place of the quotient. */
  lemma DividesNext(f: Data, q: Data, c: bv32, v: bv8)
    requires Divides(f, q, Groups(c)) && c < 0x4000_0000 && v < 32
    ensures Divides(f + [v], q + [Group(c, 0)], Groups(Step(c, v as bv32)))
  {
    hide Group, Groups, X8, Mul, Scaled, Step, Xor, Product;
    var n, c0, r := |q|, Group(c, 0), Groups(Step(c, v as bv32));
    ProductNext(q, c0);
    var s, p, b := Zeros(n) + Scaled(c0), Product(q) + [0], Xor(Product(q + [c0]), Zeros(n + 1) + r);
    forall i | 0 <= i < n + 7 ensures (f + [v])[i] == b[i] {
      XorAt(Product(q + [c0]), Zeros(n + 1) + r, i);
      XorAt(p, s, i);
      if i < n + 6 {
        XorAt(Product(q), Zeros(n) + Groups(c), i);
      }
      X8Zero(v);
      X8Comm(p[i], 0);
      X8Zero(p[i]);
      if i >= n {
        StepAt(c, v, i - n);
        X8Comm(Place(r, n, i), s[i]);
        X8Assoc(p[i], s[i], Place(r, n, i));
      }
    }
  }

  /** A coefficient of the new remainder, from the place n on. */
  function Place(r: Data, n: nat, i: nat): bv8
    requires |r| == 6 && n <= i < n + 7
  {
    ([0] + r)[i - n]
  }

  lemma RemainderStart()
    ensures Divides(Coefficients([]), [], Groups(1))
  {
    assert Groups(1) == [0, 0, 0, 0, 0, 1];
    hide Group, Groups, X8;
    assert Zeros(0) + Groups(1) == Groups(1);
    var a, b := Coefficients([]), Xor(Zeros(6), Groups(1));
    forall i | 0 <= i < 6 ensures a[i] == b[i] {
      XorAt(Zeros(6), Groups(1), i);
      X8Zero(a[i]);
    }
  }

  /** What PolyMod computes is the remainder on division by the generator. */
  lemma {:induction false} Remainder(v: Data) returns (q: Data)
    requires FiveBit(v)
    ensures FiveBit(q) && Divides(Coefficients(v), q, Groups(Fold(1, v)))
  {
    hide Group, Groups, Step, Divides, Fold;
    if v == [] {
      q := [];
      FoldNone(1, v);
      RemainderStart();
    } else {
      var n := |v| - 1;
      var p := Remainder(v[..n]);
      FoldRange(1, v[..n]);
      FoldLast(1, v);
      DividesNext(Coefficients(v[..n]), p, Fold(1, v[..n]), v[n]);
      q := p + [Group(Fold(1, v[..n]), 0)];
      assert Coefficients(v[..n]) + [v[n]] == Coefficients(v);
    }
  }

  /** The upper part of a product determines the quotient: the generator has a leading one. */
  lemma {:induction false} QuotientUnique(q: Data, p: Data)
    requires |q| == |p| && FiveBit(q) && FiveBit(p)
    requires forall i :: 0 <= i < |q| ==> Product(q)[i] == Product(p)[i]
    ensures q == p
  {
    hide Mul, X8, Xor, Product, Scaled;
    if q != [] {
      var n := |q| - 1;
      ProductNext(q[..n], q[n]);
      ProductNext(p[..n], p[n]);
      assert q[..n] + [q[n]] == q && p[..n] + [p[n]] == p;
      forall i | 0 <= i < n ensures Product(q[..n])[i] == Product(p[..n])[i] {
        ProductAt(q[..n], q[n], i);
        ProductAt(p[..n], p[n], i);
        X8Same(Product(q[..n])[i], Product(p[..n])[i], 0);
      }
      QuotientUnique(q[..n], p[..n]);
      ProductAt(q[..n], q[n], n);
      ProductAt(p[..n], p[n], n);
      ScaledAt(q[n], 0);
      ScaledAt(p[n], 0);
      GeneratorIs();
      MulOne(q[n]);
      MulOne(p[n]);
      X8Comm((Product(p[..n]) + [0])[n], p[n]);
      X8Comm((Product(p[..n]) + [0])[n], q[n]);
      X8Same(q[n], p[n], (Product(p[..n]) + [0])[n]);
    }
  }

  lemma ProductAt(p: Data, c: bv8, i: nat)
    requires i < |p| + 7
    ensures Product(p + [c])[i] == X8((Product(p) + [0])[i], (Zeros(|p|) + Scaled(c))[i])
  {
    hide Mul, X8, Xor, Product, Scaled;
    ProductNext(p, c);
    XorAt(Product(p) + [0], Zeros(|p|) + Scaled(c), i);
  }

  lemma X8Same(a: bv8, b: bv8, c: bv8)
    requires X8(a, c) == X8(b, c)
    ensures a == b
  {
    hide X8;
    X8Cancel(a, c);
    X8Cancel(b, c);
  }

  /** Division has only one outcome, so the remainder is the one that PolyMod computes. */
  lemma RemainderUnique(f: Data, q: Data, r: Data, p: Data, s: Data)
    requires FiveBit(q) && FiveBit(p) && Divides(f, q, r) && Divides(f, p, s)
    ensures q == p && r == s
  {
    hide X8, Xor, Product;
    var n := |q|;
    forall i | 0 <= i < n ensures Product(q)[i] == Product(p)[i] {
      XorAt(Product(q), Zeros(n) + r, i);
      XorAt(Product(p), Zeros(n) + s, i);
      X8Same(Product(q)[i], Product(p)[i], 0);
    }
    QuotientUnique(q, p);
    forall j | 0 <= j < 6 ensures r[j] == s[j] {
      XorAt(Product(q), Zeros(n) + r, n + j);
      XorAt(Product(p), Zeros(n) + s, n + j);
      X8Comm(Product(q)[n + j], r[j]);
      X8Comm(Product(q)[n + j], s[j]);
      X8Same(r[j], s[j], Product(q)[n + j]);
    }
  }
}
