/** The field of 1024 elements, over the one of 32, and the powers of a primitive element of it. */
module Field1024 {
  import opened Bech32
  import opened Bech32Poly

  /** hi * z + lo, where z^2 = {6} z + {19}. */
  datatype Ext = Ext(hi: bv8, lo: bv8)

  const ZERO := Ext(0, 0)
  const ONE := Ext(0, 1)

  predicate Small(x: Ext) { x.hi < 32 && x.lo < 32 }

  function Plus(x: Ext, y: Ext): Ext { Ext(X8(x.hi, y.hi), X8(x.lo, y.lo)) }

  /** A multiple by an element of the smaller field. */
  function Times(c: bv8, x: Ext): Ext { Ext(Mul(c, x.hi), Mul(c, x.lo)) }

  /** The multiple by z. */
  function Up(x: Ext): Ext { Ext(X8(x.lo, Mul(6, x.hi)), Mul(19, x.hi)) }

  function Prod(x: Ext, y: Ext): Ext { Plus(Times(x.hi, Up(y)), Times(x.lo, y)) }

  //////////////////////////////////////////////////////////////////////////////
  // Addition
  //////////////////////////////////////////////////////////////////////////////

  lemma PlusComm(x: Ext, y: Ext)
    ensures Plus(x, y) == Plus(y, x)
  {
    hide X8;
    X8Comm(x.hi, y.hi);
    X8Comm(x.lo, y.lo);
  }

  lemma PlusZero(x: Ext)
    ensures Plus(ZERO, x) == x && Plus(x, ZERO) == x && Plus(x, x) == ZERO
  {
    hide X8;
    X8Zero(x.hi);
    X8Zero(x.lo);
    PlusComm(x, ZERO);
  }

  lemma PlusEqual(x: Ext, y: Ext)
    requires Plus(x, y) == ZERO
    ensures x == y
  {
    hide X8;
    X8Bits(x.hi, y.hi);
    X8Bits(x.lo, y.lo);
  }

  lemma PlusExchange(a: Ext, b: Ext, c: Ext, d: Ext)
    ensures Plus(Plus(a, b), Plus(c, d)) == Plus(Plus(a, c), Plus(b, d))
  {
    hide X8;
    Exchange(a.hi, b.hi, c.hi, d.hi);
    Exchange(a.lo, b.lo, c.lo, d.lo);
  }

  lemma PlusSmall(x: Ext, y: Ext)
    requires Small(x) && Small(y)
    ensures Small(Plus(x, y))
  {
    hide X8;
    X8Bits(x.hi, y.hi);
    X8Bits(x.lo, y.lo);
  }

  //////////////////////////////////////////////////////////////////////////////
  // Multiples
  //////////////////////////////////////////////////////////////////////////////

  lemma TimesPlus(c: bv8, x: Ext, y: Ext)
    ensures Times(c, Plus(x, y)) == Plus(Times(c, x), Times(c, y))
  {
    hide X8, Mul;
    MulDistributes(c, x.hi, y.hi);
    MulDistributes(c, x.lo, y.lo);
  }

  lemma TimesTimes(c: bv8, d: bv8, x: Ext)
    ensures Times(c, Times(d, x)) == Times(d, Times(c, x))
  {
    hide Mul;
    MulExchange(c, d, x.hi);
    MulExchange(c, d, x.lo);
  }

  lemma TimesSmall(c: bv8, x: Ext)
    requires c < 32 && Small(x)
    ensures Small(Times(c, x)) && (c != 0 && Times(c, x) == ZERO ==> x == ZERO)
  {
    hide Mul;
    MulRange(c, x.hi);
    MulRange(c, x.lo);
  }

  lemma UpPlus(x: Ext, y: Ext)
    ensures Up(Plus(x, y)) == Plus(Up(x), Up(y))
  {
    hide X8, Mul;
    MulDistributes(6, x.hi, y.hi);
    MulDistributes(19, x.hi, y.hi);
    Exchange(x.lo, y.lo, Mul(6, x.hi), Mul(6, y.hi));
  }

  lemma UpTimes(c: bv8, x: Ext)
    ensures Up(Times(c, x)) == Times(c, Up(x))
  {
    hide X8, Mul;
    MulDistributes(c, x.lo, Mul(6, x.hi));
    MulExchange(6, c, x.hi);
    MulExchange(19, c, x.hi);
  }

  lemma UpSmall(x: Ext)
    requires Small(x)
    ensures Small(Up(x))
  {
    hide X8, Mul;
    MulRange(6, x.hi);
    MulRange(19, x.hi);
    X8Bits(x.lo, Mul(6, x.hi));
  }

  //////////////////////////////////////////////////////////////////////////////
  // Products
  //////////////////////////////////////////////////////////////////////////////

  lemma ProdPlus(x: Ext, y: Ext, w: Ext)
    ensures Prod(x, Plus(y, w)) == Plus(Prod(x, y), Prod(x, w))
  {
    hide Plus, Times, Up;
    UpPlus(y, w);
    TimesPlus(x.hi, Up(y), Up(w));
    TimesPlus(x.lo, y, w);
    PlusExchange(Times(x.hi, Up(y)), Times(x.hi, Up(w)), Times(x.lo, y), Times(x.lo, w));
  }

  lemma ProdUp(x: Ext, y: Ext)
    ensures Prod(x, Up(y)) == Up(Prod(x, y))
  {
    hide Plus, Times, Up;
    UpPlus(Times(x.hi, Up(y)), Times(x.lo, y));
    UpTimes(x.hi, Up(y));
    UpTimes(x.lo, y);
  }

  lemma ProdTimes(x: Ext, c: bv8, y: Ext)
    ensures Prod(x, Times(c, y)) == Times(c, Prod(x, y))
  {
    hide Plus, Times, Up;
    UpTimes(c, y);
    TimesTimes(x.hi, c, Up(y));
    TimesTimes(x.lo, c, y);
    TimesPlus(c, Times(x.hi, Up(y)), Times(x.lo, y));
  }

  lemma ProdExchange(x: Ext, w: Ext, y: Ext)
    ensures Prod(x, Prod(w, y)) == Prod(w, Prod(x, y))
  {
    assert Prod(w, y) == Plus(Times(w.hi, Up(y)), Times(w.lo, y));
    assert Prod(w, Prod(x, y)) == Plus(Times(w.hi, Up(Prod(x, y))), Times(w.lo, Prod(x, y)));
    hide Plus, Times, Up, Prod;
    ProdPlus(x, Times(w.hi, Up(y)), Times(w.lo, y));
    ProdTimes(x, w.hi, Up(y));
    ProdTimes(x, w.lo, y);
    ProdUp(x, y);
  }

  lemma ProdSmall(x: Ext, y: Ext)
    requires Small(x) && Small(y)
    ensures Small(Prod(x, y))
  {
    hide Plus, Times, Up;
    UpSmall(y);
    TimesSmall(x.hi, Up(y));
    TimesSmall(x.lo, y);
    PlusSmall(Times(x.hi, Up(y)), Times(x.lo, y));
  }

  lemma ProdOne(x: Ext)
    requires Small(x)
    ensures Prod(x, ONE) == x
  {
    hide X8, Mul;
    MulZero(6);
    MulZero(19);
    MulZero(x.hi);
    MulZero(x.lo);
    MulOne(x.hi);
    MulOne(x.lo);
    X8Zero(1);
    X8Comm(1, 0);
    X8Zero(x.hi);
    X8Zero(x.lo);
    X8Comm(x.hi, 0);
  }

  lemma ProdComm(x: Ext, y: Ext)
    requires Small(x) && Small(y)
    ensures Prod(x, y) == Prod(y, x)
  {
    hide Prod;
    ProdOne(x);
    ProdOne(y);
    ProdExchange(x, y, ONE);
  }

  lemma ProdAssoc(x: Ext, w: Ext, y: Ext)
    requires Small(x) && Small(w) && Small(y)
    ensures Prod(Prod(x, w), y) == Prod(x, Prod(w, y))
  {
    hide Prod;
    ProdSmall(x, w);
    ProdComm(Prod(x, w), y);
    ProdExchange(y, x, w);
    ProdComm(y, w);
  }

  lemma ProdZero(x: Ext)
    ensures Prod(x, ZERO) == ZERO
  {
    hide X8, Mul;
    MulZero(6);
    MulZero(19);
    MulZero(x.hi);
    MulZero(x.lo);
    X8Zero(0);
  }

  //////////////////////////////////////////////////////////////////////////////
  // No product of others is zero
  //////////////////////////////////////////////////////////////////////////////

  /** The other root of the same quadratic. */
  function Conjugate(x: Ext): Ext { Ext(x.hi, X8(x.lo, Mul(6, x.hi))) }

  function Norm(x: Ext): bv8 { X8(Mul(x.hi, Mul(19, x.hi)), Mul(X8(x.lo, Mul(6, x.hi)), x.lo)) }

  lemma ConjugateSmall(x: Ext)
    requires Small(x)
    ensures Small(Conjugate(x)) && Norm(x) < 32
  {
    hide X8, Mul;
    MulRange(6, x.hi);
    MulRange(19, x.hi);
    X8Bits(x.lo, Mul(6, x.hi));
    MulRange(x.hi, Mul(19, x.hi));
    MulRange(X8(x.lo, Mul(6, x.hi)), x.lo);
    X8Bits(Mul(x.hi, Mul(19, x.hi)), Mul(X8(x.lo, Mul(6, x.hi)), x.lo));
  }

  lemma ConjugateProd(x: Ext)
    requires Small(x)
    ensures Prod(Conjugate(x), x) == Ext(0, Norm(x))
  {
    hide X8, Mul;
    MulRange(6, x.hi);
    X8Bits(x.lo, Mul(6, x.hi));
    MulCommutes(x.hi, X8(x.lo, Mul(6, x.hi)));
    X8Zero(Mul(x.hi, X8(x.lo, Mul(6, x.hi))));
  }

  /** The quadratic has no root in the smaller field. */
  lemma NoRoot(w: bv8)
    requires w < 32
    ensures X8(19, Mul(X8(w, 6), w)) < 32 && X8(19, Mul(X8(w, 6), w)) != 0
  {
  }

  lemma MulLeft(b: bv8, c: bv8, x: bv8)
    requires b < 32 && c < 32 && x < 32
    ensures Mul(X8(b, c), x) == X8(Mul(b, x), Mul(c, x))
  {
    hide X8, Mul;
    X8Bits(b, c);
    MulCommutes(X8(b, c), x);
    MulCommutes(b, x);
    MulCommutes(c, x);
    MulDistributes(x, b, c);
  }

  /** For lo = w hi, the norm is the value of the quadratic at w, times hi^2. */
  lemma NormIs(w: bv8, h: bv8)
    requires w < 32 && h < 32
    ensures Norm(Ext(h, Mul(w, h))) == Mul(X8(19, Mul(X8(w, 6), w)), Mul(h, h))
  {
    hide X8, Mul;
    var s, hh := X8(w, 6), Mul(h, h);
    X8Bits(w, 6);
    MulRange(h, h);
    MulRange(w, h);
    MulRange(s, w);
    MulExchange(h, 19, h);
    MulLeft(w, 6, h);
    MulAssociates(s, h, Mul(w, h));
    MulExchange(h, w, h);
    MulAssociates(s, w, hh);
    MulLeft(19, Mul(s, w), hh);
  }

  lemma Quotient(l: bv8, h: bv8) returns (w: bv8)
    requires l < 32 && 0 < h < 32
    ensures w < 32 && Mul(w, h) == l
  {
    hide Mul, Inverse;
    InverseIs(h);
    w := Mul(l, Inverse(h));
    MulRange(l, Inverse(h));
    MulAssociates(l, Inverse(h), h);
    MulCommutes(h, Inverse(h));
    MulOne(l);
  }

  lemma NormNotZero(x: Ext)
    requires Small(x) && Norm(x) == 0
    ensures x == ZERO
  {
    hide X8, Mul;
    if x.hi == 0 {
      MulZero(6);
      MulZero(19);
      MulZero(0);
      X8Zero(x.lo);
      X8Comm(x.lo, 0);
      X8Zero(Mul(x.lo, x.lo));
      MulRange(x.lo, x.lo);
    } else {
      var w := Quotient(x.lo, x.hi);
      NormIs(w, x.hi);
      NoRoot(w);
      MulRange(x.hi, x.hi);
      MulRange(X8(19, Mul(X8(w, 6), w)), Mul(x.hi, x.hi));
      assert false;
    }
  }

  lemma LoTimes(c: bv8, x: Ext)
    requires Small(x)
    ensures Prod(Ext(0, c), x) == Times(c, x)
  {
    hide X8, Mul;
    UpSmall(x);
    MulOne(Up(x).hi);
    MulOne(Up(x).lo);
    X8Zero(Mul(c, x.hi));
    X8Zero(Mul(c, x.lo));
  }

  lemma NoZeroProd(x: Ext, y: Ext)
    requires Small(x) && Small(y) && Prod(x, y) == ZERO
    ensures x == ZERO || y == ZERO
  {
    hide Prod, Times, Conjugate, Norm, Small;
    ConjugateSmall(x);
    ProdAssoc(Conjugate(x), x, y);
    ConjugateProd(x);
    ProdZero(Conjugate(x));
    LoTimes(Norm(x), y);
    TimesSmall(Norm(x), y);
    if Norm(x) == 0 {
      NormNotZero(x);
    }
  }
}
