/**
 Shifting numbers of 32-bit limbs, by whole limbs and by bits within them: what moving the
 limbs does to the number they stand for.
 */
module Shifts {
  import opened Bits
  import opened Positional
  import opened Limbs

  /** Bitwise or. */
  function Or(x: nat, y: nat): (r: nat)
    decreases x
  {
    if x == 0 then y else 2 * Or(x / 2, y / 2) + (if x % 2 == 1 || y % 2 == 1 then 1 else 0)
  }

  /** Where no bits overlap, or adds. */
  lemma {:induction false} OrDisjoint(x: nat, q: nat, s: nat)
    requires x < Exp2(s)
    ensures Or(x, q * Exp2(s)) == x + q * Exp2(s)
    decreases s
  {
    hide Or;
    if x == 0 {
      ZeroOr(q * Exp2(s));
    } else {
      var e := Exp2(s - 1);
      OrDisjoint(x / 2, q, s - 1);
      OrStep(x, q * e);
      Twice(q, e);
    }
  }

  lemma ZeroOr(y: nat)
    ensures Or(0, y) == y
  {
  }

  lemma Twice(q: nat, e: nat)
    ensures q * (2 * e) == 2 * (q * e)
  {
  }

  /** The last bits of a number and of an even one. */
  lemma OrStep(x: nat, y: nat)
    requires x > 0 && Or(x / 2, y) == x / 2 + y
    ensures Or(x, 2 * y) == x + 2 * y
  {
    assert 2 * y / 2 == y && 2 * y % 2 == 0;
  }

  lemma {:induction false} LimbBase(k: nat)
    ensures Pow(B, k) == Exp2(32 * k)
  {
    if k > 0 {
      LimbBase(k - 1);
      Exp2Add(32, 32 * (k - 1));
      Exp2Of32();
    }
  }

  lemma Exp2Of32()
    ensures Exp2(32) == B
  {
    hide Exp2;
    Exp2One();
    Exp2Add(1, 1);
    Exp2Add(2, 2);
    Exp2Add(4, 4);
    Exp2Add(8, 8);
    Exp2Add(16, 16);
  }

  lemma Exp2One()
    ensures Exp2(0) == 1 && Exp2(1) == 2
  {
  }

  /** The powers either side of a bit position in a limb. */
  lemma Halves(s: nat)
    requires s <= 32
    ensures Exp2(s) * Exp2(32 - s) == B
  {
    Exp2Add(s, 32 - s);
    Exp2Of32();
  }

  //////////////////////////////////////////////////////////////////////////////
  // To the left
  //////////////////////////////////////////////////////////////////////////////

  function Lo(x: nat, s: nat): nat { x * Exp2(s) % B }
  function Hi(x: nat, s: nat): nat { x * Exp2(s) / B }

  /** The part of a limb that a shift moves into the next limb. */
  lemma HiIs(x: nat, s: nat)
    requires x < B && s <= 32
    ensures Hi(x, s) == x / Exp2(32 - s) && Hi(x, s) < Exp2(s)
  {
    hide Exp2;
    Halves(s);
    var p, r := Exp2(s), Exp2(32 - s);
    var q, d := x / r, x % r;
    assert x * p == B * q + d * p by { Spread(q, r, d, p); }
    assert d * p < B by { MulLess(d, r, p); }
    IsRemainder(d * p, B, q, x * p);
    assert q < p by { DivLess(x, r, p); }
  }

  lemma Spread(q: nat, r: nat, d: nat, p: nat)
    ensures (q * r + d) * p == p * r * q + d * p
  {
    assert (q * r + d) * p == q * r * p + d * p;
    assert q * r * p == p * r * q by { MulAssoc(q, r, p); assert r * p == p * r; MulAssoc(q, p * r, 1); }
  }

  lemma MulLess(d: nat, r: nat, p: nat)
    requires d < r && p > 0
    ensures d * p < p * r
  {
    MulMono(d + 1, r, p, p);
    assert (d + 1) * p == d * p + p;
  }

  lemma DivLess(x: nat, r: nat, p: nat)
    requires r > 0 && x < p * r
    ensures x / r < p
  {
    var q := x / r;
    if q >= p {
      MulMono(p, q, r, r);
    }
  }

  /** The low part of a shifted limb has room for what comes from the limb below. */
  lemma LoIs(x: nat, s: nat) returns (d: nat)
    requires s <= 32
    ensures Lo(x, s) + B * Hi(x, s) == x * Exp2(s)
    ensures Lo(x, s) == d * Exp2(s) && Lo(x, s) + Exp2(s) <= B
  {
    hide Exp2;
    Halves(s);
    var p, r := Exp2(s), Exp2(32 - s);
    var q := x / r;
    d := x % r;
    Spread(q, r, d, p);
    Distribute(p, d, 1);
    MulMono(d + 1, r, p, p);
    assert r * p == p * r;
    IsRemainder(d * p, B, q, x * p);
  }

  /** What is moved up from below is set into bits that are free. */
  lemma LimbOr(h: nat, x: nat, s: nat)
    requires h < Exp2(s) && s <= 32
    ensures Or(h, Lo(x, s)) == h + Lo(x, s) < B
  {
    hide Exp2, Lo, Or;
    var q := LoIs(x, s);
    OrDisjoint(h, q, s);
  }

  /** Limb j of a number shifted by k limbs and s bits. */
  function ShlLimb(a: seq<nat>, k: nat, s: nat, j: nat): nat
    requires j < |a|
  {
    (if j >= k then Lo(a[j - k], s) else 0) + (if j > k then Hi(a[j - k - 1], s) else 0)
  }

  function Shl(a: seq<nat>, k: nat, s: nat): (r: seq<nat>)
    ensures |r| == |a| && forall j :: 0 <= j < |a| ==> r[j] == ShlLimb(a, k, s, j)
  {
    seq(|a|, j requires 0 <= j < |a| => ShlLimb(a, k, s, j))
  }

  /** The digits of a shifted number, before carries. */
  function ShlDigits(a: seq<nat>, k: nat, s: nat): (r: seq<nat>)
    ensures |r| == k + |a| && forall j :: 0 <= j < |r| ==> r[j] == if j < k then 0 else Times(a[j - k], Exp2(s))
  {
    seq(k, _ => 0) + Scale(a, Exp2(s))
  }

  lemma NumShlDigits(a: seq<nat>, k: nat, s: nat)
    ensures Num(ShlDigits(a, k, s)) == Num(a) * Exp2(32 * k + s)
  {
    hide Num, Pow, Exp2;
    var z := seq(k, _ => 0);
    NumConcat(z, Scale(a, Exp2(s)));
    NumZero(z);
    NumScale(a, Exp2(s));
    LimbBase(k);
    Exp2Add(32 * k, s);
    MulAssoc(Exp2(32 * k), Num(a), Exp2(s));
    Swapped(Exp2(32 * k), Exp2(s), Num(a));
  }

  lemma LimbRange(a: seq<nat>, k: nat, s: nat, j: nat)
    requires AreLimbs(a) && s < 32 && j < |a|
    ensures ShlLimb(a, k, s, j) < B
    ensures (if j > k then Hi(a[j - k - 1], s) else 0) + (if j < k then 0 else Times(a[j - k], Exp2(s)))
            == ShlLimb(a, k, s, j) + B * (if j >= k then Hi(a[j - k], s) else 0)
  {
    hide Exp2, Lo, Hi;
    if j >= k {
      var _ := LoIs(a[j - k], s);
      TimesIs(a[j - k], Exp2(s));
      assert Lo(a[j - k], s) + Exp2(s) <= B;
    }
    if j > k {
      HiIs(a[j - k - 1], s);
    }
  }

  lemma TimesIs(a: nat, b: nat)
    ensures Times(a, b) == a * b
  {
  }

  lemma {:induction false} ShlCarried(a: seq<nat>, k: nat, s: nat, i: nat)
    requires AreLimbs(a) && s < 32 && i <= |a|
    ensures Carried(Shl(a, k, s), ShlDigits(a, k, s)[..|a|], i, if i > k then Hi(a[i - k - 1], s) else 0)
  {
    hide Num, Pow, Exp2, Lo, Hi, Carried;
    var now, c := Shl(a, k, s), ShlDigits(a, k, s)[..|a|];
    forall j | 0 <= j < |a| ensures now[j] < B {
      LimbRange(a, k, s, j);
    }
    if i == 0 {
      CarryStart(now, c);
    } else {
      ShlCarried(a, k, s, i - 1);
      LimbRange(a, k, s, i - 1);
      CarryBy(now, c, i - 1, if i - 1 > k then Hi(a[i - k - 2], s) else 0, now[i - 1], if i > k then Hi(a[i - k - 1], s) else 0);
      assert now[i - 1 := now[i - 1]] == now;
    }
  }

  /** The limbs stand for the shifted number, modulo the width. */
  lemma NumShl(a: seq<nat>, k: nat, s: nat)
    requires AreLimbs(a) && s < 32
    ensures AreLimbs(Shl(a, k, s)) && Num(Shl(a, k, s)) == Num(a) * Exp2(32 * k + s) % Pow(B, |a|)
  {
    hide Num, Pow, Exp2, Lo, Hi, Carried;
    var now, d := Shl(a, k, s), ShlDigits(a, k, s);
    var carry := if |a| > k then Hi(a[|a| - k - 1], s) else 0;
    ShlCarried(a, k, s, |a|);
    CarryExact(now, d[..|a|], carry);
    assert d == d[..|a|] + d[|a|..];
    NumConcat(d[..|a|], d[|a|..]);
    NumShlDigits(a, k, s);
    NumBound(now);
    Distribute(Pow(B, |a|), carry, Num(d[|a|..]));
    IsRemainder(Num(now), Pow(B, |a|), carry + Num(d[|a|..]), Num(d));
  }

  //////////////////////////////////////////////////////////////////////////////
  // To the right
  //////////////////////////////////////////////////////////////////////////////

  /** The bits of a limb that a shift by s moves into the limb below. */
  function Dropped(x: nat, s: nat): nat { x % Exp2(s) }

  function Kept(x: nat, s: nat): nat {
    NotNegative(x, Exp2(s));
    x / Exp2(s)
  }

  /** What the limb above moves down, at the top of a limb. */
  function Moved(x: nat, s: nat): nat
    requires s <= 32
  {
    Dropped(x, s) * Exp2(32 - s)
  }

  /** A limb shifted left by what is left of 32, without what overflows. */
  lemma MovedIs(x: nat, s: nat)
    requires s <= 32
    ensures Moved(x, s) == x * Exp2(32 - s) % B
  {
    hide Exp2;
    Halves(s);
    var p, r := Exp2(s), Exp2(32 - s);
    var q, d := x / p, x % p;
    assert x * r == B * q + d * r by { Spread(q, p, d, r); assert r * p == p * r; }
    assert d * r < B by { MulLess(d, p, r); assert r * p == p * r; }
    IsRemainder(d * r, B, q, x * r);
  }

  lemma KeptRange(x: nat, y: nat, s: nat)
    requires x < B && s <= 32
    ensures Or(Kept(x, s), Moved(y, s)) == Kept(x, s) + Moved(y, s) < B
    ensures Kept(x, s) < Exp2(32 - s)
  {
    hide Exp2;
    Halves(s);
    var p, r := Exp2(s), Exp2(32 - s);
    assert Kept(x, s) < r by { assert r * p == p * r; DivLess(x, p, r); }
    OrDisjoint(Kept(x, s), Dropped(y, s), 32 - s);
    assert Dropped(y, s) * r + r <= B by { MulMono(Dropped(y, s) + 1, p, r, r); assert (Dropped(y, s) + 1) * r == Dropped(y, s) * r + r; }
  }

  /** Limb j of a number shifted right by k limbs and s bits. */
  function ShrLimb(a: seq<nat>, k: nat, s: nat, j: nat): nat
    requires s <= 32
  {
    (if j + k < |a| then Kept(a[j + k], s) else 0) + (if j + k + 1 < |a| then Moved(a[j + k + 1], s) else 0)
  }

  function Shr(a: seq<nat>, k: nat, s: nat): (r: seq<nat>)
    requires s <= 32
    ensures |r| == |a| && forall j :: 0 <= j < |a| ==> r[j] == ShrLimb(a, k, s, j)
  {
    seq(|a|, j requires 0 <= j < |a| => ShrLimb(a, k, s, j))
  }

  function DroppedAt(r: seq<nat>, s: nat, i: nat): nat {
    if i < |r| then Dropped(r[i], s) else 0
  }

  /** Scaled back, a shifted limb differs from the limb by what is dropped at either end. */
  lemma ScaledLimb(x: nat, y: nat, s: nat)
    requires s <= 32
    ensures Times(Kept(x, s) + Moved(y, s), Exp2(s)) + Dropped(x, s) == x + B * Dropped(y, s)
  {
    hide Exp2;
    Halves(s);
    var p, r := Exp2(s), Exp2(32 - s);
    assert x == Kept(x, s) * p + Dropped(x, s);
    assert Dropped(y, s) * r * p == B * Dropped(y, s) by { MulAssoc(Dropped(y, s), r, p); assert r * p == p * r; }
    assert (Kept(x, s) + Moved(y, s)) * p == Kept(x, s) * p + Moved(y, s) * p;
  }

  lemma NothingDropped(s: nat)
    ensures Dropped(0, s) == 0 && (s <= 32 ==> Moved(0, s) == 0)
  {
    hide Exp2;
    SmallMod(0, Exp2(s));
  }

  lemma {:induction false} ShrScaled(r: seq<nat>, s: nat, i: nat)
    requires s <= 32 && i <= |r|
    ensures Num(Scale(Shr(r, 0, s), Exp2(s))[..i]) + DroppedAt(r, s, 0) == Num(r[..i]) + Pow(B, i) * DroppedAt(r, s, i)
  {
    hide Num, Pow, Exp2, Times, Dropped, Moved, Kept;
    NumNone();
    var t := Scale(Shr(r, 0, s), Exp2(s));
    if i == 0 {
      assert t[..0] == [] && r[..0] == [];
    } else {
      var n := i - 1;
      ShrScaled(r, s, n);
      NumTake(t, n);
      NumTake(r, n);
      PowNext(B, n);
      var y := if n + 1 < |r| then r[n + 1] else 0;
      NothingDropped(s);
      ScaledLimb(r[n], y, s);
      ShrAlgebra(Pow(B, n), t[n], DroppedAt(r, s, n), r[n], DroppedAt(r, s, i));
    }
  }

  lemma ShrAlgebra(p: nat, t: nat, d: nat, r: nat, d': nat)
    requires t + d == r + B * d'
    ensures p * t + p * d == p * r + B * p * d'
  {
    Distribute(p, t, d);
    Distribute(p, r, B * d');
    MulAssoc(p, B, d');
  }

  /** Shifting right by less than a limb divides. */
  lemma ShrBits(r: seq<nat>, s: nat)
    requires AreLimbs(r) && s <= 32
    ensures Num(r) == Num(Shr(r, 0, s)) * Exp2(s) + DroppedAt(r, s, 0) && DroppedAt(r, s, 0) < Exp2(s)
  {
    hide Num, Pow, Exp2, Times;
    ShrScaled(r, s, |r|);
    NumScale(Shr(r, 0, s), Exp2(s));
    assert Scale(Shr(r, 0, s), Exp2(s))[..|r|] == Scale(Shr(r, 0, s), Exp2(s)) && r[..|r|] == r;
  }

  lemma ShrTail(a: seq<nat>, k: nat, s: nat)
    requires s <= 32 && k <= |a|
    ensures Num(Shr(a, k, s)) == Num(Shr(a[k..], 0, s))
  {
    hide Num, Pow, Exp2, Moved, Kept;
    var t, u := Shr(a, k, s), Shr(a[k..], 0, s);
    assert t[..|a| - k] == u;
    assert t == u + t[|a| - k..];
    NumConcat(u, t[|a| - k..]);
    NumZero(t[|a| - k..]);
  }

  /** The limbs stand for the quotient, rounded down. */
  lemma NumShr(a: seq<nat>, k: nat, s: nat)
    requires AreLimbs(a) && s < 32
    ensures AreLimbs(Shr(a, k, s)) && Num(Shr(a, k, s)) == Num(a) / Exp2(32 * k + s)
  {
    hide Num, Pow, Exp2, Moved, Kept;
    forall j | 0 <= j < |a| ensures ShrLimb(a, k, s, j) < B {
      NothingDropped(s);
      if j + k < |a| {
        KeptRange(a[j + k], if j + k + 1 < |a| then a[j + k + 1] else 0, s);
      }
    }
    NumBound(a);
    Exp2Add(32 * k, s);
    LimbBase(k);
    if k >= |a| {
      NumZero(Shr(a, k, s));
      PowMono(B, |a|, k);
      MulMono(1, Exp2(s), Exp2(32 * k), Exp2(32 * k));
      SmallDiv(Num(a), Exp2(32 * k + s));
    } else {
      assert a == a[..k] + a[k..];
      NumConcat(a[..k], a[k..]);
      NumBound(a[..k]);
      ShrBits(a[k..], s);
      ShrTail(a, k, s);
      TwoStageDiv(Num(a), Pow(B, k), Num(a[..k]), Exp2(s), DroppedAt(a[k..], s, 0), Num(Shr(a[k..], 0, s)));
    }
  }

  lemma SmallDiv(x: nat, m: nat)
    requires x < m
    ensures x / m == 0
  {
    IsRemainder(x, m, 0, x);
  }

  lemma SmallMod(x: nat, m: nat)
    requires x < m
    ensures x % m == x
  {
    IsRemainder(x, m, 0, x);
  }

  lemma TwoStageDiv(x: nat, p: nat, low: nat, f: nat, d: nat, t: nat)
    requires low < p && d < f && x == low + p * (t * f + d)
    ensures x / (p * f) == t
  {
    Distribute(p, t * f, d);
    Swapped(p, f, t);
    assert low + p * d < p * f by {
      MulMono(p, p, d + 1, f);
      Distribute(p, d, 1);
    }
    IsRemainder(low + p * d, p * f, t, x);
  }

  //////////////////////////////////////////////////////////////////////////////
  // Single bits
  //////////////////////////////////////////////////////////////////////////////

  lemma {:induction false} OrComm(x: nat, y: nat)
    ensures Or(x, y) == Or(y, x)
    decreases x + y
  {
    if x > 0 && y > 0 {
      OrComm(x / 2, y / 2);
    } else {
      OrNone(x);
      OrNone(y);
    }
  }

  lemma {:induction false} OrNone(x: nat)
    ensures Or(x, 0) == x == Or(0, x)
  {
    if x > 0 {
      OrNone(x / 2);
    }
  }

  predicate BitAt(x: nat, b: nat) { x / Exp2(b) % 2 == 1 }

  /** The highest bit of a number below a power of two. */
  lemma TopBit(x: nat, b: nat)
    requires x < Exp2(b + 1)
    ensures BitAt(x, b) <==> x >= Exp2(b)
  {
    var p := Exp2(b);
    if x >= p {
      IsRemainder(x - p, p, 1, x);
    } else {
      SmallDiv(x, p);
    }
  }

  /** The number of bits of a number: the place of the highest one that is set. */
  ghost predicate BitLength(x: nat, n: nat) {
    x < Exp2(n) && (n > 0 ==> x >= Exp2(n - 1))
  }

  lemma {:induction false} Exp2Mono(a: nat, b: nat)
    requires a <= b
    ensures Exp2(a) <= Exp2(b)
  {
    if a < b {
      Exp2Mono(a, b - 1);
    }
  }

  lemma LimbLength(s: seq<nat>, i: nat, n: nat)
    requires i < |s| && AreLimbs(s) && (forall j :: i < j < |s| ==> s[j] == 0) && BitLength(s[i], n) && 0 < n <= 32
    ensures BitLength(Num(s), 32 * i + n)
  {
    hide Num, Pow, Exp2;
    LowLimbs(s, i + 1);
    NumTake(s, i);
    NumBound(s[..i]);
    LimbBase(i);
    Exp2Add(32 * i, n);
    Exp2Add(32 * i, n - 1);
    var p := Pow(B, i);
    MulMono(p, p, Exp2(n - 1), s[i]);
    MulMono(p, p, s[i] + 1, Exp2(n));
    Distribute(p, s[i], 1);
  }

  /** If all bits below a position are clear, setting the bit at it adds its power of two. */
  lemma SetClearBit(s: seq<nat>, h: nat, e: nat)
    requires AreLimbs(s) && e / 32 < |s| && Num(s) == h * Exp2(e + 1)
    ensures var j, b := e / 32, e % 32;
      && Or(s[j], Exp2(b)) == s[j] + Exp2(b) < B
      && Num(s[j := s[j] + Exp2(b)]) == Num(s) + Exp2(e)
  {
    hide Num, Pow, Exp2, Or;
    var j, b := e / 32, e % 32;
    LimbBase(j);
    Exp2Add(32 * j, b);
    NumUpdate(s, j, Exp2(b));
    var y := ClearLimb(s, h, j, b);
    Exp2Next(b);
    OrDisjoint(Exp2(b), y, b + 1);
    OrComm(s[j], Exp2(b));
    TopRoom(y, b, s[j]);
  }

  lemma Exp2Next(b: nat)
    ensures Exp2(b + 1) == 2 * Exp2(b)
  {
  }

  lemma TopRoom(y: nat, b: nat, x: nat)
    requires b < 32 && x == y * Exp2(b + 1) && x < B
    ensures x + Exp2(b) < B
  {
    hide Exp2;
    Halves(b + 1);
    Exp2Next(b);
    var p, r := Exp2(b + 1), Exp2(31 - b);
    assert r * p == p * r;
    if y >= r {
      MulMono(r, y, p, p);
    } else {
      MulMono(y + 1, r, p, p);
      Distribute(p, y, 1);
    }
  }

  lemma ClearLimb(s: seq<nat>, h: nat, j: nat, b: nat) returns (y: nat)
    requires AreLimbs(s) && j < |s| && b < 32 && Num(s) == h * Exp2(32 * j + b + 1)
    ensures s[j] == y * Exp2(b + 1)
  {
    hide Num, Pow, Exp2;
    var p, m, r := Pow(B, j), Exp2(b + 1), Exp2(31 - b);
    LimbBase(j);
    Exp2Add(32 * j, b + 1);
    Halves(b + 1);
    assert s == s[..j] + s[j..] && s[j..] == [s[j]] + s[j + 1..];
    NumConcat(s[..j], s[j..]);
    NumConcat([s[j]], s[j + 1..]);
    OneLimb(s[j]);
    NumBound(s[..j]);
    var rest := Num(s[j + 1..]);
    Swapped(p, m, h);
    SameDivision(p, s[j] + B * rest, Num(s[..j]), h * m, 0);
    MulAssoc(m, r, rest);
    DiffMultiple(s[j], m, h, r * rest);
    y := h - r * rest;
  }

  lemma DiffMultiple(x: nat, m: nat, a: nat, b: nat)
    requires m > 0 && x + m * b == a * m
    ensures b <= a && x == (a - b) * m
  {
    Distribute(m, a, 1);
    if a < b {
      MulMono(m, m, a + 1, b);
    } else {
      Distribute(m, a - b, b);
    }
  }

  lemma OneLimb(x: nat)
    ensures Num([x]) == x && Pow(B, 1) == B
  {
    NumNone();
    assert [x] == [] + [x];
    NumSnoc([], x);
  }
}
