/**
 Numbers as sequences of 32-bit limbs, least significant first: carries, complements and the
 order of numbers, limb by limb.
 */
module Limbs {
  import opened Positional

  const B := 0x1_0000_0000

  predicate AreLimbs(s: seq<nat>) {
    forall i :: 0 <= i < |s| ==> s[i] < B
  }

  /** The number that digits stand for; the digits may exceed 32 bits. */
  function Num(s: seq<nat>): (r: nat) {
    if s == [] then 0 else Num(s[..|s| - 1]) + Pow(B, |s| - 1) * s[|s| - 1]
  }

  lemma NumSnoc(s: seq<nat>, d: nat)
    ensures Num(s + [d]) == Num(s) + Pow(B, |s|) * d
  {
    assert (s + [d])[..|s|] == s;
  }

  lemma NumTake(s: seq<nat>, i: nat)
    requires i < |s|
    ensures Num(s[..i + 1]) == Num(s[..i]) + Pow(B, i) * s[i]
  {
    assert s[..i + 1] == s[..i] + [s[i]];
    NumSnoc(s[..i], s[i]);
  }

  lemma NumNone()
    ensures Num([]) == 0 && Pow(B, 0) == 1
  {
  }

  lemma {:induction false} NumBound(s: seq<nat>)
    requires AreLimbs(s)
    ensures Num(s) < Pow(B, |s|)
  {
    hide Num, Pow;
    NumNone();
    if s != [] {
      var n := |s| - 1;
      NumBound(s[..n]);
      NumTake(s, n);
      assert s[..n + 1] == s;
      PowNext(B, n);
      Room(Pow(B, n), Num(s[..n]), s[n]);
    }
  }

  lemma Room(p: nat, x: nat, d: nat)
    requires x < p && d < B
    ensures x + p * d < B * p
  {
    MulMono(p, p, d + 1, B);
    assert p * (d + 1) == p * d + p;
  }

  /** One carry: what is done so far and the carry stand for the digits so far. */
  lemma CarryStep(now: seq<nat>, c: seq<nat>, i: nat, carry: nat, d: nat, carry': nat)
    requires i < |now| && i < |c| && now[i] == d && carry + c[i] == d + B * carry'
    requires Num(now[..i]) + Pow(B, i) * carry == Num(c[..i])
    ensures Num(now[..i + 1]) + Pow(B, i + 1) * carry' == Num(c[..i + 1])
  {
    hide Num, Pow;
    NumTake(now, i);
    NumTake(c, i);
    PowNext(B, i);
    Regroup4(Pow(B, i), carry, c[i], d, carry');
  }

  lemma Regroup4(p: nat, carry: nat, x: nat, d: nat, carry': nat)
    requires carry + x == d + B * carry'
    ensures p * carry + p * x == p * d + B * p * carry'
  {
    assert p * carry + p * x == p * (carry + x);
    assert p * (d + B * carry') == p * d + p * (B * carry');
    assert p * (B * carry') == B * p * carry';
  }

  /** Adding digit by digit adds. */
  function Sum(s: seq<nat>, t: seq<nat>): (r: seq<nat>)
    requires |s| == |t|
    ensures |r| == |s| && forall i :: 0 <= i < |s| ==> r[i] == s[i] + t[i]
  {
    seq(|s|, i requires 0 <= i < |s| => s[i] + t[i])
  }

  lemma {:induction false} NumSum(s: seq<nat>, t: seq<nat>)
    requires |s| == |t|
    ensures Num(Sum(s, t)) == Num(s) + Num(t)
  {
    hide Pow;
    if s != [] {
      var n := |s| - 1;
      NumSum(s[..n], t[..n]);
      assert Sum(s, t)[..n] == Sum(s[..n], t[..n]);
      assert Pow(B, n) * (s[n] + t[n]) == Pow(B, n) * s[n] + Pow(B, n) * t[n];
    }
  }

  function Times(a: nat, b: nat): nat { a * b }

  /** Multiplying digit by digit multiplies. */
  function Scale(s: seq<nat>, f: nat): (r: seq<nat>)
    ensures |r| == |s| && forall i :: 0 <= i < |s| ==> r[i] == Times(s[i], f)
  {
    seq(|s|, i requires 0 <= i < |s| => Times(s[i], f))
  }

  lemma {:induction false} NumScale(s: seq<nat>, f: nat)
    ensures Num(Scale(s, f)) == Num(s) * f
  {
    hide Pow;
    if s != [] {
      var n := |s| - 1;
      NumScale(s[..n], f);
      assert Scale(s, f)[..n] == Scale(s[..n], f);
      assert Pow(B, n) * (s[n] * f) == Pow(B, n) * s[n] * f;
      assert (Num(s[..n]) + Pow(B, n) * s[n]) * f == Num(s[..n]) * f + Pow(B, n) * s[n] * f;
    }
  }

  /** The value of a prefix and what is above it. */
  lemma {:induction false} NumConcat(s: seq<nat>, t: seq<nat>)
    ensures Num(s + t) == Num(s) + Pow(B, |s|) * Num(t)
  {
    hide Num, Pow;
    NumNone();
    if t == [] {
      assert s + t == s;
    } else {
      var n := |t| - 1;
      NumConcat(s, t[..n]);
      assert s + t == s + t[..n] + [t[n]] && t == t[..n] + [t[n]];
      NumSnoc(s + t[..n], t[n]);
      NumSnoc(t[..n], t[n]);
      PowAdd(B, |s|, n);
      assert Pow(B, |s|) * (Num(t[..n]) + Pow(B, n) * t[n]) == Pow(B, |s|) * Num(t[..n]) + Pow(B, |s|) * Pow(B, n) * t[n];
    }
  }

  /** The limbs below i, and a carry into limb i, stand for the digits below i. */
  ghost predicate Carried(now: seq<nat>, c: seq<nat>, i: nat, carry: nat) {
    i <= |now| == |c| && AreLimbs(now) && Num(now[..i]) + Pow(B, i) * carry == Num(c[..i])
  }

  lemma CarryStart(s: seq<nat>, c: seq<nat>)
    requires |s| == |c| && AreLimbs(s)
    ensures Carried(s, c, 0, 0)
  {
    assert s[..0] == [] && c[..0] == [];
  }

  lemma CarryOn(was: seq<nat>, c: seq<nat>, i: nat, carry: nat)
    requires i < |was| && Carried(was, c, i, carry)
    ensures var n := carry + c[i]; Carried(was[i := n % B], c, i + 1, n / B)
  {
    hide Num, Pow;
    var n := carry + c[i];
    var now := was[i := n % B];
    assert now[..i] == was[..i];
    CarryStep(now, c, i, carry, n % B, n / B);
  }

  lemma CarryBy(was: seq<nat>, c: seq<nat>, i: nat, carry: nat, lo: nat, hi: nat)
    requires i < |was| && Carried(was, c, i, carry) && lo < B && carry + c[i] == lo + B * hi
    ensures Carried(was[i := lo], c, i + 1, hi)
  {
    hide Num, Pow;
    CarryOn(was, c, i, carry);
    SameDivision(B, hi, lo, (carry + c[i]) / B, (carry + c[i]) % B);
  }

  lemma CarryExact(now: seq<nat>, c: seq<nat>, carry: nat)
    requires Carried(now, c, |now|, carry)
    ensures AreLimbs(now) && Num(now) + Pow(B, |now|) * carry == Num(c)
  {
    assert now[..|now|] == now && c[..|now|] == c;
  }

  lemma CarryEnd(now: seq<nat>, c: seq<nat>, carry: nat)
    requires Carried(now, c, |now|, carry)
    ensures AreLimbs(now) && Num(now) == Num(c) % Pow(B, |now|)
  {
    hide Num, Pow;
    assert now[..|now|] == now && c[..|now|] == c;
    NumBound(now);
    IsRemainder(Num(now), Pow(B, |now|), carry, Num(c));
  }

  lemma {:induction false} NumZero(s: seq<nat>)
    requires forall i :: 0 <= i < |s| ==> s[i] == 0
    ensures Num(s) == 0
  {
    if s != [] {
      NumZero(s[..|s| - 1]);
    }
  }

  /** Nothing left to carry, and nothing changed above. */
  lemma CarryStop(now: seq<nat>, c: seq<nat>, i: nat)
    requires Carried(now, c, i, 0) && now[i..] == c[i..]
    ensures AreLimbs(now) && Num(now) == Num(c) % Pow(B, |now|)
  {
    hide Num, Pow;
    assert now == now[..i] + now[i..] && c == c[..i] + c[i..];
    NumConcat(now[..i], now[i..]);
    NumConcat(c[..i], c[i..]);
    NumBound(now);
    IsRemainder(Num(now), Pow(B, |now|), 0, Num(c));
  }

  lemma NumBump(s: seq<nat>)
    requires s != []
    ensures Num(s[0 := s[0] + 1]) == Num(s) + 1
  {
    hide Num, Pow;
    NumNone();
    var c := s[0 := s[0] + 1];
    assert s == [s[0]] + s[1..] && c == [c[0]] + s[1..] && [s[0]] == [] + [s[0]] && [c[0]] == [] + [c[0]];
    NumConcat([s[0]], s[1..]);
    NumConcat([c[0]], s[1..]);
    NumSnoc([], s[0]);
    NumSnoc([], c[0]);
  }

  function Flipped(s: seq<nat>): (r: seq<nat>)
    requires AreLimbs(s)
    ensures |r| == |s| && AreLimbs(r) && forall i :: 0 <= i < |s| ==> r[i] == B - 1 - s[i]
  {
    seq(|s|, i requires 0 <= i < |s| => B - 1 - s[i])
  }

  /** A number and its complement add up to all ones. */
  lemma {:induction false} NumFlipped(s: seq<nat>)
    requires AreLimbs(s)
    ensures Num(s) + Num(Flipped(s)) == Pow(B, |s|) - 1
  {
    hide Num, Pow;
    NumNone();
    if s == [] {
      assert Flipped(s) == [];
    } else {
      var n, f := |s| - 1, Flipped(s);
      NumFlipped(s[..n]);
      assert f[..n] == Flipped(s[..n]) && s[..n + 1] == s && f[..n + 1] == f;
      NumTake(s, n);
      NumTake(f, n);
      PowNext(B, n);
      assert Pow(B, n) * s[n] + Pow(B, n) * f[n] == Pow(B, n) * (B - 1);
    }
  }

  /** One row of the schoolbook product: what is added, up to multiples of the modulus. */
  lemma RowAdds(was: seq<nat>, now: seq<nat>, y: seq<nat>, j: nat, f: nat, q: nat, k: nat, x: nat) returns (k': nat)
    requires |was| == |now| == |y| && j < |y| && now[..j] == was[..j]
    requires Num(was[j..]) + Num(y[..|y| - j]) * f == Num(now[j..]) + Pow(B, |y| - j) * q
    requires Reaches(was, y, k, x)
    ensures Reaches(now, y, k', x + Pow(B, j) * f)
  {
    hide Num, Pow;
    var w := |y|;
    assert was == was[..j] + was[j..] && now == now[..j] + now[j..] && y == y[..w - j] + y[w - j..];
    NumConcat(was[..j], was[j..]);
    NumConcat(now[..j], now[j..]);
    NumConcat(y[..w - j], y[w - j..]);
    PowAdd(B, j, w - j);
    var p, m, u, v := Pow(B, j), Pow(B, w - j), Num(y[..w - j]), Num(y[w - j..]);
    RowAlgebra(p, m, u, v, f, q, k, x, Num(was[..j]), Num(was[j..]), Num(now[j..]));
    k' := k + q + v * f;
  }

  ghost predicate Reaches(now: seq<nat>, y: seq<nat>, k: nat, x: nat) {
    Num(now) + Pow(B, |now|) * k == x * Num(y)
  }

  lemma RowAlgebra(p: nat, m: nat, u: nat, v: nat, f: nat, q: nat, k: nat, x: nat, low: nat, t: nat, t': nat)
    requires t + u * f == t' + m * q && low + p * t + p * m * k == x * (u + m * v)
    ensures low + p * t' + p * m * (k + q + v * f) == (x + p * f) * (u + m * v)
  {
    assert p * t + p * (u * f) == p * t' + p * (m * q) by {
      Distribute(p, t, u * f);
      Distribute(p, t', m * q);
    }
    MulAssoc(p, m, q);
    Distribute(p * m, k + q, v * f);
    Distribute(p * m, k, q);
    assert (x + p * f) * (u + m * v) == x * (u + m * v) + p * f * (u + m * v) by { Distribute(u + m * v, x, p * f); }
    Distribute(p * f, u, m * v);
    Swapped(p, f, u);
    Four(p, m, v, f);
  }

  lemma Distribute(a: nat, b: nat, c: nat)
    ensures a * (b + c) == a * b + a * c && (b + c) * a == a * b + a * c
  {
  }

  lemma Swapped(p: nat, f: nat, u: nat)
    ensures p * (u * f) == p * f * u
  {
    MulAssoc(p, f, u);
  }

  lemma Four(p: nat, m: nat, v: nat, f: nat)
    ensures p * m * (v * f) == p * f * (m * v)
  {
    Swapped(p * m, f, v);
    MulAssoc(p * f, m, v);
    Swapped(p, f, m);
    MulAssoc(p, m, f);
  }

  /** The digits that one row of the product adds up. */
  function RowDigits(was: seq<nat>, y: seq<nat>, j: nat, f: nat): (r: seq<nat>)
    requires |was| == |y| && j <= |y|
    ensures |r| == |y| - j && forall i :: 0 <= i < |r| ==> r[i] == was[j + i] + Times(y[i], f)
  {
    Sum(was[j..], Scale(y[..|y| - j], f))
  }

  lemma NumRowDigits(was: seq<nat>, y: seq<nat>, j: nat, f: nat)
    requires |was| == |y| && j <= |y|
    ensures Num(RowDigits(was, y, j, f)) == Num(was[j..]) + Num(y[..|y| - j]) * f
  {
    NumSum(was[j..], Scale(y[..|y| - j], f));
    NumScale(y[..|y| - j], f);
  }

  /** The highest limb that differs decides. */
  lemma HigherLimb(s: seq<nat>, t: seq<nat>, i: nat)
    requires |s| == |t| && i < |s| && AreLimbs(s) && AreLimbs(t) && s[i] < t[i]
    requires forall j :: i < j < |s| ==> s[j] == t[j]
    ensures Num(s) < Num(t)
  {
    hide Num, Pow;
    assert s[i + 1..] == t[i + 1..];
    assert s == s[..i + 1] + s[i + 1..] && t == t[..i + 1] + t[i + 1..];
    NumConcat(s[..i + 1], s[i + 1..]);
    NumConcat(t[..i + 1], t[i + 1..]);
    NumTake(s, i);
    NumTake(t, i);
    NumBound(s[..i]);
    MulMono(Pow(B, i), Pow(B, i), s[i] + 1, t[i]);
    Distribute(Pow(B, i), s[i], 1);
  }

  /** Changing one limb. */
  lemma NumUpdate(s: seq<nat>, i: nat, d: nat)
    requires i < |s|
    ensures Num(s[i := s[i] + d]) == Num(s) + Pow(B, i) * d
  {
    hide Num, Pow;
    var t := s[i := s[i] + d];
    assert s == s[..i + 1] + s[i + 1..] && t == t[..i + 1] + s[i + 1..] && t[..i] == s[..i];
    NumConcat(s[..i + 1], s[i + 1..]);
    NumConcat(t[..i + 1], s[i + 1..]);
    NumTake(s, i);
    NumTake(t, i);
    Distribute(Pow(B, i), s[i], d);
  }

  /** A number whose higher limbs are zero. */
  lemma LowLimbs(s: seq<nat>, i: nat)
    requires i <= |s| && forall j :: i <= j < |s| ==> s[j] == 0
    ensures Num(s) == Num(s[..i])
  {
    hide Num, Pow;
    assert s == s[..i] + s[i..];
    NumConcat(s[..i], s[i..]);
    NumZero(s[i..]);
  }
}
