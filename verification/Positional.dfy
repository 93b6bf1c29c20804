/** Numbers written in any base, most significant digit first, and the in-place step that both base 58 loops share. */
module Positional {

  function Pow(b: nat, n: nat): (r: nat)
    ensures b > 0 ==> r > 0
  {
    if n == 0 then 1 else b * Pow(b, n - 1)
  }

  lemma PowNext(b: nat, n: nat)
    ensures Pow(b, n + 1) == b * Pow(b, n) && Pow(b, 0) == 1
  {
  }

  lemma MulAssoc(a: nat, b: nat, c: nat)
    ensures a * (b * c) == a * b * c
  {
  }

  lemma {:induction false} PowAdd(b: nat, m: nat, n: nat)
    ensures Pow(b, m + n) == Pow(b, m) * Pow(b, n)
  {
    hide Pow;
    if m == 0 {
      PowNext(b, 0);
    } else {
      PowAdd(b, m - 1, n);
      PowNext(b, m - 1);
      PowNext(b, m - 1 + n);
      MulAssoc(b, Pow(b, m - 1), Pow(b, n));
    }
  }

  lemma MulMono(a: nat, b: nat, c: nat, d: nat)
    requires a <= b && c <= d
    ensures a * c <= b * d
  {
    assert a * c <= b * c <= b * d;
  }

  lemma {:induction false} PowMono(b: nat, m: nat, n: nat)
    requires m <= n && b > 0
    ensures Pow(b, m) <= Pow(b, n)
  {
    if m < n {
      PowMono(b, m, n - 1);
      MulMono(1, b, Pow(b, n - 1), Pow(b, n - 1));
    }
  }

  /** If one block of digits fits into another, so do q of them. */
  lemma {:induction false} BlocksFit(a: nat, m: nat, b: nat, n: nat, q: nat)
    requires Pow(a, m) <= Pow(b, n)
    ensures Pow(a, m * q) <= Pow(b, n * q)
  {
    if q > 0 {
      BlocksFit(a, m, b, n, q - 1);
      assert m * q == m + m * (q - 1) && n * q == n + n * (q - 1);
      PowAdd(a, m, m * (q - 1));
      PowAdd(b, n, n * (q - 1));
      MulMono(Pow(a, m), Pow(b, n), Pow(a, m * (q - 1)), Pow(b, n * (q - 1)));
    }
  }

  /** The number that digits stand for; the digits may exceed the base. */
  function Val(b: nat, s: seq<nat>): (r: nat) {
    if s == [] then 0 else Val(b, s[..|s| - 1]) * b + s[|s| - 1]
  }

  lemma ValSnoc(b: nat, s: seq<nat>, d: nat)
    ensures Val(b, s + [d]) == Val(b, s) * b + d
  {
    assert (s + [d])[..|s|] == s;
  }

  lemma ValShort(b: nat, x: nat, y: nat)
    ensures Val(b, []) == 0 && Val(b, [x]) == x && Val(b, [x, y]) == x * b + y
  {
    assert [x] == [] + [x] && [x, y] == [x] + [y];
    ValSnoc(b, [], x);
    ValSnoc(b, [x], y);
  }

  /** A leading digit can be split in two. */
  lemma {:induction false} ValSplit(b: nat, x: nat, hi: nat, d: nat, s: seq<nat>)
    requires x == hi * b + d
    ensures Val(b, [x] + s) == Val(b, [hi, d] + s)
  {
    hide Val;
    if s == [] {
      assert [x] + s == [x] && [hi, d] + s == [hi, d];
      ValShort(b, x, 0);
      ValShort(b, hi, d);
    } else {
      var p, e := s[..|s| - 1], s[|s| - 1];
      ValSplit(b, x, hi, d, p);
      assert [x] + s == [x] + p + [e] && [hi, d] + s == [hi, d] + p + [e];
      ValSnoc(b, [x] + p, e);
      ValSnoc(b, [hi, d] + p, e);
    }
  }

  lemma {:induction false} ValZero(b: nat, s: seq<nat>)
    ensures Val(b, [0] + s) == Val(b, s)
  {
    hide Val;
    if s == [] {
      assert [0] + s == [0];
      ValShort(b, 0, 0);
    } else {
      var p, e := s[..|s| - 1], s[|s| - 1];
      ValZero(b, p);
      assert [0] + s == [0] + p + [e] && s == p + [e];
      ValSnoc(b, [0] + p, e);
      ValSnoc(b, p, e);
    }
  }

  predicate Digits(b: nat, s: seq<nat>) {
    forall i :: 0 <= i < |s| ==> s[i] < b
  }

  lemma {:induction false} ValBound(b: nat, s: seq<nat>)
    requires Digits(b, s)
    ensures Val(b, s) < Pow(b, |s|)
  {
    hide Val, Pow;
    PowNext(b, 0);
    if s == [] {
      ValShort(b, 0, 0);
    } else {
      var p := s[..|s| - 1];
      ValBound(b, p);
      assert s == p + [s[|s| - 1]];
      ValSnoc(b, p, s[|s| - 1]);
      Below(b, Val(b, p), s[|s| - 1], Pow(b, |p|));
      PowNext(b, |p|);
    }
  }

  lemma {:induction false} ValAtLeast(b: nat, d: nat, s: seq<nat>)
    requires d > 0
    ensures Val(b, [d] + s) >= Pow(b, |s|)
  {
    hide Val, Pow;
    if s == [] {
      assert [d] + s == [d];
      ValShort(b, d, 0);
      PowNext(b, 0);
    } else {
      var p, e := s[..|s| - 1], s[|s| - 1];
      ValAtLeast(b, d, p);
      assert [d] + s == [d] + p + [e];
      ValSnoc(b, [d] + p, e);
      MulMono(Pow(b, |p|), Val(b, [d] + p), b, b);
      PowNext(b, |p|);
    }
  }

  /** Digits without leading zeros. */
  predicate Canonical(b: nat, s: seq<nat>) {
    Digits(b, s) && (s != [] ==> s[0] > 0)
  }

  /** The number determines its canonical digits. */
  lemma {:induction false} CanonicalUnique(b: nat, s: seq<nat>, t: seq<nat>)
    requires b > 1 && Canonical(b, s) && Canonical(b, t) && Val(b, s) == Val(b, t)
    ensures s == t
    decreases |s| + |t|
  {
    if s == [] || t == [] {
      CanonicalZero(b, s);
      CanonicalZero(b, t);
    } else {
      var p, q, d, e := s[..|s| - 1], t[..|t| - 1], s[|s| - 1], t[|t| - 1];
      SameDivision(b, Val(b, p), d, Val(b, q), e);
      CanonicalUnique(b, p, q);
      assert s == p + [d] && t == q + [e];
    }
  }

  /** A quotient of natural numbers is natural. */
  lemma NotNegative(x: nat, m: nat)
    requires m > 0
    ensures x / m >= 0
  {
    var q, r := x / m, x % m;
    assert x == q * m + r && r < m;
    if q < 0 {
      NegativeProduct(q, m);
    }
  }

  lemma NegativeProduct(q: int, m: nat)
    requires q < 0
    ensures q * m <= -(m as int)
  {
    var n: nat := -q;
    MulMono(1, n, m, m);
    assert q * m == -(n * m);
  }

  lemma Below(b: nat, x: nat, d: nat, y: nat)
    requires d < b && x < y
    ensures x * b + d < y * b
  {
    MulMono(x + 1, y, b, b);
    assert (x + 1) * b == x * b + b;
  }

  lemma SameDivision(b: nat, x: nat, d: nat, y: nat, e: nat)
    requires d < b && e < b && x * b + d == y * b + e
    ensures x == y && d == e
  {
    if x < y {
      Below(b, x, d, y);
    } else if y < x {
      Below(b, y, e, x);
    }
  }

  /** A number below the modulus that differs from x by a multiple of it is the remainder of x. */
  lemma IsRemainder(r: nat, m: nat, q: nat, x: nat)
    requires r < m && x == r + m * q
    ensures r == x % m && q == x / m
  {
    assert x == q * m + r;
    SameDivision(m, q, r, x / m, x % m);
  }

  lemma CanonicalZero(b: nat, s: seq<nat>)
    requires b > 0 && Canonical(b, s)
    ensures Val(b, s) == 0 <==> s == []
  {
    if s != [] {
      ValAtLeast(b, s[0], s[1..]);
      assert [s[0]] + s[1..] == s;
    }
  }

  /** Digits without their leading zeros. */
  function Stripped(s: seq<nat>): (r: seq<nat>)
    ensures r != [] ==> r[0] > 0
    ensures |r| <= |s| && r == s[|s| - |r|..] && forall i :: 0 <= i < |s| - |r| ==> s[i] == 0
  {
    if s != [] && s[0] == 0 then Stripped(s[1..]) else s
  }

  lemma {:induction false} ValStripped(b: nat, s: seq<nat>)
    ensures Val(b, Stripped(s)) == Val(b, s)
  {
    if s != [] && s[0] == 0 {
      ValStripped(b, s[1..]);
      ValZero(b, s[1..]);
      assert [0] + s[1..] == s;
    }
  }

  /** The digits from i on are done; what is before them is still to be multiplied, with a carry to add. */
  ghost predicate Midway(b: nat, factor: nat, was: seq<nat>, now: seq<nat>, i: nat, carry: nat, total: nat) {
    && i <= |now| == |was| && Digits(b, now) && now[..i] == was[..i]
    && Val(b, [Val(b, was[..i]) * factor + carry] + now[i..]) == total
  }

  lemma MidwayStart(b: nat, factor: nat, was: seq<nat>, add: nat)
    requires Digits(b, was)
    ensures Midway(b, factor, was, was, |was|, add, Val(b, was) * factor + add)
  {
    hide Val;
    assert was[..|was|] == was;
    var x := Val(b, was) * factor + add;
    assert [x] + was[|was|..] == [x];
    ValShort(b, x, 0);
  }

  lemma MidwayStep(b: nat, factor: nat, was: seq<nat>, now: seq<nat>, i: nat, carry: nat, total: nat)
    requires b > 0 && Midway(b, factor, was, now, i + 1, carry, total)
    ensures var t := carry + factor * now[i]; Midway(b, factor, was, now[i := t % b], i, t / b, total)
  {
    hide Val, Pow;
    assert now[i] == now[..i + 1][i] == was[i];
    var hi, t := Val(b, was[..i]), carry + factor * now[i];
    assert was[..i + 1] == was[..i] + [was[i]];
    ValSnoc(b, was[..i], was[i]);
    Regroup(b, hi, was[i], factor, carry, t / b, t % b);
    ValSplit(b, Val(b, was[..i + 1]) * factor + carry, hi * factor + t / b, t % b, now[i + 1..]);
    assert [hi * factor + t / b] + now[i := t % b][i..] == [hi * factor + t / b, t % b] + now[i + 1..];
    assert now[..i] == now[..i + 1][..i] == was[..i];
  }

  lemma MidwayEnd(b: nat, factor: nat, was: seq<nat>, now: seq<nat>, carry: nat, total: nat)
    requires Midway(b, factor, was, now, 0, carry, total)
    ensures Digits(b, now) && Val(b, [carry] + now) == total
  {
    assert now[0..] == now && Val(b, was[..0]) == 0;
  }

  /** Multiplies a number in place by a factor and adds to it; what does not fit is the carry. */
  method MulAdd(a: array<nat>, b: nat, factor: nat, add: nat) returns (carry: nat)
    requires b > 0 && Digits(b, a[..])
    modifies a
    ensures Digits(b, a[..]) && Val(b, [carry] + a[..]) == Val(b, old(a[..])) * factor + add
  {
    hide Midway, Val, Digits;
    ghost var total := Val(b, a[..]) * factor + add;
    MidwayStart(b, factor, a[..], add);
    carry := add;
    var i := a.Length;
    while i > 0
      invariant 0 <= i <= a.Length && Midway(b, factor, old(a[..]), a[..], i, carry, total)
    {
      i := i - 1;
      MidwayStep(b, factor, old(a[..]), a[..], i, carry, total);
      ghost var now := a[..];
      carry := carry + factor * a[i];
      a[i] := carry % b;
      carry := carry / b;
      assert a[..] == now[i := a[i]];
    }
    MidwayEnd(b, factor, old(a[..]), a[..], carry, total);
  }

  /** If the result fits, nothing is carried out. */
  lemma NoCarry(b: nat, carry: nat, s: seq<nat>)
    requires Val(b, [carry] + s) < Pow(b, |s|)
    ensures carry == 0 && Val(b, s) == Val(b, [carry] + s)
  {
    if carry > 0 {
      ValAtLeast(b, carry, s);
    }
    ValZero(b, s);
  }

  lemma Regroup(b: nat, hi: nat, d: nat, factor: nat, carry: nat, q: nat, r: nat)
    requires carry + factor * d == q * b + r
    ensures (hi * b + d) * factor + carry == (hi * factor + q) * b + r
  {
    assert (hi * b + d) * factor == hi * factor * b + factor * d;
    assert (hi * factor + q) * b == hi * factor * b + q * b;
  }
}
