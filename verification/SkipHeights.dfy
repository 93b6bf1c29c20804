module SkipHeights {
  // The heights that skip pointers go back to, and how many steps the walk along them takes.

  import opened Bits

  /** Turns the lowest one bit of a number into a zero. */
  function InvertLowestOne(n: nat): (r: nat)
    ensures r <= n && (n > 0 ==> r < n)
  {
    if n == 0 then 0 else if n % 2 == 1 then n - 1 else 2 * InvertLowestOne(n / 2)
  }

  lemma {:induction false} InvertLowestOneExact(n: nat) returns (k: nat, q: nat)
    requires n > 0
    ensures n == InvertLowestOne(n) + Exp2(k) && InvertLowestOne(n) == Exp2(k + 1) * q
  {
    if n % 2 == 1 {
      k, q := 0, n / 2;
    } else {
      k, q := InvertLowestOneExact(n / 2);
      MulTwo(Exp2(k + 1), q);
      k := k + 1;
    }
  }

  /** The height that the skip pointer of a block goes back to. */
  function GetSkipHeight(height: nat): (r: nat)
    ensures height > 0 ==> r < height
  {
    if height < 2 then 0
    else if height % 2 == 1 then InvertLowestOne(InvertLowestOne(height - 1)) + 1
    else InvertLowestOne(height)
  }

  //////////////////////////////////////////////////////////////////////////////
  // The walk
  //////////////////////////////////////////////////////////////////////////////

  /** Follow the skip pointer only if the one of the parent is not better. */
  predicate Skips(w: nat, t: nat)
    requires w > 0
  {
    var a, b := GetSkipHeight(w), GetSkipHeight(w - 1);
    a == t || (a > t && !(b < a - 2 && b >= t))
  }

  function Next(w: nat, t: nat): (r: nat)
    requires t < w
    ensures t <= r < w
  {
    if Skips(w, t) then GetSkipHeight(w) else w - 1
  }

  /** The number of steps from height w down to height t. */
  function Steps(w: nat, t: nat): (n: nat)
    requires t <= w
    ensures n <= w - t
    decreases w
  {
    if w == t then 0 else 1 + Steps(Next(w, t), t)
  }

  lemma StepsNext(w: nat, t: nat)
    requires t < w
    ensures Steps(w, t) == 1 + Steps(Next(w, t), t)
  {
  }

  //////////////////////////////////////////////////////////////////////////////
  // One bits
  //////////////////////////////////////////////////////////////////////////////

  function Ones(n: nat): nat { if n == 0 then 0 else n % 2 + Ones(n / 2) }

  lemma {:induction false} OnesLess(n: nat)
    requires n > 0
    ensures Ones(n) > 0 && Ones(InvertLowestOne(n)) == Ones(n) - 1
  {
    if n % 2 == 0 {
      OnesLess(n / 2);
      assert InvertLowestOne(n) / 2 == InvertLowestOne(n / 2);
    } else {
      assert (n - 1) / 2 == n / 2;
    }
  }

  lemma {:induction false} OnesMax(n: nat, k: nat)
    requires n < Exp2(k)
    ensures Ones(n) <= k
  {
    if n > 0 {
      OnesMax(n / 2, k - 1);
    }
  }

  lemma OnesHalf(n: nat)
    ensures Ones(n) == n % 2 + Ones(n / 2) && Ones(0) == 0
  {
  }

  lemma {:induction false} OnesTop(k: nat, y: nat)
    requires y < Exp2(k)
    ensures Ones(Exp2(k) + y) == 1 + Ones(y)
  {
    if k > 0 {
      var e := Exp2(k - 1);
      OnesTop(k - 1, y / 2);
      OnesHalf(2 * e + y);
      OnesHalf(y);
      assert (2 * e + y) / 2 == e + y / 2 && (2 * e + y) % 2 == y % 2;
    }
  }

  /** The highest one bit is the last to go. */
  lemma {:induction false} TopLast(k: nat, x: nat)
    requires Exp2(k) <= x < Exp2(k + 1)
    ensures Ones(x) >= 1 && (Ones(x) >= 2 ==> InvertLowestOne(x) >= Exp2(k)) && (Ones(x) == 1 ==> x == Exp2(k))
    ensures InvertLowestOne(Exp2(k)) == 0 && Ones(Exp2(k)) == 1
  {
    if k > 0 {
      TopLast(k - 1, x / 2);
      assert Ones(x) == x % 2 + Ones(x / 2);
    }
  }

  /** A multiple of 2^k. */
  predicate Aligned(lo: nat, k: nat) { k == 0 || (lo % 2 == 0 && Aligned(lo / 2, k - 1)) }

  lemma {:induction false} AlignedHalves(lo: nat, k: nat)
    requires k > 0 && Aligned(lo, k)
    ensures Aligned(lo, k - 1) && Aligned(lo + Exp2(k - 1), k - 1)
  {
    if k > 1 {
      AlignedHalves(lo / 2, k - 1);
      assert (lo + Exp2(k - 1)) / 2 == lo / 2 + Exp2(k - 2);
    }
  }

  lemma {:induction false} AlignedLess(m: nat, k: nat, j: nat)
    requires Aligned(m, k) && j <= k
    ensures Aligned(m, j)
  {
    if j > 0 {
      AlignedLess(m / 2, k - 1, j - 1);
    }
  }

  /** The multiple before, and how far the lowest one bit is from the end. */
  lemma {:induction false} AlignedBelow(m: nat, k: nat)
    requires m > 0 && Aligned(m, k)
    ensures m >= Exp2(k) && Aligned(m - Exp2(k), k) && InvertLowestOne(m) <= m - Exp2(k)
  {
    if k > 0 {
      AlignedBelow(m / 2, k - 1);
      assert (m - Exp2(k)) / 2 == m / 2 - Exp2(k - 1);
    }
  }

  lemma {:induction false} AlignedFirst(k: nat)
    ensures Aligned(0, k)
  {
    if k > 0 {
      AlignedFirst(k - 1);
    }
  }

  /** Within an aligned block, the bits above it stay. */
  lemma {:induction false} InvertInBlock(lo: nat, k: nat, x: nat)
    requires Aligned(lo, k) && 0 < x < Exp2(k)
    ensures InvertLowestOne(lo + x) == lo + InvertLowestOne(x)
  {
    if x % 2 == 0 {
      InvertInBlock(lo / 2, k - 1, x / 2);
      assert (lo + x) / 2 == lo / 2 + x / 2;
    }
  }

  predicate Odd(n: nat) { n % 2 == 1 }

  lemma Parity(lo: nat, x: nat)
    requires !Odd(lo)
    ensures Odd(lo + x) == Odd(x) && (x > 0 ==> Odd(x - 1) != Odd(x) && Odd(lo + x - 1) != Odd(x))
    ensures Odd(x + 1) != Odd(x) && (Odd(x) ==> x > 0)
  {
  }

  //////////////////////////////////////////////////////////////////////////////
  // From odd heights
  //////////////////////////////////////////////////////////////////////////////

  /** From an odd height the skip pointer is taken whenever it does not go too far. */
  lemma OddSkips(w: nat, t: nat)
    requires t < w && Odd(w) && w >= 3 && GetSkipHeight(w) >= t
    ensures Next(w, t) == GetSkipHeight(w)
  {
    assert GetSkipHeight(w - 1) == InvertLowestOne(w - 1) >= GetSkipHeight(w) - 1;
  }

  lemma SkipIs(w: nat)
    requires w >= 2
    ensures GetSkipHeight(w) == if Odd(w) then InvertLowestOne(InvertLowestOne(w - 1)) + 1 else InvertLowestOne(w)
  {
  }

  /** An odd number has one bit more than the even number below it. */
  lemma OddOnes(x: nat)
    requires Odd(x)
    ensures Ones(x) == Ones(x - 1) + 1
  {
    assert (x - 1) / 2 == x / 2;
  }

  lemma InvertEven(x: nat)
    requires !Odd(x)
    ensures !Odd(InvertLowestOne(x))
  {
  }

  /** Two ones cleared, in the upper half of a block. */
  lemma ClearTwo(lo: nat, k: nat, y: nat)
    requires k >= 3 && Aligned(lo, k + 1) && Exp2(k) <= y < Exp2(k + 1) && !Odd(y)
    ensures var z := InvertLowestOne(InvertLowestOne(lo + y));
      if Ones(y) >= 3 then lo + Exp2(k) <= z && !Odd(z - lo) && Ones(z - lo) == Ones(y) - 2
      else z <= lo && (Ones(y) == 2 ==> z == lo)
    ensures Ones(y) >= 1 && InvertLowestOne(lo + y) == lo + InvertLowestOne(y)
    ensures Ones(y) == 1 ==> y == Exp2(k)
  {
    hide Aligned, Exp2, Ones, InvertLowestOne, Odd;
    TopLast(k, y);
    InvertInBlock(lo, k + 1, y);
    OnesLess(y);
    if Ones(y) >= 2 {
      var z := InvertLowestOne(y);
      TopLast(k, z);
      InvertInBlock(lo, k + 1, z);
      OnesLess(z);
      InvertEven(y);
      InvertEven(z);
    }
  }

  /** Where the skip pointer of an odd height goes, by the ones before the last. */
  lemma OddSkip(lo: nat, k: nat, x: nat)
    requires k >= 3 && Aligned(lo, k + 1) && Exp2(k) < x < Exp2(k + 1) && Odd(x)
    ensures var a := GetSkipHeight(lo + x);
      if Ones(x) >= 4 then lo + Exp2(k) < a && Odd(a - lo) && Ones(a - lo) == Ones(x) - 2
      else a <= lo + 1 && (Ones(x) == 3 ==> a == lo + 1)
    ensures Ones(x) >= 2 && (Ones(x) == 2 ==> x == Exp2(k) + 1)
  {
    hide Aligned, Exp2, Ones, GetSkipHeight, InvertLowestOne, Odd;
    Even(lo, k);
    Parity(lo, x);
    var y := x - 1;
    OddOnes(x);
    ClearTwo(lo, k, y);
    SkipIs(lo + x);
    if Ones(x) >= 4 {
      Parity(lo, GetSkipHeight(lo + x) - 1 - lo);
      OddOnes(GetSkipHeight(lo + x) - lo);
    }
  }

  lemma Even(lo: nat, k: nat)
    requires k >= 3 && Aligned(lo, k + 1)
    ensures !Odd(Exp2(k)) && Exp2(k) >= 8 && !Odd(lo) && Exp2(k + 1) == 2 * Exp2(k)
  {
    Exp2Add(k - 3, 3);
    assert Exp2(3) == 8;
  }

  /** What a walk needs from the middle of a block of 2^k heights, and k * k / 4 + k - 3. */
  function Middle(k: nat): nat { if k <= 4 then 5 else Middle(k - 1) + 1 + k / 2 }

  function OddBound(k: nat, ones: nat): nat { if k <= 3 then 4 else Middle(k) + (ones + 1) / 2 }

  lemma {:induction false} MiddleIs(h: nat)
    requires h >= 2
    ensures Middle(2 * h) == h * h + 2 * h - 3 && Middle(2 * h + 1) == h * h + h + 2 * h - 2
  {
    if h > 2 {
      MiddleIs(h - 1);
      assert (h - 1) * (h - 1) + (h - 1) + h == h * h;
    }
  }

  /** From an odd height: half a step for each one bit, and what the middle of the block needs. */
  lemma {:induction false} OddSteps(lo: nat, k: nat, x: nat, s: nat)
    requires k >= 3 && Aligned(lo, k) && s <= x < Exp2(k) && Odd(x)
    ensures Steps(lo + x, lo + s) <= OddBound(k, Ones(x))
    decreases k, x
  {
    hide Steps, Next, Exp2, Aligned, Ones, GetSkipHeight, Odd;
    if s == x {
      assert Steps(lo + x, lo + s) == 0;
    } else if k == 3 {
      SmallInverts();
      SmallBlock(lo, x, s);
    } else {
      var h := Exp2(k - 1);
      AlignedHalves(lo, k);
      Even(lo, k - 1);
      BoundGrows(k, Ones(x));
      if x < h {
        OddSteps(lo, k - 1, x, s);
      } else if s >= h {
        OnesTop(k - 1, x - h);
        Parity(h, x - h);
        OddSteps(lo + h, k - 1, x - h, s - h);
      } else {
        FromMiddle(lo, k, s);
        MiddleNext(k, 0);
        OddAcross(lo, k, x, s, Middle(k));
      }
    }
  }

  lemma BoundGrows(k: nat, q: nat)
    requires k >= 4
    ensures OddBound(k - 1, q) <= OddBound(k, q) && (q > 0 ==> OddBound(k - 1, q - 1) <= OddBound(k, q))
  {
  }

  lemma SmallBlock(lo: nat, x: nat, s: nat)
    requires Aligned(lo, 3) && s < x < 8 && Odd(x)
    ensures Steps(lo + x, lo + s) <= 4
  {
    assert x == 1 || x == 3 || x == 5 || x == 7;
    hide Aligned, GetSkipHeight, Steps, Next, Odd;
    var t := lo + s;
    if x == 5 && s == 0 {
      FromFive(lo);
    } else if x == 7 && s <= 2 {
      FromSeven(lo, t);
    }
  }

  lemma SmallParity(lo: nat)
    requires !Odd(lo)
    ensures Odd(lo + 5) && Odd(lo + 7)
  {
  }

  lemma FromFive(lo: nat)
    requires Aligned(lo, 3)
    ensures Steps(lo + 5, lo) <= 2
  {
    hide Aligned, GetSkipHeight, Steps, Next, Odd;
    SmallSkips(lo);
    SmallParity(lo);
    StepsNext(lo + 5, lo);
    if GetSkipHeight(lo + 5) >= lo {
      OddSkips(lo + 5, lo);
    } else {
      OddDown(lo + 5, lo);
      FromFour(lo, lo);
    }
  }

  lemma FromSeven(lo: nat, t: nat)
    requires Aligned(lo, 3) && lo <= t <= lo + 2
    ensures Steps(lo + 7, t) <= 4
  {
    hide Aligned, GetSkipHeight, Steps, Odd;
    SmallSkips(lo);
    SmallParity(lo);
    StepsNext(lo + 7, t);
    if t <= lo + 1 {
      OddSkips(lo + 7, t);
    } else {
      StepsNext(lo + 6, t);
      FromFour(lo, t);
    }
  }

  lemma FromFour(lo: nat, t: nat)
    requires Aligned(lo, 3) && lo <= t < lo + 4
    ensures Steps(lo + 4, t) <= if t == lo then 1 else if t - lo == 1 then 3 else 2
  {
    hide Aligned, GetSkipHeight, Steps, Odd;
    SmallSkips(lo);
    StepsNext(lo + 4, t);
  }

  lemma SmallSkips(lo: nat)
    requires Aligned(lo, 3)
    ensures !Odd(lo) && GetSkipHeight(lo + 4) == lo && GetSkipHeight(lo + 5) <= lo + 1
    ensures GetSkipHeight(lo + 6) == lo + 4 && GetSkipHeight(lo + 7) == lo + 1
  {
    assert lo % 2 == 0;
    hide Aligned, GetSkipHeight, InvertLowestOne, Exp2, Odd;
    SmallInverts();
    InvertInBlock(lo, 3, 4);
    InvertInBlock(lo, 3, 6);
    PairSkips(lo + 4);
    PairSkips(lo + 6);
  }

  lemma PairSkips(w: nat)
    requires w >= 2 && !Odd(w)
    ensures GetSkipHeight(w) == InvertLowestOne(w) && GetSkipHeight(w + 1) == InvertLowestOne(InvertLowestOne(w)) + 1
  {
    assert (w + 1) % 2 == 1;
  }

  lemma SmallInverts()
    ensures InvertLowestOne(4) == 0 && InvertLowestOne(6) == 4 && Exp2(3) == 8
  {
  }

  /** Across the middle of a block, given what the middle needs. */
  lemma {:induction false} OddAcross(lo: nat, k: nat, x: nat, s: nat, d: nat)
    requires k >= 4 && Aligned(lo, k) && s < Exp2(k - 1) <= x < Exp2(k) && Odd(x)
    requires d >= 5 && Steps(lo + Exp2(k - 1), lo + s) <= d
    ensures Steps(lo + x, lo + s) <= d + (Ones(x) + 1) / 2
    decreases x
  {
    hide Steps, Next, Exp2, Aligned, Ones, GetSkipHeight, InvertLowestOne, Odd;
    var h, t, q := Exp2(k - 1), lo + s, Ones(x);
    Even(lo, k - 1);
    Parity(lo, x);
    OddSkip(lo, k - 1, x);
    var a := GetSkipHeight(lo + x);
    StepsNext(lo + x, t);
    if a >= t {
      OddSkips(lo + x, t);
      if q >= 4 {
        OddAcross(lo, k, a - lo, s, d);
      }
    } else {
      OddDown(lo + x, t);
      if q > 2 {
        OddOnes(x);
        FromTwo(lo, k, x - 1, s, d);
      }
    }
  }

  lemma OddDown(w: nat, t: nat)
    requires t < w && GetSkipHeight(w) < t
    ensures Next(w, t) == w - 1
  {
  }

  /** From a multiple of 2^j to the 2^j heights before it. */
  lemma FromTop(m: nat, j: nat, s: nat)
    requires j >= 3 && Aligned(m, j) && m > 0 && s < Exp2(j)
    ensures m >= Exp2(j) && Steps(m, m - Exp2(j) + s) <= Middle(j + 1)
    decreases j, Exp2(j)
  {
    hide Steps, Next, Exp2, Aligned, Ones, GetSkipHeight, InvertLowestOne, OddBound, Middle, Odd;
    var h := Exp2(j);
    AlignedBelow(m, j);
    var lo := m - h;
    TopSkip(m, j);
    StepsNext(m, lo + s);
    MiddleNext(j + 1, 0);
    if GetSkipHeight(m) == lo + s {
      SkipsExactly(m, lo + s);
    } else {
      OddDown(m, lo + s);
      OddSteps(lo, j, h - 1, s);
      OnesMax(h - 1, j);
      MiddleNext(j + 1, Ones(h - 1));
    }
  }

  lemma TopSkip(m: nat, j: nat)
    requires j >= 3 && Aligned(m, j) && m > 0
    ensures m >= Exp2(j) > 1 && GetSkipHeight(m) <= m - Exp2(j) && !Odd(m) && Odd(Exp2(j) - 1)
  {
    AlignedBelow(m, j);
    assert Exp2(j) == 2 * Exp2(j - 1);
    assert m % 2 == 0;
  }

  /** From the middle of a block. */
  lemma FromMiddle(lo: nat, k: nat, s: nat)
    requires k >= 4 && Aligned(lo, k) && s < Exp2(k - 1)
    ensures Steps(lo + Exp2(k - 1), lo + s) <= Middle(k)
    decreases k, 0
  {
    hide Steps, Exp2, Aligned, Middle;
    AlignedHalves(lo, k);
    FromTop(lo + Exp2(k - 1), k - 1, s);
  }

  lemma SkipsExactly(w: nat, t: nat)
    requires t < w && GetSkipHeight(w) == t
    ensures Next(w, t) == t && Steps(w, t) == 1
  {
  }

  lemma {:induction false} MiddleNext(k: nat, q: nat)
    requires k >= 4
    ensures Middle(k) >= 5 && (q <= k - 1 ==> OddBound(k - 1, q) <= Middle(k) - 1)
  {
    if k > 4 {
      MiddleNext(k - 1, 0);
    }
  }

  /** If an even height does not use its skip pointer although it could, the parent uses its own. */
  lemma Detour(w: nat, t: nat)
    requires t < GetSkipHeight(w) && !Odd(w) && w >= 4 && !Skips(w, t)
    ensures var b := GetSkipHeight(w - 1); t <= b < GetSkipHeight(w) - 2 && Steps(w, t) == 2 + Steps(b, t)
  {
    assert Odd(w - 1);
    hide Steps, Odd;
    StepsNext(w, t);
    StepsNext(w - 1, t);
    OddSkips(w - 1, t);
  }

  /** From an even height in the upper half that has two ones. */
  lemma FromTwo(lo: nat, k: nat, y: nat, s: nat, d: nat)
    requires k >= 4 && Aligned(lo, k) && s < Exp2(k - 1) <= y < Exp2(k) && !Odd(y) && Ones(y) == 2
    requires d >= 5 && Steps(lo + Exp2(k - 1), lo + s) <= d
    ensures Steps(lo + y, lo + s) <= d + 1
  {
    hide Steps, Exp2, Aligned, Ones, GetSkipHeight, Skips, Odd;
    var t := lo + s;
    Even(lo, k - 1);
    Parity(lo, y);
    TwoSkip(lo, k, y);
    if Skips(lo + y, t) {
      StepsNext(lo + y, t);
    } else {
      Detour(lo + y, t);
    }
  }

  lemma TwoSkip(lo: nat, k: nat, y: nat)
    requires k >= 4 && Aligned(lo, k) && Exp2(k - 1) <= y < Exp2(k) && !Odd(y) && Ones(y) == 2
    ensures y > Exp2(k - 1) && GetSkipHeight(lo + y) == lo + Exp2(k - 1)
    ensures var b := GetSkipHeight(lo + y - 1); b <= lo + 1 || b > lo + Exp2(k - 1)
  {
    hide Exp2, Aligned, Ones, GetSkipHeight, InvertLowestOne, Odd;
    Even(lo, k - 1);
    Parity(lo, y);
    Parity(Exp2(k - 1), y - Exp2(k - 1));
    TopLast(k - 1, y);
    OnesLess(y);
    TopLast(k - 1, InvertLowestOne(y));
    InvertInBlock(lo, k, y);
    SkipIs(lo + y);
    OddSkip(lo, k - 1, y - 1);
  }

  //////////////////////////////////////////////////////////////////////////////
  // From even heights
  //////////////////////////////////////////////////////////////////////////////

  lemma Ends(lo: nat, y: nat)
    requires !Odd(lo)
    ensures !Odd(4 * y) && Odd(4 * y + 1) && !Odd(4 * y + 2) && !Odd(8 * y) && !Odd(8 * y + 4) && Odd(8 * y + 3)
    ensures !Odd(lo + 4 * y) && Odd(lo + 4 * y + 1) && !Odd(lo + 4 * y + 2)
    ensures !Odd(lo + 8 * y) && !Odd(lo + 8 * y + 4) && Odd(lo + 8 * y + 3) && (y > 0 ==> Odd(lo + 8 * y - 1))
  {
    hide Odd;
    Doubled(2 * y);
    Doubled(2 * y + 1);
    Doubled(4 * y);
    Doubled(4 * y + 1);
    Doubled(4 * y + 2);
    Parity(lo, 4 * y);
    Parity(lo, 4 * y + 1);
    Parity(lo, 4 * y + 2);
    Parity(lo, 8 * y);
    Parity(lo, 8 * y + 3);
    Parity(lo, 8 * y + 4);
  }

  lemma Doubled(n: nat)
    ensures !Odd(2 * n) && Odd(2 * n + 1)
  {
  }

  lemma InvertTwice(n: nat)
    ensures InvertLowestOne(2 * n) == 2 * InvertLowestOne(n) && InvertLowestOne(2 * n + 1) == 2 * n
    ensures Ones(2 * n) == Ones(n) && Ones(2 * n + 1) == Ones(n) + 1
  {
    assert (2 * n) / 2 == n && (2 * n + 1) / 2 == n;
  }

  /** The last three bits. */
  lemma LastBits(y: nat)
    ensures InvertLowestOne(4 * y + 2) == 4 * y && Ones(4 * y + 2) == Ones(4 * y) + 1
    ensures InvertLowestOne(8 * y + 4) == 8 * y && Ones(8 * y + 4) == Ones(8 * y + 2)
    ensures InvertLowestOne(4 * y) == 4 * InvertLowestOne(y) && InvertLowestOne(8 * y) == 8 * InvertLowestOne(y)
    ensures y > 0 ==> InvertLowestOne(y) < y
    ensures Ones(8 * y) == Ones(y) == Ones(4 * y)
  {
    hide InvertLowestOne, Ones, Odd;
    InvertTwice(y);
    InvertTwice(2 * y);
    InvertTwice(4 * y);
    InvertTwice(2 * y + 1);
    InvertTwice(4 * y + 1);
    InvertTwice(4 * y + 2);
  }

  /** From heights that end in three zeros: one step for each one bit. */
  lemma {:induction false} EightSteps(lo: nat, k: nat, y: nat, s: nat, d: nat)
    requires k >= 4 && Aligned(lo, k) && s < Exp2(k - 1) <= 8 * y < Exp2(k)
    requires d >= 5 && Steps(lo + Exp2(k - 1), lo + s) <= d
    ensures Steps(lo + 8 * y, lo + s) <= d + Ones(y) - 1
    decreases y
  {
    hide Steps, Exp2, Aligned, Ones, GetSkipHeight, InvertLowestOne, Middle, Odd;
    var x, t := 8 * y, lo + s;
    Even(lo, k - 1);
    Ends(lo, y);
    TopLast(k - 1, x);
    LastBits(y);
    if Ones(y) != 1 {
      EightSkip(lo, k, y);
      OnesLess(x);
      StepsNext(lo + x, t);
      var v := InvertLowestOne(y);
      LastBits(v);
      EightSteps(lo, k, v, s, d);
    }
  }

  lemma EightSkip(lo: nat, k: nat, y: nat)
    requires k >= 4 && Aligned(lo, k) && 8 < 8 * y < Exp2(k)
    ensures GetSkipHeight(lo + 8 * y) == lo + InvertLowestOne(8 * y) < GetSkipHeight(lo + 8 * y - 1)
  {
    hide Exp2, Aligned, Ones, GetSkipHeight, InvertLowestOne, Odd;
    Even(lo, k - 1);
    Ends(lo, y);
    var x := 8 * y;
    InvertInBlock(lo, k, x);
    SkipIs(lo + x);
    SkipIs(lo + x - 1);
    LastBits(2 * (y - 1) + 1);
    LastBits(y - 1);
    LastBits(y);
    assert x - 2 == 4 * (2 * (y - 1) + 1) + 2 && x - 4 == 8 * (y - 1) + 4;
    InvertInBlock(lo, k, x - 2);
    InvertInBlock(lo, k, x - 4);
  }

  /** Other even heights use the skip pointer of their parent, unless they have three ones or fewer. */
  lemma FourSteps(lo: nat, k: nat, y: nat, s: nat, d: nat)
    requires k >= 4 && Aligned(lo, k) && s < Exp2(k - 1) <= 8 * y + 4 < Exp2(k)
    requires d >= 5 && Steps(lo + Exp2(k - 1), lo + s) <= d
    ensures Steps(lo + 8 * y + 4, lo + s) <= d + Ones(8 * y + 4) / 2 + 2
  {
    hide Steps, Exp2, Aligned, Ones, GetSkipHeight, InvertLowestOne, Middle, Skips, Odd;
    var x, t := 8 * y + 4, lo + s;
    Even(lo, k - 1);
    Ends(lo, y);
    TopLast(k - 1, x);
    var p := Ones(x);
    if p == 2 {
      FromTwo(lo, k, x, s, d);
    } else {
      FourApart(k, y);
      LastBits(y);
      OddOnes(x - 1);
      OddSkip(lo, k - 1, x - 1);
      FourSkip(lo, k, y, t);
      Detour(lo + x, t);
      var b := GetSkipHeight(lo + x - 1);
      OddAcross(lo, k, b - lo, s, d);
    }
  }

  lemma FourApart(k: nat, y: nat)
    requires k >= 4
    ensures Exp2(k - 1) != 8 * y + 4
  {
    Exp2Add(k - 4, 3);
    SmallInverts();
  }

  lemma FourSkip(lo: nat, k: nat, y: nat, t: nat)
    requires k >= 4 && Aligned(lo, k) && 0 < y && 8 * y + 4 < Exp2(k)
    requires t < lo + 8 * y && t < GetSkipHeight(lo + 8 * y + 4 - 1)
    ensures GetSkipHeight(lo + 8 * y + 4) == lo + 8 * y && !Skips(lo + 8 * y + 4, t)
  {
    hide Exp2, Aligned, Ones, GetSkipHeight, InvertLowestOne, Odd;
    Even(lo, k - 1);
    Ends(lo, y);
    var x := 8 * y + 4;
    LastBits(y);
    LastBits(2 * y);
    InvertInBlock(lo, k, x);
    InvertInBlock(lo, k, x - 2);
    InvertInBlock(lo, k, x - 4);
    SkipIs(lo + x);
    SkipIs(lo + x - 1);
    assert x - 2 == 4 * (2 * y) + 2;
  }

  lemma TwoSteps(lo: nat, k: nat, y: nat, s: nat, d: nat)
    requires k >= 4 && Aligned(lo, k) && s < Exp2(k - 1) <= 4 * y + 2 < Exp2(k)
    requires d >= 5 && Steps(lo + Exp2(k - 1), lo + s) <= d
    ensures Steps(lo + 4 * y + 2, lo + s) <= d + Ones(y) / 2 + 2
  {
    hide Steps, Exp2, Aligned, Ones, GetSkipHeight, InvertLowestOne, Middle, Skips, Odd;
    FourBelow(k, y);
    LastBits(y);
    if Ones(y) >= 3 {
      TwoStepsMany(lo, k, y, s, d);
    } else {
      TwoStepsFew(lo, k, y, s, d);
    }
  }

  lemma FourBelow(k: nat, y: nat)
    requires k >= 4 && Exp2(k - 1) <= 4 * y + 2
    ensures Exp2(k - 1) <= 4 * y && y > 0
  {
    assert Exp2(k - 1) == 4 * Exp2(k - 3);
  }

  lemma TwoStepsMany(lo: nat, k: nat, y: nat, s: nat, d: nat)
    requires k >= 4 && Aligned(lo, k) && s < Exp2(k - 1) <= 4 * y && 4 * y + 2 < Exp2(k) && y > 0 && Ones(y) >= 3
    requires d >= 5 && Steps(lo + Exp2(k - 1), lo + s) <= d
    ensures Steps(lo + 4 * y + 2, lo + s) <= d + Ones(y) / 2 + 2
  {
    hide Steps, Exp2, Aligned, Ones, GetSkipHeight, InvertLowestOne, Middle, Skips, Odd;
    var w, t := lo + 4 * y + 2, lo + s;
    Even(lo, k - 1);
    Ends(lo, y);
    LastBits(y);
    OddOnes(4 * y + 1);
    OddSkip(lo, k - 1, 4 * y + 1);
    TwoSkips(lo, k, y);
    NotSkips(w, t);
    Detour(w, t);
    OddAcross(lo, k, GetSkipHeight(w - 1) - lo, s, d);
  }

  lemma TwoStepsFew(lo: nat, k: nat, y: nat, s: nat, d: nat)
    requires k >= 4 && Aligned(lo, k) && s < Exp2(k - 1) <= 4 * y && 4 * y + 2 < Exp2(k) && y > 0 && Ones(y) <= 2
    requires d >= 5 && Steps(lo + Exp2(k - 1), lo + s) <= d
    ensures Steps(lo + 4 * y + 2, lo + s) <= d + 2
  {
    hide Steps, Exp2, Aligned, Ones, GetSkipHeight, InvertLowestOne, Middle, Skips, Odd;
    var w, t := lo + 4 * y + 2, lo + s;
    Even(lo, k - 1);
    Ends(lo, y);
    LastBits(y);
    TwoSkips(lo, k, y);
    if Skips(w, t) {
      StepsNext(w, t);
      TopLast(k - 1, 4 * y);
      if Ones(y) == 2 {
        FromTwo(lo, k, 4 * y, s, d);
      }
    } else {
      OddOnes(4 * y + 1);
      OddSkip(lo, k - 1, 4 * y + 1);
      Detour(w, t);
    }
  }

  lemma NotSkips(w: nat, t: nat)
    requires w > 0 && t < GetSkipHeight(w - 1) < GetSkipHeight(w) - 2
    ensures !Skips(w, t)
  {
  }

  lemma TwoSkips(lo: nat, k: nat, y: nat)
    requires k >= 4 && Aligned(lo, k) && 0 < y && 4 * y + 2 < Exp2(k)
    ensures GetSkipHeight(lo + 4 * y + 2) == lo + 4 * y
    ensures Ones(y) >= 2 ==> GetSkipHeight(lo + 4 * y + 1) < lo + 4 * y - 2
  {
    hide Exp2, Aligned, Ones, GetSkipHeight, InvertLowestOne, Odd;
    Even(lo, k - 1);
    Ends(lo, y);
    var x := 4 * y + 2;
    LastBits(y);
    InvertInBlock(lo, k, x);
    InvertInBlock(lo, k, 4 * y);
    SkipIs(lo + x);
    SkipIs(lo + x - 1);
    if Ones(y) >= 2 {
      var z := InvertLowestOne(4 * y);
      OnesLess(4 * y);
      NoOnes(z);
      LastBits(InvertLowestOne(y));
      InvertInBlock(lo, k, z);
    }
  }

  lemma NoOnes(z: nat)
    requires Ones(z) > 0
    ensures z > 0
  {
  }

  /** What a walk to before a multiple of 2^k needs in addition, by the ones before the last three bits. */
  function Extra(ones: nat): nat { if ones >= ones / 2 + 3 then ones else ones / 2 + 3 }

  /** Across the middle of a block, by how far beyond the middle the walk starts. */
  lemma AcrossSteps(lo: nat, k: nat, a: nat, s: nat, d: nat)
    requires k >= 4 && Aligned(lo, k) && s < Exp2(k - 1) && a < Exp2(k - 1)
    requires d >= 5 && Steps(lo + Exp2(k - 1), lo + s) <= d
    ensures Steps(lo + Exp2(k - 1) + a, lo + s) <= d + Extra(Ones(a / 8))
  {
    hide Steps, Exp2, Aligned, Ones, Odd, Extra;
    Even(lo, k - 1);
    EightTimes(k - 1);
    var x, o := Exp2(k - 1) + a, Ones(a / 8);
    OnesTop(k - 1, a);
    ExtraIs(o);
    if Odd(x) {
      LowOnes(Exp2(k - 4), a, x, 0);
      OddAcross(lo, k, x, s, d);
    } else {
      var y, z := EvenEnds(x);
      LowOnes(Exp2(k - 4), a, x, y);
      EvenOver(lo, k, x, y, z, s, d, o);
    }
  }

  lemma ExtraIs(o: nat)
    ensures Extra(o) >= o && Extra(o) >= o / 2 + 3
  {
  }

  lemma EvenOver(lo: nat, k: nat, x: nat, y: nat, z: nat, s: nat, d: nat, o: nat)
    requires k >= 4 && Aligned(lo, k) && s < Exp2(k - 1) <= x < Exp2(k) && !Odd(x)
    requires d >= 5 && Steps(lo + Exp2(k - 1), lo + s) <= d
    requires x == 8 * y || x == 8 * y + 4 || x == 4 * z + 2
    requires Ones(x) <= o + 3 && (x == 8 * y + 4 ==> Ones(x) <= o + 2) && (x == 8 * y ==> Ones(x) <= o + 1)
    ensures Steps(lo + x, lo + s) <= d + Extra(o)
  {
    hide Steps, Exp2, Aligned, Ones, Odd, Extra, InvertLowestOne;
    ExtraIs(o);
    if x == 8 * y {
      EightSteps(lo, k, y, s, d);
      LastBits(y);
    } else if x == 8 * y + 4 {
      FourSteps(lo, k, y, s, d);
    } else {
      TwoSteps(lo, k, z, s, d);
      LastBits(z);
    }
  }

  lemma EightTimes(j: nat)
    requires j >= 3
    ensures Exp2(j) == 8 * Exp2(j - 3)
  {
    hide Exp2;
    Exp2Add(j - 3, 3);
    SmallInverts();
  }

  /** The ones of a number, and those before its last three bits. */
  lemma LowOnes(e: nat, a: nat, x: nat, y: nat)
    requires x == 8 * e + a
    ensures Ones(a) <= Ones(a / 8) + 3 && (!Odd(x) ==> Ones(a) <= Ones(a / 8) + 2)
    ensures x == 8 * y + 4 ==> Ones(a) <= Ones(a / 8) + 1
    ensures x == 8 * y ==> Ones(a) == Ones(a / 8)
  {
    hide Ones, InvertLowestOne, Odd;
    var h, b0 := Halved(a);
    var g, b1 := Halved(h);
    var q, b2 := Halved(g);
    Doubled(4 * e);
    Parity(8 * e, a);
    var r := 4 * b2 + 2 * b1 + b0;
    Eighth(a, q, r);
    if x == 8 * y + 4 {
      SameRemainder(e + q, r, y, 4);
    } else if x == 8 * y {
      SameRemainder(e + q, r, y, 0);
    }
  }

  lemma SameRemainder(m: nat, r: nat, n: nat, s: nat)
    requires 8 * m + r == 8 * n + s && r < 8 && s < 8
    ensures r == s
  {
  }

  lemma Halved(n: nat) returns (h: nat, b: nat)
    ensures b <= 1 && n == 2 * h + b && Ones(n) == Ones(h) + b && Odd(n) == (b == 1)
  {
    h, b := n / 2, n % 2;
    hide Ones;
    OnesHalf(n);
  }

  lemma Eighth(a: nat, q: nat, r: nat)
    requires a == 8 * q + r && r < 8
    ensures a / 8 == q
  {
  }

  function EvenBound(k: nat): nat {
    if k <= 3 then 6 else Middle(k) + Extra(k - 4)
  }

  lemma {:induction false} EvenSteps(lo: nat, k: nat, x: nat, s: nat)
    requires k >= 3 && Aligned(lo, k) && s <= x < Exp2(k) && !Odd(x)
    ensures Steps(lo + x, lo + s) <= EvenBound(k)
    decreases k
  {
    hide Steps, Exp2, Aligned, Ones, Odd;
    if k == 3 {
      SmallInverts();
      assert x <= 6 by { NotSeven(x); }
    } else {
      var h := Exp2(k - 1);
      AlignedHalves(lo, k);
      Even(lo, k - 1);
      EvenGrows(k);
      if x < h {
        EvenSteps(lo, k - 1, x, s);
      } else if s >= h {
        Parity(h, x - h);
        EvenSteps(lo + h, k - 1, x - h, s - h);
      } else {
        EvenAcross(lo, k, x, s);
      }
    }
  }

  lemma NotSeven(x: nat)
    requires x < 8 && !Odd(x)
    ensures x <= 6
  {
  }

  lemma EvenGrows(k: nat)
    requires k >= 4
    ensures EvenBound(k - 1) <= EvenBound(k)
  {
  }

  lemma EvenAcross(lo: nat, k: nat, x: nat, s: nat)
    requires k >= 4 && Aligned(lo, k) && s < Exp2(k - 1) <= x < Exp2(k)
    ensures Steps(lo + x, lo + s) <= EvenBound(k)
  {
    hide Steps, Exp2, Aligned, Ones, Middle, Odd;
    Even(lo, k - 1);
    var a := x - Exp2(k - 1);
    FromMiddle(lo, k, s);
    MiddleNext(k, 0);
    AcrossSteps(lo, k, a, s, Middle(k));
    HighOnes(k - 1, a);
  }

  lemma HighOnes(j: nat, a: nat)
    requires j >= 3 && a < Exp2(j)
    ensures Ones(a / 8) <= j - 3
  {
    hide Exp2, Ones;
    EightTimes(j);
    OnesMax(a / 8, j - 3);
  }

  lemma EvenEnds(x: nat) returns (y: nat, z: nat)
    requires !Odd(x)
    ensures x == 8 * y || x == 8 * y + 4 || x == 4 * z + 2
  {
    var a := x / 2;
    assert x == 2 * a;
    z := a / 2;
    y := z / 2;
    assert (a == 2 * z || a == 2 * z + 1) && (z == 2 * y || z == 2 * y + 1);
  }

  //////////////////////////////////////////////////////////////////////////////
  // The bound
  //////////////////////////////////////////////////////////////////////////////

  /** Below 2^n, a walk takes at most n^2/4 + 2n - 7 steps. */
  lemma StepsBound(n: nat, w: nat, t: nat)
    requires n >= 10 && t <= w < Exp2(n)
    ensures Steps(w, t) <= Middle(n) + n - 4
    ensures Middle(n) + n - 4 == n * n / 4 + 2 * n - 7
  {
    hide Steps, Exp2, Aligned, Ones, Middle, Odd;
    AlignedFirst(n);
    if Odd(w) {
      OddSteps(0, n, w, t);
      OnesMax(w, n);
    } else {
      EvenSteps(0, n, w, t);
    }
    MiddleIs(n / 2);
    Quarter(n, n / 2);
  }

  lemma Quarter(n: nat, h: nat)
    requires h == n / 2
    ensures n * n / 4 == if n % 2 == 0 then h * h else h * h + h
  {
    var r := n % 2;
    SquareIs(h, r);
    QuarterIs(h * h + h * r, r, n * n);
  }

  lemma SquareIs(h: nat, r: nat)
    requires r <= 1
    ensures (2 * h + r) * (2 * h + r) == 4 * (h * h + h * r) + r
  {
  }

  lemma QuarterIs(q: nat, r: nat, x: nat)
    requires x == 4 * q + r && r <= 1
    ensures x / 4 == q
  {
  }

  //////////////////////////////////////////////////////////////////////////////
  // The same from any height, by the distance
  //////////////////////////////////////////////////////////////////////////////

  /** A bound for walks over at most 2^n heights; Middle(n) + n - 4 from 16 on. */
  function Back(n: nat): nat
    requires n >= 4
  {
    Middle(n) + if n - 4 >= (n + 1) / 2 + 4 then n - 4 else (n + 1) / 2 + 4
  }

  /** What the walk needs from m on, but at least what any walk over m may need. */
  function Needs(m: nat, t: nat): nat
    requires t <= m
  {
    if Steps(m, t) >= 5 then Steps(m, t) else 5
  }

  /** The farther a walk starts beyond a multiple of 2^n, the nearer is its end, and the two parts even out. */
  lemma {:induction false} Tradeoff(m: nat, n: nat, a: nat, c: nat)
    requires n >= 4 && Aligned(m, n) && 0 < c <= m && a + c <= Exp2(n)
    ensures Needs(m, m - c) + Extra(Ones(a / 8)) <= Back(n)
    decreases n
  {
    hide Steps, Exp2, Aligned, Ones, Extra, Middle;
    AlignedBelow(m, n);
    AlignedLess(m, n, n - 1);
    HalfTop(n);
    var h := Exp2(n - 1);
    if n == 4 {
      SmallTradeoff(m, a, c);
    } else if c <= h {
      NearTradeoff(m, n, a, c);
    } else {
      AlignedBelow(m, n - 1);
      Tradeoff(m - h, n - 1, a, c - h);
      FarSteps(m, n, c);
      BackNext(n);
    }
  }

  lemma HalfTop(n: nat)
    requires n > 0
    ensures Exp2(n) == 2 * Exp2(n - 1)
  {
  }

  lemma SmallTradeoff(m: nat, a: nat, c: nat)
    requires Aligned(m, 4) && 0 < c <= m && a + c <= Exp2(4)
    ensures Needs(m, m - c) + Extra(Ones(a / 8)) <= Back(4)
  {
    assert Middle(5) == 8 && Middle(4) == 5;
    hide Steps, Aligned, Ones, Middle;
    FromTop(m, 4, Exp2(4) - c);
    HighOnes(4, a);
  }

  /** To at most half the distance before m. */
  lemma NearTradeoff(m: nat, n: nat, a: nat, c: nat)
    requires n >= 5 && Aligned(m, n) && 0 < c <= m && c <= Exp2(n - 1) && a + c <= Exp2(n)
    ensures Needs(m, m - c) + Extra(Ones(a / 8)) <= Back(n)
  {
    hide Steps, Exp2, Aligned, Ones, Middle;
    HalfTop(n);
    HalfTop(n - 1);
    MiddleUp(n);
    AlignedLess(m, n, n - 1);
    AlignedLess(m, n, n - 2);
    FromTop(m, n - 1, Exp2(n - 1) - c);
    if a < Exp2(n - 1) {
      HighOnes(n - 1, a);
    } else if a < Exp2(n - 1) + Exp2(n - 2) {
      SecondZero(n, a);
    } else {
      FromTop(m, n - 2, Exp2(n - 2) - c);
      HighOnes(n, a);
    }
  }

  lemma MiddleUp(n: nat)
    requires n >= 5
    ensures Middle(n) == Middle(n - 1) + 1 + n / 2 && Middle(n - 1) >= 5
  {
    MiddleNext(n - 1, 0);
  }

  lemma SecondZero(n: nat, a: nat)
    requires n >= 5 && Exp2(n - 1) <= a < Exp2(n - 1) + Exp2(n - 2)
    ensures Ones(a / 8) <= n - 4
  {
    hide Exp2, Ones;
    var b := a - Exp2(n - 1);
    EightTimes(n - 1);
    HalfTop(n - 1);
    HalfTop(n - 4);
    HighOnes(n - 2, b);
    EightTimes(n - 2);
    assert a / 8 == Exp2(n - 4) + b / 8 && b / 8 < Exp2(n - 4);
    OnesTop(n - 4, b / 8);
  }

  /** To more than half the distance before m: over the middle of the block before. */
  lemma FarSteps(m: nat, n: nat, c: nat)
    requires n >= 5 && Aligned(m, n) && Exp2(n - 1) < c <= Exp2(n) && c <= m
    ensures Needs(m, m - c) <= 1 + (n + 1) / 2 + Needs(m - Exp2(n - 1), m - c)
  {
    hide Steps, Exp2, Aligned, Ones, GetSkipHeight, Odd;
    HalfTop(n);
    AlignedBelow(m, n);
    TopSkip(m, n);
    var lo, t := m - Exp2(n), m - c;
    StepsNext(m, t);
    if GetSkipHeight(m) == t {
      SkipsExactly(m, t);
    } else {
      OddDown(m, t);
      OddAcross(lo, n, Exp2(n) - 1, Exp2(n) - c, Needs(m - Exp2(n - 1), t));
      OnesMax(Exp2(n) - 1, n);
    }
  }

  lemma BackNext(n: nat)
    requires n >= 5
    ensures 1 + (n + 1) / 2 + Back(n - 1) <= Back(n)
  {
  }

  /** The block in whose middle two heights part. */
  lemma {:induction false} Parting(w: nat, t: nat) returns (lo: nat, k: nat)
    requires t < w
    ensures k >= 1 && Aligned(lo, k) && lo <= t < lo + Exp2(k - 1) <= w < lo + Exp2(k)
  {
    if w / 2 == t / 2 {
      lo, k := t, 1;
    } else {
      lo, k := Parting(w / 2, t / 2);
      HalfTop(k);
      lo, k := 2 * lo, k + 1;
    }
  }

  lemma SmallBlocks(k: nat)
    requires k < 4
    ensures Exp2(k) <= 8
  {
    assert Exp2(1) == 2 && Exp2(2) == 4 && Exp2(3) == 8;
  }

  /** Within one block of at most 2^n heights. */
  lemma BlockSteps(lo: nat, k: nat, w: nat, t: nat)
    requires k >= 1 && Aligned(lo, k) && lo <= t < lo + Exp2(k - 1) <= w < lo + Exp2(k)
    ensures Steps(w, t) <= if k < 4 then 7 else Middle(k) + Extra(k - 4)
  {
    hide Steps, Exp2, Aligned, Ones, Middle;
    if k < 4 {
      SmallBlocks(k);
    } else {
      EvenAcross(lo, k, w - lo, t - lo);
    }
  }

  lemma {:induction false} BackGrows(k: nat, n: nat)
    requires 4 <= k <= n
    ensures Middle(k) + Extra(k - 4) <= Back(n) && Back(n) >= 7
    decreases n
  {
    if k < n {
      BackGrows(k, n - 1);
      BackNext(n);
    } else {
      MiddleNext(n, 0);
    }
  }

  /** To go back at most 2^n heights, from any height, takes at most n^2/4 + 2n - 7 steps. */
  lemma StepsBack(n: nat, w: nat, t: nat)
    requires n >= 16 && t <= w <= t + Exp2(n)
    ensures Steps(w, t) <= Middle(n) + n - 4 == n * n / 4 + 2 * n - 7
  {
    hide Steps, Exp2, Aligned, Ones, Middle, Extra, Odd;
    MiddleIs(n / 2);
    Quarter(n, n / 2);
    BackGrows(n, n);
    if t < w {
      var lo, k := Parting(w, t);
      if k <= n {
        BlockSteps(lo, k, w, t);
        if k >= 4 {
          BackGrows(k, n);
        }
      } else {
        var m := lo + Exp2(k - 1);
        AlignedHalves(lo, k);
        AlignedLess(m, k - 1, n);
        Tradeoff(m, n, w - m, m - t);
        HalfTop(k);
        AcrossSteps(lo, k, w - m, t - lo, Needs(m, t));
      }
    }
  }

  /** To go back up to 2^18 blocks takes at most 110 steps. */
  lemma StepsBack18(w: nat, t: nat)
    requires t <= w <= t + Exp2(18)
    ensures Steps(w, t) <= 110
  {
    StepsBack(18, w, t);
  }
}
