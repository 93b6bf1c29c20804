module Emission {
  // The emission schedule: a premine, a slow start, and rewards that halve period by period.

  import opened Money
  import opened Positional

  //////////////////////////////////////////////////////////////////////////////
  // The slow start
  //////////////////////////////////////////////////////////////////////////////

  function Over(x: nat, y: nat): nat
    requires y > 0
  {
    NotNegative(x, y);
    x / y
  }

  lemma OverBound(x: nat, y: nat)
    requires y > 0
    ensures y * Over(x, y) <= x < y * (Over(x, y) + 1)
  {
    NotNegative(x, y);
    assert x == (x / y) * y + x % y;
    Split(y, x / y, 1);
  }

  /** The reward of the j-th block of a slow start of the given length. */
  function Ramp(reward: nat, length: nat, j: nat): nat
    requires length > 0
  {
    Over(reward * j, length)
  }

  function RampSum(reward: nat, length: nat, m: nat): nat
    requires length > 0
  {
    if m == 0 then 0 else RampSum(reward, length, m - 1) + Ramp(reward, length, m)
  }

  lemma {:induction false} RampBound(reward: nat, length: nat, m: nat)
    requires length > 0
    ensures 2 * length * RampSum(reward, length, m) <= reward * (m * (m + 1))
  {
    hide Over;
    if m > 0 {
      RampBound(reward, length, m - 1);
      var s, x := RampSum(reward, length, m - 1), Ramp(reward, length, m);
      OverBound(reward * m, length);
      assert 2 * length * (s + x) == 2 * length * s + 2 * (length * x) by {
        Split(2 * length, s, x);
        MulAssoc(2, length, x);
      }
      RampNext(reward, m);
    }
  }

  /** Rounding loses less than one unit a block. */
  lemma {:induction false} RampLoss(reward: nat, length: nat, m: nat)
    requires length > 0
    ensures 2 * length * (RampSum(reward, length, m) + m) >= reward * (m * (m + 1))
  {
    hide Over;
    if m > 0 {
      RampLoss(reward, length, m - 1);
      var s, x := RampSum(reward, length, m - 1), Ramp(reward, length, m);
      OverBound(reward * m, length);
      assert 2 * length * (s + m - 1 + (x + 1)) == 2 * length * (s + m - 1) + 2 * (length * (x + 1)) by {
        Split(2 * length, s + m - 1, x + 1);
        MulAssoc(2, length, x + 1);
      }
      RampNext(reward, m);
    }
  }

  lemma RampNext(reward: nat, m: nat)
    requires m > 0
    ensures reward * (m * (m + 1)) == reward * ((m - 1) * (m - 1 + 1)) + 2 * (reward * m)
  {
    assert m * (m + 1) == (m - 1) * (m - 1 + 1) + 2 * m;
    Split(reward, (m - 1) * (m - 1 + 1), 2 * m);
    MulAssoc(reward, 2, m);
    MulAssoc(2, reward, m);
  }

  lemma Split(a: nat, b: nat, c: nat)
    ensures a * (b + c) == a * b + a * c
  {
  }

  /** The whole slow start issues at most the average of its first and last rewards, block by block. */
  lemma RampTotal(reward: nat, length: nat)
    requires length > 0
    ensures 2 * RampSum(reward, length, length) <= reward * (length + 1)
  {
    hide RampSum;
    RampBound(reward, length, length);
    var s := RampSum(reward, length, length);
    assert length * (2 * s) == 2 * length * s;
    MulAssoc(length, reward, length + 1);
    MulAssoc(reward, length, length + 1);
    Cancel(length, 2 * s, reward * (length + 1));
  }

  /** And at least that, less one unit a block. */
  lemma RampTotalLoss(reward: nat, length: nat)
    requires length > 0
    ensures 2 * (RampSum(reward, length, length) + length) >= reward * (length + 1)
  {
    hide RampSum;
    RampLoss(reward, length, length);
    var s := RampSum(reward, length, length) + length;
    MulAssoc(length, 2, s);
    MulAssoc(length, reward, length + 1);
    MulAssoc(reward, length, length + 1);
    Cancel(length, reward * (length + 1), 2 * s);
  }

  lemma Cancel(p: nat, x: nat, y: nat)
    requires p > 0 && p * x <= p * y
    ensures x <= y
  {
    Split(p, y, 1);
    if y < x {
      MulMono(p, p, y + 1, x);
    }
  }

  //////////////////////////////////////////////////////////////////////////////
  // One period
  //////////////////////////////////////////////////////////////////////////////

  /** The reward in a period that starts with q and ends with half of it, j blocks after its start. */
  function Sloped(q: nat, d: nat, j: nat): nat
    requires j <= d && d > 0
  {
    q / 2 + Over(q * (d - j), 2 * d)
  }

  function PeriodSum(q: nat, d: nat, m: nat): nat
    requires m <= d && d > 0
  {
    if m == 0 then 0 else PeriodSum(q, d, m - 1) + Sloped(q, d, m - 1)
  }

  lemma SlopedBound(q: nat, d: nat, j: nat)
    requires j <= d && d > 0
    ensures 4 * d * Sloped(q, d, j) <= q * (4 * d - 2 * j)
  {
    hide Over;
    var x, h := Over(q * (d - j), 2 * d), q / 2;
    var p := 2 * d;
    OverBound(q * (d - j), p);
    MulMono(p, p, 2 * h, q);
    assert 4 * d * (h + x) == p * (2 * h) + 2 * (p * x) by {
      Split(4 * d, h, x);
      MulAssoc(p, 2, h);
      MulAssoc(2, p, x);
    }
    assert q * (4 * d - 2 * j) == q * p + 2 * (q * (d - j)) by {
      Split(q, p, 2 * (d - j));
      MulAssoc(2, q, d - j);
      MulAssoc(q, 2, d - j);
    }
  }

  /** The two roundings lose less than one and a half. */
  lemma SlopedLoss(q: nat, d: nat, j: nat)
    requires j <= d && d > 0
    ensures 4 * d * Sloped(q, d, j) + 6 * d >= q * (4 * d - 2 * j)
  {
    hide Over;
    var x, h := Over(q * (d - j), 2 * d), q / 2;
    OverBound(q * (d - j), 2 * d);
    LossOf(q, d, d - j, h, x);
  }

  lemma LossOf(q: nat, d: nat, e: nat, h: nat, x: nat)
    requires q <= 2 * h + 1 && q * e < 2 * d * (x + 1)
    ensures 4 * d * (h + x) + 6 * d >= q * (2 * d + 2 * e)
  {
    MulMono(2 * d, 2 * d, q, 2 * h + 1);
    LossHalves(d, h, x);
    LossShares(q, d, e);
    LossSums(d, h, x);
  }

  lemma LossHalves(d: nat, h: nat, x: nat)
    ensures 4 * d * (h + x) == 2 * d * (2 * h) + 2 * (2 * d * x)
  {
    Split(4 * d, h, x);
    MulAssoc(2 * d, 2, h);
    MulAssoc(2, 2 * d, x);
  }

  lemma LossShares(q: nat, d: nat, e: nat)
    ensures q * (2 * d + 2 * e) == 2 * d * q + 2 * (q * e)
  {
    Split(q, 2 * d, 2 * e);
    MulAssoc(2, q, e);
    MulAssoc(q, 2, e);
  }

  lemma LossSums(d: nat, h: nat, x: nat)
    ensures 2 * d * (2 * h + 1) == 2 * d * (2 * h) + 2 * d && 2 * d * (x + 1) == 2 * d * x + 2 * d
  {
    Split(2 * d, 2 * h, 1);
    Split(2 * d, x, 1);
  }

  lemma {:induction false} PeriodLoss(q: nat, d: nat, m: nat)
    requires m <= d && d > 0
    ensures 4 * d * PeriodSum(q, d, m) + 6 * d * m >= q * (m * (4 * d - m + 1))
  {
    hide Sloped;
    if m > 0 {
      PeriodLoss(q, d, m - 1);
      SlopedLoss(q, d, m - 1);
      PeriodLossStep(q, d, m, PeriodSum(q, d, m - 1), Sloped(q, d, m - 1));
    }
  }

  lemma PeriodLossStep(q: nat, d: nat, m: nat, s: nat, x: nat)
    requires 0 < m <= d
    requires 4 * d * s + 6 * d * (m - 1) >= q * ((m - 1) * (4 * d - m + 2)) && 4 * d * x + 6 * d >= q * (4 * d - 2 * (m - 1))
    ensures 4 * d * (s + x) + 6 * d * m >= q * (m * (4 * d - m + 1))
  {
    var a, b := (m - 1) * (4 * d - m + 2), 4 * d - 2 * (m - 1);
    assert m * (4 * d - m + 1) == a + b;
    Split(4 * d, s, x);
    Split(q, a, b);
    Split(6 * d, m - 1, 1);
  }

  /** A period issues at least three quarters of its blocks' full reward, less one and a half units a block. */
  lemma PeriodTotalLoss(q: nat, d: nat)
    requires d > 0
    ensures 4 * PeriodSum(q, d, d) + 6 * d >= q * (3 * d + 1)
  {
    hide PeriodSum;
    PeriodLoss(q, d, d);
    var s := PeriodSum(q, d, d);
    assert d * (4 * s + 6 * d) == 4 * d * s + 6 * d * d by {
      Split(d, 4 * s, 6 * d);
      MulAssoc(d, 4, s);
      MulAssoc(d, 6, d);
    }
    MulAssoc(d, q, 3 * d + 1);
    MulAssoc(q, d, 3 * d + 1);
    Cancel(d, q * (3 * d + 1), 4 * s + 6 * d);
  }

  lemma {:induction false} PeriodBound(q: nat, d: nat, m: nat)
    requires m <= d && d > 0
    ensures 4 * d * PeriodSum(q, d, m) <= q * (m * (4 * d - m + 1))
  {
    hide Sloped;
    if m > 0 {
      PeriodBound(q, d, m - 1);
      SlopedBound(q, d, m - 1);
      PeriodStep(q, d, m, PeriodSum(q, d, m - 1), Sloped(q, d, m - 1));
    }
  }

  lemma PeriodStep(q: nat, d: nat, m: nat, s: nat, x: nat)
    requires 0 < m <= d && 4 * d * s <= q * ((m - 1) * (4 * d - m + 2)) && 4 * d * x <= q * (4 * d - 2 * (m - 1))
    ensures 4 * d * (s + x) <= q * (m * (4 * d - m + 1))
  {
    var a, b := (m - 1) * (4 * d - m + 2), 4 * d - 2 * (m - 1);
    assert m * (4 * d - m + 1) == a + b;
    Split(4 * d, s, x);
    Split(q, a, b);
  }

  lemma PeriodTotal(q: nat, d: nat)
    requires d > 0
    ensures 4 * PeriodSum(q, d, d) <= q * (3 * d + 1)
  {
    hide PeriodSum;
    PeriodBound(q, d, d);
    var s := PeriodSum(q, d, d);
    assert d * (4 * s) == 4 * d * s;
    MulAssoc(d, q, 3 * d + 1);
    MulAssoc(q, d, 3 * d + 1);
    Cancel(d, 4 * s, q * (3 * d + 1));
  }

  //////////////////////////////////////////////////////////////////////////////
  // All periods
  //////////////////////////////////////////////////////////////////////////////

  /** reward >> k */
  function Halved(reward: nat, k: nat): nat {
    if k == 0 then reward else Halved(reward, k - 1) / 2
  }

  /** The shift is never by more than 63. */
  function Capped(k: nat): nat { if k > 63 then 63 else k }

  function HalvedSum(reward: nat, n: nat): nat {
    if n == 0 then 0 else HalvedSum(reward, n - 1) + Halved(reward, Capped(n - 1))
  }

  lemma {:induction false} HalvedSumBound(reward: nat, n: nat)
    requires 0 < n <= 64
    ensures HalvedSum(reward, n) + Halved(reward, n - 1) <= 2 * reward
  {
    if n > 1 {
      HalvedSumBound(reward, n - 1);
    }
  }

  /** Each halving loses at most a half, so that the sum loses less than one for each. */
  lemma {:induction false} HalvedSumLoss(reward: nat, n: nat)
    requires 0 < n <= 64
    ensures HalvedSum(reward, n) + Halved(reward, n - 1) + n - 1 >= 2 * reward
  {
    if n > 1 {
      HalvedSumLoss(reward, n - 1);
    }
  }

  lemma {:induction false} HalvedMono(reward: nat, k: nat, m: nat)
    requires k <= m
    ensures Halved(reward, m) <= Halved(reward, k)
  {
    if k < m {
      HalvedMono(reward, k, m - 1);
    }
  }

  /** Halving k times leaves c or more exactly if there was c << k or more. */
  lemma {:induction false} HalvedAtLeast(reward: nat, k: nat, c: nat)
    ensures Halved(reward, k) >= c <==> reward >= c * Pow(2, k)
  {
    if k > 0 {
      HalvedAtLeast(reward, k - 1, 2 * c);
      MulAssoc(c, 2, Pow(2, k - 1));
    }
  }

  /** The reward j blocks after the end of the slow start. */
  function Tail(reward: nat, d: nat, j: nat): nat
    requires d > 0
  {
    Sloped(Halved(reward, Capped(Over(j, d))), d, j % d)
  }

  function TailSum(reward: nat, d: nat, n: nat): nat
    requires d > 0
  {
    if n == 0 then 0 else TailSum(reward, d, n - 1) + Tail(reward, d, n - 1)
  }

  function Periods(reward: nat, d: nat, n: nat): nat
    requires d > 0
  {
    if n == 0 then 0 else Periods(reward, d, n - 1) + PeriodSum(Halved(reward, Capped(n - 1)), d, d)
  }

  lemma TailAt(reward: nat, d: nat, k: nat, m: nat)
    requires d > 0 && m < d
    ensures Tail(reward, d, k * d + m) == Sloped(Halved(reward, Capped(k)), d, m)
  {
    hide Sloped, Halved;
    NotNegative(k * d + m, d);
    SameDivision(d, k, m, (k * d + m) / d, (k * d + m) % d);
  }

  /** Block by block is period by period. */
  lemma {:induction false} TailSplit(reward: nat, d: nat, k: nat, m: nat)
    requires d > 0 && m <= d
    ensures TailSum(reward, d, k * d + m) == Periods(reward, d, k) + PeriodSum(Halved(reward, Capped(k)), d, m)
    decreases k, m
  {
    hide Tail, Sloped, Halved;
    if m > 0 {
      TailSplit(reward, d, k, m - 1);
      TailAt(reward, d, k, m - 1);
    } else if k > 0 {
      TailSplit(reward, d, k - 1, d);
      assert (k - 1) * d + d == k * d;
    }
  }

  lemma {:induction false} PeriodsBound(reward: nat, d: nat, n: nat)
    requires d > 0
    ensures 4 * Periods(reward, d, n) <= HalvedSum(reward, n) * (3 * d + 1)
  {
    hide PeriodSum, Halved;
    if n > 0 {
      PeriodsBound(reward, d, n - 1);
      PeriodTotal(Halved(reward, Capped(n - 1)), d);
      var q := Halved(reward, Capped(n - 1));
      Gather(Periods(reward, d, n - 1), PeriodSum(q, d, d), HalvedSum(reward, n - 1), q, 3 * d + 1);
    }
  }

  lemma {:induction false} PeriodsLoss(reward: nat, d: nat, n: nat)
    requires d > 0
    ensures 4 * Periods(reward, d, n) + 6 * d * n >= HalvedSum(reward, n) * (3 * d + 1)
  {
    hide PeriodSum, Halved;
    if n > 0 {
      PeriodsLoss(reward, d, n - 1);
      var q := Halved(reward, Capped(n - 1));
      PeriodTotalLoss(q, d);
      Split(3 * d + 1, HalvedSum(reward, n - 1), q);
      Split(6 * d, n - 1, 1);
    }
  }

  lemma Gather(x: nat, y: nat, a: nat, b: nat, c: nat)
    requires 4 * x <= a * c && 4 * y <= b * c
    ensures 4 * (x + y) <= (a + b) * c
  {
    Split(c, a, b);
  }

  lemma {:induction false} PeriodSumMono(q: nat, d: nat, m: nat, n: nat)
    requires m <= n <= d && d > 0
    ensures PeriodSum(q, d, m) <= PeriodSum(q, d, n)
  {
    if m < n {
      PeriodSumMono(q, d, m, n - 1);
    }
  }

  /** However far into period k: less than what the remaining halvings leave over. */
  lemma TailSumBound(reward: nat, d: nat, k: nat, m: nat)
    requires d > 0 && m <= d && (k <= 63 || reward < Pow(2, 64))
    ensures 4 * TailSum(reward, d, k * d + m) <= (2 * reward - Halved(reward, k)) * (3 * d + 1) && Halved(reward, k) <= 2 * reward
  {
    hide TailSum, Periods, PeriodSum, HalvedSum, Halved, Pow;
    if k <= 63 {
      TailSplit(reward, d, k, m);
      PeriodSumMono(Halved(reward, k), d, m, d);
      PeriodsBound(reward, d, k + 1);
      PeriodsNext(reward, d, k);
      HalvedSumBound(reward, k + 1);
      MulMono(HalvedSum(reward, k + 1), 2 * reward - Halved(reward, k), 3 * d + 1, 3 * d + 1);
    } else {
      LastShift(reward);
      MulMono(63, k, d, d);
      TailSumEnds(reward, d, 63, k * d + m);
      TailSumBound(reward, d, 63, 0);
      HalvedMono(reward, 63, k);
      MulMono(2 * reward - Halved(reward, 63), 2 * reward - Halved(reward, k), 3 * d + 1, 3 * d + 1);
    }
  }

  lemma PeriodsNext(reward: nat, d: nat, k: nat)
    requires d > 0
    ensures Periods(reward, d, k + 1) == Periods(reward, d, k) + PeriodSum(Halved(reward, Capped(k)), d, d)
  {
  }

  /** Shifting by 63 leaves two or more exactly from 2^64 on. */
  lemma LastShift(reward: nat)
    ensures Halved(reward, 63) >= 2 <==> reward >= Pow(2, 64)
  {
    hide Pow, Halved;
    HalvedAtLeast(reward, 63, 2);
    PowNext(2, 63);
  }

  /** A period that starts with one or zero pays nothing, one that starts with more pays in every block. */
  lemma SlopedZero(q: nat, d: nat, j: nat)
    requires j < d
    ensures Sloped(q, d, j) == 0 <==> q <= 1
  {
    hide Over;
    SlopeFalls(q, d, j);
    if q <= 1 {
      OverBound(q * (d - j), 2 * d);
      if Over(q * (d - j), 2 * d) > 0 {
        MulMono(2 * d, 2 * d, 1, Over(q * (d - j), 2 * d));
      }
    }
  }

  /** Once halving has come to one, no block pays. */
  lemma TailEnds(reward: nat, d: nat, k: nat, j: nat)
    requires d > 0 && k <= 63 && Halved(reward, k) <= 1 && j >= k * d
    ensures Tail(reward, d, j) == 0
  {
    hide Tail, Halved, Sloped;
    var n := PeriodOf(d, k, j);
    TailAt(reward, d, n, j - n * d);
    HalvedMono(reward, k, Capped(n));
    SlopedZero(Halved(reward, Capped(n)), d, j - n * d);
  }

  lemma PeriodOf(d: nat, k: nat, j: nat) returns (n: nat)
    requires d > 0 && j >= k * d
    ensures n >= k && 0 <= j - n * d < d
  {
    NotNegative(j, d);
    n := j / d;
    assert j == n * d + j % d;
    assert (n + 1) * d == n * d + d;
    if n < k {
      MulMono(n + 1, k, d, d);
    }
  }

  lemma {:induction false} TailSumEnds(reward: nat, d: nat, k: nat, n: nat)
    requires d > 0 && k <= 63 && Halved(reward, k) <= 1 && n >= k * d
    ensures TailSum(reward, d, n) == TailSum(reward, d, k * d)
    decreases n
  {
    hide Tail, Halved;
    if n > k * d {
      TailSumEnds(reward, d, k, n - 1);
      TailEnds(reward, d, k, n - 1);
    }
  }

  /** From 2^64 on, the capped shift pays one or more in every block, forever. */
  lemma {:induction false} TailNeverEnds(reward: nat, d: nat, x: nat)
    requires d > 0 && reward >= Pow(2, 64)
    ensures TailSum(reward, d, 63 * d + x) >= x
  {
    hide Tail, Halved, Sloped, Pow;
    if x > 0 {
      TailNeverEnds(reward, d, x - 1);
      LastShift(reward);
      var j := 63 * d + x - 1;
      var n := PeriodOf(d, 63, j);
      TailAt(reward, d, n, j - n * d);
      SlopedZero(Halved(reward, 63), d, j - n * d);
    }
  }

  //////////////////////////////////////////////////////////////////////////////
  // The schedule
  //////////////////////////////////////////////////////////////////////////////

  datatype Schedule = Schedule(premine: nat, reward: nat, ramp: nat, period: nat) {
    predicate Valid() { ramp > 0 && period > 0 }
  }

  function Reward(s: Schedule, i: nat): nat
    requires s.Valid()
  {
    if 21 <= i <= 80 then s.premine
    else if i <= 200 then 0
    else if i <= 200 + s.ramp then Ramp(s.reward, s.ramp, i - 200)
    else Tail(s.reward, s.period, i - 200 - s.ramp)
  }

  /** Everything issued up to a height. */
  function Total(s: Schedule, n: nat): nat
    requires s.Valid()
  {
    if n == 0 then 0 else Total(s, n - 1) + Reward(s, n)
  }

  lemma {:induction false} TotalEarly(s: Schedule, n: nat)
    requires s.Valid() && n <= 200
    ensures Total(s, n) == if n <= 20 then 0 else if n <= 80 then s.premine * (n - 20) else s.premine * 60
  {
    hide Ramp, Tail;
    if n > 0 {
      TotalEarly(s, n - 1);
      if 20 < n <= 80 {
        Split(s.premine, n - 21, 1);
      }
    }
  }

  lemma {:induction false} TotalRamp(s: Schedule, m: nat)
    requires s.Valid() && m <= s.ramp
    ensures Total(s, 200 + m) == s.premine * 60 + RampSum(s.reward, s.ramp, m)
  {
    hide Ramp, Tail;
    if m == 0 {
      TotalEarly(s, 200);
    } else {
      TotalRamp(s, m - 1);
    }
  }

  lemma {:induction false} TotalTail(s: Schedule, m: nat)
    requires s.Valid()
    ensures Total(s, 200 + s.ramp + m) + Tail(s.reward, s.period, 0)
            == s.premine * 60 + RampSum(s.reward, s.ramp, s.ramp) + TailSum(s.reward, s.period, m + 1)
  {
    hide Ramp, Tail, RampSum;
    if m == 0 {
      TotalRamp(s, s.ramp);
      TailSumFirst(s.reward, s.period);
    } else {
      TotalTail(s, m - 1);
    }
  }

  lemma TailSumFirst(reward: nat, d: nat)
    requires d > 0
    ensures TailSum(reward, d, 1) == Tail(reward, d, 0) && TailSum(reward, d, 0) == 0
  {
  }

  lemma TailFirst(reward: nat, d: nat)
    requires d > 0
    ensures Tail(reward, d, 0) == reward / 2 + reward / 2
  {
    TailAt(reward, d, 0, 0);
    assert Over(reward * d, 2 * d) == reward / 2 by {
      IsHalf(reward, d);
    }
  }

  lemma IsHalf(q: nat, d: nat)
    requires d > 0
    ensures q * d / (2 * d) == q / 2
  {
    var h, r := q / 2, q % 2;
    assert q * d == h * (2 * d) + r * d by { assert q == 2 * h + r; assert (2 * h + r) * d == 2 * h * d + r * d; MulAssoc(h, 2, d); }
    NotNegative(q * d, 2 * d);
    SameDivision(2 * d, h, r * d, q * d / (2 * d), q * d % (2 * d));
  }

  /** Up to any block of period k: the premine, the slow start and the geometric sum of the periods. */
  lemma IssuanceBound(s: Schedule, k: nat, m: nat)
    requires s.Valid() && m < s.period && (k <= 63 || s.reward < Pow(2, 64))
    ensures Halved(s.reward, k) <= 2 * s.reward
    ensures 4 * Total(s, 200 + s.ramp + k * s.period + m) + 8 * (s.reward / 2)
            <= 240 * s.premine + 2 * (s.reward * (s.ramp + 1)) + (2 * s.reward - Halved(s.reward, k)) * (3 * s.period + 1)
  {
    hide Total, TailSum, RampSum, Halved, Tail, Pow;
    TotalTail(s, k * s.period + m);
    TailFirst(s.reward, s.period);
    RampTotal(s.reward, s.ramp);
    TailSumBound(s.reward, s.period, k, m + 1);
  }

  /** The premine, the slow start and the whole geometric sum, four times over. */
  function Bound(s: Schedule): nat {
    240 * s.premine + 2 * (s.reward * (s.ramp + 1)) + 2 * s.reward * (3 * s.period + 1)
  }

  ghost predicate WithinBound(s: Schedule, n: nat)
    requires s.Valid()
  {
    4 * Total(s, n) + 8 * (s.reward / 2) <= Bound(s)
  }

  /** The issuance is within the bound at every height, exactly if the reward is below 2^64. */
  lemma IssuanceExactly(s: Schedule)
    requires s.Valid()
    ensures (forall n :: WithinBound(s, n)) <==> s.reward < Pow(2, 64)
  {
    hide WithinBound, Pow;
    if s.reward < Pow(2, 64) {
      forall n ensures WithinBound(s, n) {
        BoundHolds(s, n);
      }
    } else {
      BoundFails(s);
    }
  }

  lemma BoundHolds(s: Schedule, n: nat)
    requires s.Valid() && s.reward < Pow(2, 64)
    ensures WithinBound(s, n)
  {
    hide Total, Halved, Pow;
    var e := 200 + s.ramp;
    var j := if n < e then 0 else n - e;
    TotalMono(s, n, e + j);
    var k := PeriodOf(s.period, 0, j);
    IssuanceBound(s, k, j - k * s.period);
    MulMono(2 * s.reward - Halved(s.reward, k), 2 * s.reward, 3 * s.period + 1, 3 * s.period + 1);
  }

  /** From 2^64 on, a height at which the bound is exceeded. */
  lemma BoundFails(s: Schedule)
    requires s.Valid() && s.reward >= Pow(2, 64)
    ensures !WithinBound(s, 200 + s.ramp + 63 * s.period + Bound(s))
  {
    hide Total, TailSum, RampSum, Tail, Pow, Bound;
    TotalTail(s, 63 * s.period + Bound(s));
    TailFirst(s.reward, s.period);
    TailNeverEnds(s.reward, s.period, Bound(s) + 1);
  }

  /** A reward of 2^64 with a ramp and a period of one block, and no premine. */
  lemma BoundFailsAt()
    ensures var s := Schedule(0, Pow(2, 64), 1, 1); !WithinBound(s, 264 + 12 * Pow(2, 64))
  {
    hide WithinBound, Pow;
    BoundFails(Schedule(0, Pow(2, 64), 1, 1));
  }

  //////////////////////////////////////////////////////////////////////////////
  // The chain's own constants
  //////////////////////////////////////////////////////////////////////////////

  const D := 2200000 - 14400
  const CHAIN := Schedule(1000000 * COIN, 20 * COIN, 43200, D)

  /** The first height without a reward, after the premine. */
  const LAST := 200 + 43200 + 30 * D

  /** The bound is the money cap, to the unit. */
  lemma BoundIsMaxMoney()
    ensures Bound(CHAIN) - 8 * (CHAIN.reward / 2) == 4 * MAX_MONEY
  {
  }

  lemma HalvedNext(reward: nat, k: nat)
    ensures Halved(reward, k + 1) == Halved(reward, k) / 2 && Halved(reward, 0) == reward
  {
  }

  lemma FiveHalvings(reward: nat, k: nat)
    ensures Halved(reward, k + 5) == Halved(reward, k) / 32
  {
    hide Halved;
    HalvedNext(reward, k);
    HalvedNext(reward, k + 1);
    HalvedNext(reward, k + 2);
    HalvedNext(reward, k + 3);
    HalvedNext(reward, k + 4);
  }

  lemma LastHalvings()
    ensures Halved(CHAIN.reward, 29) == 3 && Halved(CHAIN.reward, 30) == 1
  {
    hide Halved;
    var r := CHAIN.reward;
    HalvedNext(r, 0);
    FiveHalvings(r, 0);
    FiveHalvings(r, 5);
    FiveHalvings(r, 10);
    FiveHalvings(r, 15);
    FiveHalvings(r, 20);
    assert Halved(r, 25) == 59;
    HalvedNext(r, 25);
    HalvedNext(r, 26);
    HalvedNext(r, 27);
    HalvedNext(r, 28);
    HalvedNext(r, 29);
  }

  /** All that is ever issued comes within two coins of the cap. */
  lemma TotalAtEnd()
    ensures 12600000000000000 - 200000000 < Total(CHAIN, LAST) < 12600000000000000 == MAX_MONEY
  {
    hide Total, TailSum, RampSum, Tail, Halved, Periods, HalvedSum, PeriodSum;
    NeverReachesCap(LAST);
    LastHalvings();
    TotalTail(CHAIN, 30 * D);
    TailFirst(CHAIN.reward, D);
    RampTotalLoss(CHAIN.reward, CHAIN.ramp);
    TailSplit(CHAIN.reward, D, 30, 1);
    PeriodsLoss(CHAIN.reward, D, 30);
    HalvedSumLoss(CHAIN.reward, 30);
    var c := 3 * D + 1;
    MulMono(2 * CHAIN.reward - 32, HalvedSum(CHAIN.reward, 30), c, c);
  }

  /** At no height is the cap reached. */
  lemma NeverReachesCap(n: nat)
    ensures Total(CHAIN, n) < MAX_MONEY
  {
    hide Total, Halved;
    var e := 200 + CHAIN.ramp;
    if n < e {
      TotalMono(CHAIN, n, e);
      BelowCap(0, 0);
    } else if n < e + 30 * D {
      var j := n - e;
      BelowCap(j / D, j % D);
    } else {
      BelowCap(30, 0);
      TotalEnds(n - e);
    }
  }

  lemma TotalEnds(m: nat)
    requires m >= 30 * D
    ensures Total(CHAIN, 200 + CHAIN.ramp + m) == Total(CHAIN, 200 + CHAIN.ramp + 30 * D)
  {
    hide Total, TailSum, RampSum, Tail, Halved;
    LastHalvings();
    TotalTail(CHAIN, m);
    TotalTail(CHAIN, 30 * D);
    TailSumEnds(CHAIN.reward, D, 30, m + 1);
    TailSumEnds(CHAIN.reward, D, 30, 30 * D + 1);
  }

  lemma BelowCap(k: nat, m: nat)
    requires k <= 30 && m < D
    ensures Total(CHAIN, 200 + CHAIN.ramp + k * D + m) < MAX_MONEY
  {
    hide Total, Halved;
    IssuanceBound(CHAIN, k, m);
    LastHalvings();
    HalvedMono(CHAIN.reward, k, 30);
    BoundIsMaxMoney();
    var q, c := Halved(CHAIN.reward, k), 3 * D + 1;
    MulMono(1, q, c, c);
    assert (2 * CHAIN.reward - q) * c == 2 * CHAIN.reward * c - q * c;
  }

  lemma {:induction false} TotalMono(s: Schedule, m: nat, n: nat)
    requires s.Valid() && m <= n
    ensures Total(s, m) <= Total(s, n)
  {
    hide Reward;
    if m < n {
      TotalMono(s, m, n - 1);
    }
  }

  //////////////////////////////////////////////////////////////////////////////
  // Rewards rise, then fall
  //////////////////////////////////////////////////////////////////////////////

  lemma OverMono(x: nat, x': nat, y: nat)
    requires x <= x' && y > 0
    ensures Over(x, y) <= Over(x', y)
  {
    OverBound(x, y);
    NotNegative(x', y);
    assert x' == (x' / y) * y + x' % y;
    if Over(x', y) < Over(x, y) {
      MulMono(y, y, Over(x', y) + 1, Over(x, y));
      Split(y, Over(x', y), 1);
    }
  }

  lemma RampRises(reward: nat, length: nat, j: nat)
    requires length > 0
    ensures Ramp(reward, length, j) <= Ramp(reward, length, j + 1) && Ramp(reward, length, length) == reward
  {
    hide Over;
    Split(reward, j, 1);
    OverMono(reward * j, reward * (j + 1), length);
    OverExact(reward, length);
  }

  lemma OverExact(q: nat, d: nat)
    requires d > 0
    ensures Over(q * d, d) == q
  {
    NotNegative(q * d, d);
    SameDivision(d, q, 0, q * d / d, q * d % d);
  }

  /** Within a period, rewards fall from its start to half of it. */
  lemma SlopeFalls(q: nat, d: nat, j: nat)
    requires d > 0 && j <= d
    ensures q / 2 <= Sloped(q, d, j) <= q
    ensures j < d ==> Sloped(q, d, j + 1) <= Sloped(q, d, j)
  {
    hide Over;
    MulMono(q, q, d - j, d);
    OverMono(q * (d - j), q * d, 2 * d);
    HalfOver(q, d);
    if j < d {
      MulMono(q, q, d - j - 1, d - j);
      OverMono(q * (d - j - 1), q * (d - j), 2 * d);
    }
  }

  lemma HalfOver(q: nat, d: nat)
    requires d > 0
    ensures Over(q * d, 2 * d) == q / 2
  {
    IsHalf(q, d);
  }

  lemma TailFalls(reward: nat, d: nat, k: nat, m: nat)
    requires d > 0 && m < d && k < 63
    ensures Tail(reward, d, k * d + m + 1) <= Tail(reward, d, k * d + m) <= Halved(reward, k)
  {
    hide Tail, Sloped, Halved;
    TailAt(reward, d, k, m);
    SlopeFalls(Halved(reward, k), d, m);
    if m + 1 < d {
      TailAt(reward, d, k, m + 1);
    } else {
      Split(d, k, 1);
      assert k * d + m + 1 == (k + 1) * d + 0;
      TailAt(reward, d, k + 1, 0);
      SlopeFalls(Halved(reward, k + 1), d, 0);
      HalvedNext(reward, k);
    }
  }

  /** The break marked as one that should not happen: rewards fall in the slow start, or rise after it. */
  predicate Unexpected(s: Schedule, i: nat, r: nat, rp: nat) {
    (i <= 200 + s.ramp && i != 81 && r < rp) || (i > 200 + s.ramp && r > rp)
  }

  lemma NeverUnexpected(i: nat)
    requires 0 < i
    ensures !Unexpected(CHAIN, i, Reward(CHAIN, i), if i == 1 then 0 else Reward(CHAIN, i - 1))
  {
    hide Ramp, Tail, Halved;
    var e := 200 + CHAIN.ramp;
    if 200 < i <= e {
      RampRises(CHAIN.reward, CHAIN.ramp, i - 201);
    } else if i > e {
      var j := i - 1 - e;
      if j < 30 * D {
        TailFalls(CHAIN.reward, D, j / D, j % D);
      } else {
        LastHalvings();
        TailEnds(CHAIN.reward, D, 30, j);
        TailEnds(CHAIN.reward, D, 30, j + 1);
      }
      RampRises(CHAIN.reward, CHAIN.ramp, 0);
      HalvedNext(CHAIN.reward, 0);
    }
  }

  //////////////////////////////////////////////////////////////////////////////
  // The loop
  //////////////////////////////////////////////////////////////////////////////

  /** After the premine, rewards end with the beginning of the 31st period, and not before. */
  lemma FirstZero(i: nat)
    requires 200 < i
    ensures Reward(CHAIN, i) == 0 <==> i >= LAST
  {
    hide Tail, Halved, Over, Sloped;
    var e := 200 + CHAIN.ramp;
    if i <= e {
      OverMono(CHAIN.ramp, CHAIN.reward * (i - 200), CHAIN.ramp);
      OverExact(1, CHAIN.ramp);
    } else {
      var j := i - e;
      LastHalvings();
      if j < 30 * D {
        var k, m := j / D, j % D;
        TailAt(CHAIN.reward, D, k, m);
        HalvedMono(CHAIN.reward, k, 29);
        SlopedZero(Halved(CHAIN.reward, k), D, m);
      } else {
        TailEnds(CHAIN.reward, D, 30, j);
      }
    }
  }

  /** After the premine no block pays more than the full reward. */
  lemma AtMostFull(i: nat)
    requires 200 < i
    ensures Reward(CHAIN, i) <= CHAIN.reward
  {
    hide Tail, Halved, Over, Sloped;
    var e := 200 + CHAIN.ramp;
    if i <= e {
      MulMono(CHAIN.reward, CHAIN.reward, i - 200, CHAIN.ramp);
      OverMono(CHAIN.reward * (i - 200), CHAIN.reward * CHAIN.ramp, CHAIN.ramp);
      OverExact(CHAIN.reward, CHAIN.ramp);
    } else {
      var j := i - e;
      var k, m := j / D, j % D;
      TailAt(CHAIN.reward, D, k, m);
      SlopeFalls(Halved(CHAIN.reward, Capped(k)), D, m);
      HalvedMono(CHAIN.reward, 0, Capped(k));
      HalvedNext(CHAIN.reward, 0);
    }
  }

  // The widths of the loop's variables: whatever is computed in them is shown to fit.
  newtype Int = x: int | -0x8000_0000 <= x < 0x8000_0000
  newtype LongLong = x: int | -0x8000_0000_0000_0000 <= x < 0x8000_0000_0000_0000

  const COINS: LongLong := COIN as LongLong

  method ShiftRight(x: LongLong, k: Int) returns (r: LongLong)
    requires x >= 0 && k >= 0
    ensures 0 <= r <= x && r as int == Halved(x as int, k as int)
    ensures r as int * Pow(2, k as int) <= x as int < (r as int + 1) * Pow(2, k as int)
  {
    r := x;
    var n: Int := 0;
    while n < k
      invariant 0 <= n <= k && 0 <= r <= x && r as int == Halved(x as int, n as int)
    {
      r := r / 2;
      n := n + 1;
    }
    hide Halved, Pow;
    HalvedAtLeast(x as int, k as int, r as int);
    HalvedAtLeast(x as int, k as int, r as int + 1);
  }

  method SlowStartReward(j: Int) returns (r: LongLong)
    requires 0 < j <= 43200
    ensures r as int == Ramp(20 * COIN, 43200, j as int)
    ensures 43200 * (r as int) <= 20 * COIN * j as int < 43200 * (r as int + 1)
  {
    hide Over;
    OverIs(20 * COIN * j as int, 43200);
    OverBound(20 * COIN * j as int, 43200);
    r := 20 * COINS * j as LongLong / 43200;
  }

  method SlopedReward(q: LongLong, d: Int, j: Int) returns (r: LongLong)
    requires 0 <= q <= 20 * COINS && 0 <= j < d && d as int == D
    ensures r as int == Sloped(q as int, D, j as int)
  {
    hide Sloped;
    SlopedIs(q as int, j as int);
    r := q * (d - j) as LongLong;
    r := q / 2 + r / (2 * d) as LongLong;
  }

  /** A height after the slow start, as the k-th period and the m-th block of it, and the parts of its reward. */
  datatype Parts = Parts(k: nat, m: nat, q: nat, half: nat, slope: nat)

  /** The period starts with q: the full reward, halved k times but at most 63 times, rounded down. */
  predicate Starts(p: Parts) {
    var w := Pow(2, if p.k <= 63 then p.k else 63);
    p.q * w <= 2000000000 < (p.q + 1) * w
  }

  /** Half of that, and as much of the other half as is left of the period, each rounded down. */
  predicate Pays(p: Parts, n: nat, r: int) {
    && n == p.k * D + p.m && p.m < D && r == p.half + p.slope
    && 2 * p.half <= p.q <= 2 * p.half + 1
    && 2 * D * p.slope <= p.q * (D - p.m) < 2 * D * (p.slope + 1)
  }

  lemma SlopedParts(q: nat, m: nat)
    requires m < D
    ensures var slope := Over(q * (D - m), 2 * D);
      Sloped(q, D, m) == q / 2 + slope && 2 * D * slope <= q * (D - m) < 2 * D * (slope + 1)
  {
    hide Over;
    OverBound(q * (D - m), 2 * D);
  }

  method TailReward(n: Int) returns (r: LongLong, ghost p: Parts)
    requires n > 0
    ensures r as int == Tail(20 * COIN, D, n as int) && Starts(p) && Pays(p, n as int, r as int)
  {
    hide Over, Sloped, Halved, Pow;
    var j, d := n, 2200000 - 14400 as Int;
    var k := j / d;
    OverIs(j as int, D);
    j := j % d;
    ghost var period := k as int;
    if k > 63 {
      k := 63;
    }
    r := ShiftRight(20 * COINS, k);
    ghost var q := r as int;
    SlopedParts(q, j as int);
    p := Parts(period, j as int, q, q / 2, Over(q * (D - j as int), 2 * D));
    r := SlopedReward(r, d, j);
  }

  /**
   The reward of one block, in the widths of the loop: a million coins in the premine, the share of the full reward that
   the slow start has come to, or the falling share of the halved one; none from the end on.
   */
  method BlockReward(i: Int) returns (r: LongLong, ghost p: Parts)
    requires i > 0
    ensures r as int == Reward(CHAIN, i as int)
    ensures i <= 200 ==> r as int == if 21 <= i <= 80 then 100000000000000 else 0
    ensures 200 < i <= 43400 ==> 43200 * (r as int) <= 2000000000 * (i as int - 200) < 43200 * (r as int + 1)
    ensures i > 43400 ==> Starts(p) && Pays(p, i as int - 43400, r as int)
    ensures i > 200 ==> 0 <= r <= 20 * COINS && (r == 0 <==> i as int >= LAST)
  {
    hide Ramp, Tail, Pays, Starts;
    if i > 200 {
      FirstZero(i as int);
      AtMostFull(i as int);
    }
    r := 0;
    p := Parts(0, 0, 0, 0, 0);
    if i >= 21 && i <= 80 {
      r := 1000000 * COINS;
    } else if i <= 200 {
      r := 0;
    } else if i <= 200 + 43200 {
      r := SlowStartReward(i - 200);
    } else {
      r, p := TailReward(i - (200 + 43200));
    }
  }

  lemma OverIs(x: nat, y: nat)
    requires y > 0
    ensures Over(x, y) == x / y
  {
  }

  lemma SlopedIs(q: nat, j: nat)
    requires q <= 20 * COIN && j <= D
    ensures 0 <= q * (D - j) <= 20 * COIN * D
    ensures Sloped(q, D, j) == q / 2 + q * (D - j) / 4371200
  {
    hide Over;
    MulMono(q, 20 * COIN, D - j, D);
    OverIs(q * (D - j), 4371200);
  }

  datatype Exit = CapReached | ShouldNotHappen | NoMoreReward

  /** The whole supply: the loop ends when rewards do, below the cap, and never by the break that should not happen. */
  method Supply() returns (i: Int, t: LongLong, exit: Exit)
    ensures exit == NoMoreReward && i as int == LAST && t as int == Total(CHAIN, LAST)
    ensures 12600000000000000 - 200000000 < t as int < 12600000000000000
  {
    hide Reward;
    i, t := 0, 0;
    var rp: LongLong := 0;
    NeverReachesCap(0);
    while t < MAX_MONEY as LongLong
      invariant 0 <= i && i as int < LAST && t as int == Total(CHAIN, i as int) < MAX_MONEY
      invariant rp as int == if i == 0 then 0 else Reward(CHAIN, i as int)
      decreases LAST - i as int
    {
      NeverReachesCap(i as int + 1);
      NeverUnexpected(i as int + 1);
      i := i + 1;
      var r, _ := BlockReward(i);
      t := t + r;
      if (i <= 200 + 43200 && i != 81 && r < rp) || (i > 200 + 43200 && r > rp) {
        exit := ShouldNotHappen;
        return;
      }
      rp := r;
      if i > 200 && r == 0 {
        TotalAtEnd();
        exit := NoMoreReward;
        return;
      }
    }
    exit := CapReached;
  }
}
