/** Targets, the work they stand for, and how they are adjusted. */
module ProofOfWork {
  import opened Bits
  import opened Positional
  import opened Limbs
  import opened Shifts
  import opened ArithUint
  import opened Compact

  /** The target that a block header announces. */
  function Target(nBits: nat): nat { Expand(Word(nBits), SizeOf(nBits)) }

  /** The header announces a target that is positive and fits into 256 bits. */
  predicate ValidTarget(nBits: nat) {
    !SignBit(nBits) && 0 < Target(nBits) < Pow(B, WIDTH)
  }

  /** A target that fits leaves room for one more. */
  lemma RoomForOne(nBits: nat)
    requires nBits < B && Target(nBits) < Pow(B, WIDTH)
    ensures Target(nBits) + 1 < Pow(B, WIDTH)
  {
    hide Pow, Bytes;
    SmallBytes();
    BytesAdd(1, 31);
    var w, size := Word(nBits), SizeOf(nBits);
    BytesMono(1, 31);
    MulMono(0x100, 0x100, 0x100, Bytes(31));
    BytesMono(3, 32);
    if size <= 3 {
      Shrinks(w, Bytes(3 - size));
    } else {
      BytesAdd(1, size - 4);
      MulAssoc(w, 0x100, Bytes(size - 4));
      Swapped(w, Bytes(size - 4), 0x100);
      assert Target(nBits) == 0x100 * (w * Bytes(size - 4));
    }
  }

  /** The quotient the code computes is the one that does not fit into 256 bits. */
  lemma ProofIs(m: nat, t: nat)
    requires 0 < t && t + 1 < m
    ensures (m - 1 - t) / (t + 1) + 1 == m / (t + 1) && m / (t + 1) < m
  {
    var d := t + 1;
    NotNegative(m, d);
    var q, r := m / d, m % d;
    assert m == q * d + r;
    Distribute(d, q - 1, 1);
    IsRemainder(r, d, q - 1, m - d);
    MulMono(q, q, 2, d);
  }

  /** The expected number of hashes for a block. */
  function Proof(nBits: nat): (r: nat) {
    if ValidTarget(nBits) then
      NotNegative(Pow(B, WIDTH), Target(nBits) + 1);
      Pow(B, WIDTH) / (Target(nBits) + 1)
    else 0
  }

  method GetBlockProof(nBits: nat) returns (r: BaseUint)
    requires nBits < B
    ensures r.Valid() && r.pn.Length == WIDTH && r.Value() == Proof(nBits)
  {
    hide Pow, Bytes, Num, Expand, Word, SizeOf, SignBit;
    var bnTarget := new BaseUint.Zero(WIDTH);
    var fNegative, fOverflow := SetCompact(bnTarget, nBits);
    var fZero := bnTarget.EqualTo(0);
    ghost var t := Target(nBits);
    if t < Pow(B, WIDTH) {
      SmallMod(t, Pow(B, WIDTH));
    }
    if fNegative || fOverflow || fZero {
      r := new BaseUint.Zero(WIDTH);
      return;
    }
    RoomForOne(nBits);
    r := Quotient(bnTarget);
  }

  /** 2^256 divided by one more than a target, within 256 bits. */
  method Quotient(bnTarget: BaseUint) returns (r: BaseUint)
    requires bnTarget.Valid() && bnTarget.pn.Length == WIDTH && 0 < bnTarget.Value() && bnTarget.Value() + 1 < Pow(B, WIDTH)
    modifies bnTarget.pn
    ensures r.Valid() && r.pn.Length == WIDTH && r.Value() == Pow(B, WIDTH) / (old(bnTarget.Value()) + 1)
  {
    hide Pow, Num;
    ghost var t := bnTarget.Value();
    ProofIs(Pow(B, WIDTH), t);
    var one := new BaseUint.Zero(WIDTH);
    one.Assign(1);
    r := bnTarget.Complement();
    SmallMod(t + 1, Pow(B, WIDTH));
    bnTarget.Add(one);
    var ok, rest := r.Div(bnTarget);
    SmallMod(r.Value() + 1, Pow(B, WIDTH));
    r.Add(one);
  }

  /** An easier target never stands for more work. */
  lemma ProofMonotone(a: nat, b: nat)
    requires ValidTarget(a) && ValidTarget(b) && Target(a) <= Target(b)
    ensures Proof(a) >= Proof(b)
  {
    hide Pow, Expand;
    DivMonotone(Pow(B, WIDTH), Target(a) + 1, Target(b) + 1);
  }

  lemma DivMonotone(m: nat, d: nat, e: nat)
    requires 0 < d <= e
    ensures m / d >= m / e
  {
    NotNegative(m, e);
    var q := m / e;
    assert m == q * e + m % e;
    MulMono(q, q, d, e);
    DivBelow(m, q, d);
  }

  /** A hash proves work exactly if the target is legal and the hash does not exceed it. */
  method CheckProofOfWork(hash: BaseUint, nBits: nat, powLimit: BaseUint) returns (ok: bool)
    requires nBits < B && hash.Valid() && powLimit.Valid() && hash.pn.Length == WIDTH && powLimit.pn.Length == WIDTH
    ensures ok <==> ValidTarget(nBits) && Target(nBits) <= powLimit.Value() && hash.Value() <= Target(nBits)
  {
    hide Pow, Bytes, Num, Expand, Word, SizeOf, SignBit;
    var bnTarget := new BaseUint.Zero(WIDTH);
    var fNegative, fOverflow := SetCompact(bnTarget, nBits);
    var fZero := bnTarget.EqualTo(0);
    if Target(nBits) < Pow(B, WIDTH) {
      SmallMod(Target(nBits), Pow(B, WIDTH));
    }
    var c := bnTarget.CompareTo(powLimit);
    if fNegative || fZero || fOverflow || c > 0 {
      return false;
    }
    c := hash.CompareTo(bnTarget);
    return c <= 0;
  }

  //////////////////////////////////////////////////////////////////////////////
  // Retargeting
  //////////////////////////////////////////////////////////////////////////////

  /** Time spans for a height: what the averaging window should take, and the least and most it counts as. */
  datatype Spans = Spans(window: nat, least: nat, most: nat) {
    predicate Valid() { 0 < least <= window <= most < B }
  }

  /** Division of signed numbers, towards zero. */
  function Quarter(x: int): int { if x >= 0 then x / 4 else -((-x) / 4) }

  /** The time span that counts: a quarter of the deviation, within bounds. */
  function Damped(actual: int, s: Spans): (r: int) {
    var d := s.window + Quarter(actual - s.window);
    if d < s.least then s.least else if d > s.most then s.most else d
  }

  /** The new target: the average scaled by the time span, modulo 2^256, at most the limit. */
  function NextTarget(avg: nat, actual: int, s: Spans, limit: nat): (r: nat)
    requires s.Valid()
  {
    NotNegative(avg, s.window);
    var scaled := avg / s.window * Damped(actual, s) % Pow(B, WIDTH);
    if scaled > limit then limit else scaled
  }

  /** d is window plus a quarter of the deviation of actual from it, rounded towards the window. */
  predicate IsQuartered(d: int, window: nat, actual: int) {
    var rest := (actual - window) - 4 * (d - window);
    -4 < rest < 4 && (rest > 0 ==> actual > window) && (rest < 0 ==> actual < window)
  }

  lemma QuarterIs(window: nat, actual: int)
    ensures IsQuartered(window + Quarter(actual - window), window, actual)
  {
  }

  /** There is only one such span, it is between the two, and it grows with the time taken. */
  lemma QuarteredOnly(d: int, e: int, window: nat, actual: int, later: int)
    requires IsQuartered(d, window, actual) && IsQuartered(e, window, later) && actual <= later
    ensures d <= e && (actual == later ==> d == e) && (actual == window ==> d == window)
    ensures if actual <= window then actual <= d <= window else window <= d <= actual
  {
  }

  /** What is counted: a quarter of the deviation, but at least and at most the bounds. */
  lemma DampedIs(actual: int, s: Spans, d: int)
    requires s.Valid() && IsQuartered(d, s.window, actual)
    ensures Damped(actual, s) == if d < s.least then s.least else if d > s.most then s.most else d
  {
    hide IsQuartered, Quarter;
    QuarterIs(s.window, actual);
    QuarteredOnly(d, s.window + Quarter(actual - s.window), s.window, actual, actual);
  }

  /** Blocks that took longer never make the next target harder. */
  lemma NextTargetMonotone(avg: nat, actual: int, later: int, s: Spans, limit: nat, n: nat)
    requires s.Valid() && avg <= limit && s.most <= n * s.window && limit * n < Pow(B, WIDTH) && actual <= later
    ensures NextTarget(avg, actual, s, limit) <= NextTarget(avg, later, s, limit)
  {
    hide Pow, Damped, NextTarget, IsQuartered, Quarter;
    var d, e := s.window + Quarter(actual - s.window), s.window + Quarter(later - s.window);
    QuarterIs(s.window, actual);
    QuarterIs(s.window, later);
    QuarteredOnly(d, e, s.window, actual, later);
    DampedIs(actual, s, d);
    DampedIs(later, s, e);
    RetargetFits(avg, actual, s, limit, n);
    RetargetFits(avg, later, s, limit, n);
    DampedRange(actual, s);
    QuotientBelow(avg, s.window);
    MulMono(avg / s.window, avg / s.window, Damped(actual, s), Damped(later, s));
  }

  /** Blocks that took exactly the span leave the target as it is, rounded down to a multiple of the span. */
  lemma OnTime(avg: nat, s: Spans, limit: nat, n: nat)
    requires s.Valid() && avg <= limit && s.most <= n * s.window && limit * n < Pow(B, WIDTH)
    ensures NextTarget(avg, s.window, s, limit) == avg - avg % s.window
  {
    hide Pow, Damped, NextTarget, IsQuartered, Quarter;
    QuarterIs(s.window, s.window);
    QuarteredOnly(s.window + Quarter(0), s.window + Quarter(0), s.window, s.window, s.window);
    DampedIs(s.window, s, s.window);
    RetargetFits(avg, s.window, s, limit, n);
    QuotientBelow(avg, s.window);
    assert avg == (avg / s.window) * s.window + avg % s.window;
  }

  /** The span d before its bounds is a quarter of the way from the expected to the actual one. */
  method CalculateNextWorkRequired(bnAvg: BaseUint, nLastBlockTime: int, nFirstBlockTime: int, s: Spans, powLimit: BaseUint)
    returns (nBits: nat, ghost d: int)
    requires bnAvg.Valid() && powLimit.Valid() && bnAvg.pn.Length == WIDTH && powLimit.pn.Length == WIDTH && s.Valid()
    ensures nBits == Compacted(NextTarget(bnAvg.Value(), nLastBlockTime - nFirstBlockTime, s, powLimit.Value())) && nBits < B
    ensures var deviation := nLastBlockTime - nFirstBlockTime - s.window;
      var rest := deviation - 4 * (d - s.window);
      -4 < rest < 4 && (rest > 0 ==> deviation > 0) && (rest < 0 ==> deviation < 0)
    ensures var span := if d < s.least then s.least else if d > s.most then s.most else d;
      var scaled := bnAvg.Value() / s.window * span % Pow(B, WIDTH);
      nBits == Compacted(if scaled > powLimit.Value() then powLimit.Value() else scaled)
  {
    hide Pow, Num, Compacted;
    var nActualTimespan := nLastBlockTime - nFirstBlockTime;
    QuarterIs(s.window, nActualTimespan);
    nActualTimespan := s.window + Quarter(nActualTimespan - s.window);
    d := nActualTimespan;
    if nActualTimespan < s.least {
      nActualTimespan := s.least;
    }
    if nActualTimespan > s.most {
      nActualTimespan := s.most;
    }
    var bnNew := new BaseUint.Copy(bnAvg);
    var span := new BaseUint.Zero(WIDTH);
    span.Assign(s.window);
    var ok, rest := bnNew.Div(span);
    bnNew.MulSmall(nActualTimespan);
    var c := bnNew.CompareTo(powLimit);
    if c > 0 {
      bnNew := new BaseUint.Copy(powLimit);
    }
    nBits := GetCompact(bnNew, false);
  }

  /** The new target never exceeds the limit, and its compact form neither. */
  lemma NextTargetBelow(avg: nat, actual: int, s: Spans, limit: nat)
    requires s.Valid()
    ensures NextTarget(avg, actual, s, limit) <= limit
    ensures Target(Compacted(NextTarget(avg, actual, s, limit))) <= limit
  {
    hide NextTarget;
    NextTargetMin(avg, actual, s, limit);
    RoundsDown(NextTarget(avg, actual, s, limit));
    assert Target(Compacted(NextTarget(avg, actual, s, limit))) == Rounded(NextTarget(avg, actual, s, limit));
  }

  lemma NextTargetMin(avg: nat, actual: int, s: Spans, limit: nat)
    requires s.Valid()
    ensures NextTarget(avg, actual, s, limit) <= limit
  {
  }

  /** The product does not wrap as long as the longest span is at most n times the window and n limits fit. */
  lemma RetargetFits(avg: nat, actual: int, s: Spans, limit: nat, n: nat)
    requires s.Valid() && avg <= limit && s.most <= n * s.window && limit * n < Pow(B, WIDTH)
    ensures avg / s.window * Damped(actual, s) < Pow(B, WIDTH)
    ensures NextTarget(avg, actual, s, limit) == if avg / s.window * Damped(actual, s) > limit then limit else avg / s.window * Damped(actual, s)
  {
    hide Pow, Damped;
    DampedRange(actual, s);
    QuotientBelow(avg, s.window);
    var q, d: nat := avg / s.window, Damped(actual, s);
    ScaledFits(q, s.window, d, n, limit);
    SmallMod(q * d, Pow(B, WIDTH));
  }

  lemma DampedRange(actual: int, s: Spans)
    requires s.Valid()
    ensures s.least <= Damped(actual, s) <= s.most
  {
  }

  lemma QuotientBelow(x: nat, m: nat)
    requires m > 0
    ensures x / m >= 0 && x / m * m <= x
  {
    NotNegative(x, m);
    assert x == (x / m) * m + x % m;
  }

  lemma ScaledFits(q: nat, w: nat, d: nat, n: nat, limit: nat)
    requires q * w <= limit && d <= n * w
    ensures q * d <= limit * n
  {
    MulMono(q, q, d, n * w);
    Swapped(q, w, n);
    MulMono(q * w, limit, n, n);
  }

  /** A block as the averaging sees it. */
  datatype Block = Block(nBits: nat, medianTimePast: int)

  /** The targets of the first n blocks, added up. */
  function SumTargets(blocks: seq<Block>, n: nat): (r: nat)
    requires n <= |blocks|
  {
    if n == 0 then 0 else SumTargets(blocks, n - 1) + Target(blocks[n - 1].nBits) % Pow(B, WIDTH)
  }

  /** The average target over the window, modulo 2^256. */
  function Average(blocks: seq<Block>, window: nat): (r: nat)
    requires 0 < window <= |blocks|
  {
    NotNegative(SumTargets(blocks, window) % Pow(B, WIDTH), window);
    SumTargets(blocks, window) % Pow(B, WIDTH) / window
  }

  method SumWindow(blocks: seq<Block>, window: nat) returns (bnTot: BaseUint, k: nat)
    requires forall i :: 0 <= i < |blocks| ==> blocks[i].nBits < B
    ensures k == (if window < |blocks| then window else |blocks|) && fresh(bnTot.pn)
    ensures bnTot.Valid() && bnTot.pn.Length == WIDTH && bnTot.Value() == SumTargets(blocks, k) % Pow(B, WIDTH)
  {
    hide Pow, Num, Target;
    bnTot := new BaseUint.Zero(WIDTH);
    SmallMod(0, Pow(B, WIDTH));
    k := 0;
    while k < |blocks| && k < window
      invariant k <= |blocks| && k <= window
      invariant bnTot.Valid() && fresh(bnTot.pn) && bnTot.pn.Length == WIDTH && bnTot.Value() == SumTargets(blocks, k) % Pow(B, WIDTH)
    {
      var bnTmp := new BaseUint.Zero(WIDTH);
      var neg, over := SetCompact(bnTmp, blocks[k].nBits);
      TargetIs(blocks[k].nBits);
      AddMod(SumTargets(blocks, k), bnTmp.Value(), Pow(B, WIDTH));
      bnTot.Add(bnTmp);
      k := k + 1;
    }
  }

  lemma TargetIs(nBits: nat)
    ensures Target(nBits) == Expand(Word(nBits), SizeOf(nBits))
  {
  }

  lemma AddMod(x: nat, y: nat, m: nat)
    requires m > 0
    ensures (x % m + y) % m == (x + y) % m
  {
    var q, r := x / m, x % m;
    assert x == q * m + r;
    NotNegative(r + y, m);
    var q', r' := (r + y) / m, (r + y) % m;
    assert r + y == q' * m + r';
    NotNegative(x, m);
    Distribute(m, q, q');
    IsRemainder(r', m, q + q', x + y);
  }

  /** What is required after the given blocks, the last of them first. */
  function Required(blocks: seq<Block>, minDifficulty: bool, window: nat, s: Spans, limit: nat): nat
    requires s.Valid() && window > 0
  {
    if minDifficulty || |blocks| <= window then Compacted(limit)
    else Compacted(NextTarget(Average(blocks, window), blocks[0].medianTimePast - blocks[window].medianTimePast, s, limit))
  }

  method GetNextWorkRequired(blocks: seq<Block>, minDifficulty: bool, window: nat, s: Spans, powLimit: BaseUint) returns (nBits: nat)
    requires powLimit.Valid() && powLimit.pn.Length == WIDTH && s.Valid() && 0 < window < B
    requires forall i :: 0 <= i < |blocks| ==> blocks[i].nBits < B
    ensures nBits == Required(blocks, minDifficulty, window, s, powLimit.Value())
  {
    hide Pow, Num, Compacted, NextTarget, SumTargets;
    nBits := GetCompact(powLimit, false);
    if |blocks| == 0 || minDifficulty {
      return;
    }
    var bnTot, k := SumWindow(blocks, window);
    if k == |blocks| {
      return;
    }
    var n := new BaseUint.Zero(WIDTH);
    n.Assign(window);
    var ok, rest := bnTot.Div(n);
    ghost var d;
    nBits, d := CalculateNextWorkRequired(bnTot, blocks[0].medianTimePast, blocks[k].medianTimePast, s, powLimit);
  }

  lemma {:induction false} SumDepends(blocks: seq<Block>, others: seq<Block>, n: nat)
    requires n <= |blocks| && n <= |others| && forall i :: 0 <= i < n ==> blocks[i].nBits == others[i].nBits
    ensures SumTargets(blocks, n) == SumTargets(others, n)
  {
    hide Target, Pow;
    if n > 0 {
      SumDepends(blocks, others, n - 1);
    }
  }

  /** Only the targets of the window count, and the times of the last block and of the one before the window. */
  lemma RequiredDepends(blocks: seq<Block>, others: seq<Block>, window: nat, s: Spans, limit: nat)
    requires s.Valid() && 0 < window < |blocks| && window < |others|
    requires forall i :: 0 <= i < window ==> blocks[i].nBits == others[i].nBits
    requires blocks[0].medianTimePast == others[0].medianTimePast && blocks[window].medianTimePast == others[window].medianTimePast
    ensures Required(blocks, false, window, s, limit) == Required(others, false, window, s, limit)
  {
    hide NextTarget, Compacted;
    SumDepends(blocks, others, window);
  }

  lemma {:induction false} SumBelow(blocks: seq<Block>, n: nat, limit: nat)
    requires n <= |blocks| && forall i :: 0 <= i < n ==> Target(blocks[i].nBits) <= limit
    ensures SumTargets(blocks, n) <= limit * n
  {
    hide Pow, Target;
    if n > 0 {
      SumBelow(blocks, n - 1, limit);
      ModRange(Target(blocks[n - 1].nBits), Pow(B, WIDTH));
      Distribute(limit, n - 1, 1);
    }
  }

  /** As long as the targets and the window of limits fit, nothing wraps and the average is within the limit. */
  lemma AverageFits(blocks: seq<Block>, window: nat, limit: nat)
    requires 0 < window <= |blocks| && limit * window < Pow(B, WIDTH)
    requires forall i :: 0 <= i < window ==> Target(blocks[i].nBits) <= limit
    ensures SumTargets(blocks, window) < Pow(B, WIDTH)
    ensures Average(blocks, window) == SumTargets(blocks, window) / window && Average(blocks, window) <= limit
  {
    hide Pow, Target;
    SumBelow(blocks, window, limit);
    var t := SumTargets(blocks, window);
    SmallMod(t, Pow(B, WIDTH));
    Distribute(window, limit, 1);
    DivBelow(t, limit + 1, window);
  }

  lemma {:induction false} SumAbove(blocks: seq<Block>, n: nat, least: nat, limit: nat)
    requires n <= |blocks| && limit < Pow(B, WIDTH)
    requires forall i :: 0 <= i < n ==> least <= Target(blocks[i].nBits) <= limit
    ensures SumTargets(blocks, n) >= least * n
  {
    hide Pow, Target;
    if n > 0 {
      SumAbove(blocks, n - 1, least, limit);
      SmallMod(Target(blocks[n - 1].nBits), Pow(B, WIDTH));
      Distribute(least, n - 1, 1);
    }
  }

  /** The average is between the least and the greatest target of the window. */
  lemma AverageBetween(blocks: seq<Block>, window: nat, least: nat, limit: nat)
    requires 0 < window <= |blocks| && limit * window < Pow(B, WIDTH)
    requires forall i :: 0 <= i < window ==> least <= Target(blocks[i].nBits) <= limit
    ensures least <= Average(blocks, window) <= limit
  {
    hide Pow, Target;
    MulMono(limit, limit, 1, window);
    AverageFits(blocks, window, limit);
    SumAbove(blocks, window, least, limit);
    DivBelow(SumTargets(blocks, window), least, window);
  }

  /** The same without any wrap-around: the plain average, scaled by the plain product. */
  function Plain(blocks: seq<Block>, minDifficulty: bool, window: nat, s: Spans, limit: nat): nat
    requires s.Valid() && window > 0
  {
    if minDifficulty || |blocks| <= window then Compacted(limit)
    else
      NotNegative(SumTargets(blocks, window), window);
      NotNegative(SumTargets(blocks, window) / window, s.window);
      var actual := blocks[0].medianTimePast - blocks[window].medianTimePast;
      var scaled := SumTargets(blocks, window) / window / s.window * Damped(actual, s);
      Compacted(if scaled > limit then limit else scaled)
  }

  /** After targets within the limit, the next one is computed without wrapping and is within the limit again. */
  lemma NextWorkFits(blocks: seq<Block>, minDifficulty: bool, window: nat, s: Spans, limit: nat, n: nat)
    requires s.Valid() && 0 < window && s.most <= n * s.window && limit * window < Pow(B, WIDTH) && limit * n < Pow(B, WIDTH)
    requires forall i :: 0 <= i < |blocks| ==> Target(blocks[i].nBits) <= limit
    ensures |blocks| > window ==> SumTargets(blocks, window) < Pow(B, WIDTH)
    ensures Required(blocks, minDifficulty, window, s, limit) == Plain(blocks, minDifficulty, window, s, limit)
    ensures Target(Required(blocks, minDifficulty, window, s, limit)) <= limit
  {
    hide Pow, Target, Compacted, NextTarget, Damped, SumTargets, Average;
    RequiredBelow(blocks, minDifficulty, window, s, limit);
    if |blocks| > window {
      AverageFits(blocks, window, limit);
      var actual := blocks[0].medianTimePast - blocks[window].medianTimePast;
      RetargetFits(Average(blocks, window), actual, s, limit, n);
    }
  }

  lemma RequiredBelow(blocks: seq<Block>, minDifficulty: bool, window: nat, s: Spans, limit: nat)
    requires s.Valid() && window > 0
    ensures Target(Required(blocks, minDifficulty, window, s, limit)) <= limit
  {
    hide Pow, NextTarget, Average;
    if minDifficulty || |blocks| <= window {
      RoundsDown(limit);
      assert Target(Compacted(limit)) == Rounded(limit);
    } else {
      NextTargetBelow(Average(blocks, window), blocks[0].medianTimePast - blocks[window].medianTimePast, s, limit);
    }
  }

  /** Every block has the target that is required after the blocks before it; spans and the special rule may vary by height. */
  ghost predicate Follows(blocks: seq<Block>, minDifficulty: nat -> bool, window: nat, s: nat -> Spans, limit: nat)
    requires window > 0 && forall i :: s(i).Valid()
  {
    forall i :: 0 <= i < |blocks| ==>
      blocks[i].nBits == Required(blocks[i + 1..], minDifficulty(|blocks| - i - 1), window, s(|blocks| - i - 1), limit)
  }

  /** In a chain that follows the rule every target is within the limit, and none of the computations wrapped. */
  lemma {:induction false} ChainFits(blocks: seq<Block>, minDifficulty: nat -> bool, window: nat, s: nat -> Spans, limit: nat, n: nat)
    requires window > 0 && (forall i :: s(i).Valid() && s(i).most <= n * s(i).window) && Follows(blocks, minDifficulty, window, s, limit)
    requires limit * window < Pow(B, WIDTH) && limit * n < Pow(B, WIDTH)
    ensures forall i :: 0 <= i < |blocks| ==> Target(blocks[i].nBits) <= limit
    ensures forall i :: 0 <= i < |blocks| ==>
      blocks[i].nBits == Plain(blocks[i + 1..], minDifficulty(|blocks| - i - 1), window, s(|blocks| - i - 1), limit)
  {
    hide Pow, Target, Required, Plain;
    if blocks != [] {
      var rest, k := blocks[1..], |blocks| - 1;
      forall i | 0 <= i < |rest|
        ensures rest[i].nBits == Required(rest[i + 1..], minDifficulty(|rest| - i - 1), window, s(|rest| - i - 1), limit)
      {
        assert blocks[i + 1].nBits == rest[i].nBits && blocks[i + 2..] == rest[i + 1..];
      }
      ChainFits(rest, minDifficulty, window, s, limit, n);
      NextWorkFits(rest, minDifficulty(k), window, s(k), limit, n);
      forall i | 0 <= i < |blocks|
        ensures Target(blocks[i].nBits) <= limit
        ensures blocks[i].nBits == Plain(blocks[i + 1..], minDifficulty(|blocks| - i - 1), window, s(|blocks| - i - 1), limit)
      {
        if i > 0 {
          assert blocks[i] == rest[i - 1] && blocks[i + 1..] == rest[i - 1 + 1..];
        }
      }
    }
  }

  //////////////////////////////////////////////////////////////////////////////
  // When the next target is legal
  //////////////////////////////////////////////////////////////////////////////

  /** The compact form of a number is a legal target unless the number is zero. */
  lemma CompactLegal(v: nat)
    requires v < Pow(B, WIDTH)
    ensures ValidTarget(Compacted(v)) <==> v > 0
    ensures v == 0 ==> Target(Compacted(v)) == 0
  {
    hide Pow, Expand, Word, SizeOf, SignBit, Compacted;
    assert Target(Compacted(v)) == Rounded(v);
    if v == 0 {
      RoundedZero();
    } else {
      CompactParts(v);
      RoundsDown(v);
      RoundedLength(v);
    }
  }

  /** The average is divided by the span before it is multiplied: a shorter average leaves nothing. */
  lemma NextTargetPositive(avg: nat, actual: int, s: Spans, limit: nat, n: nat)
    requires s.Valid() && avg <= limit && s.most <= n * s.window && limit * n < Pow(B, WIDTH)
    ensures NextTarget(avg, actual, s, limit) > 0 <==> avg >= s.window
  {
    hide Pow, Damped, NextTarget;
    RetargetFits(avg, actual, s, limit, n);
    DampedRange(actual, s);
    DivBelow(avg, 1, s.window);
    QuotientBelow(avg, s.window);
    var q, d: nat := avg / s.window, Damped(actual, s);
    MulMono(1, d, q, q);
  }

  /** The rule asks for the limit: always on chains with minimum difficulty, and until the window is full. */
  predicate AtLimit(blocks: seq<Block>, minDifficulty: bool, window: nat) { minDifficulty || |blocks| <= window }

  /** The next target is legal exactly if it is the limit, or the average is at least the span in seconds. */
  lemma NextWorkLegal(blocks: seq<Block>, minDifficulty: bool, window: nat, s: Spans, limit: nat, n: nat)
    requires s.Valid() && 0 < window && s.most <= n * s.window && limit * window < Pow(B, WIDTH) && limit * n < Pow(B, WIDTH)
    requires forall i :: 0 <= i < |blocks| ==> Target(blocks[i].nBits) <= limit
    ensures ValidTarget(Required(blocks, minDifficulty, window, s, limit)) <==>
      limit > 0 && (AtLimit(blocks, minDifficulty, window) || Average(blocks, window) >= s.window)
    ensures !ValidTarget(Required(blocks, minDifficulty, window, s, limit)) ==> Target(Required(blocks, minDifficulty, window, s, limit)) == 0
  {
    hide Pow, Target, ValidTarget, Compacted, NextTarget, Average;
    MulMono(limit, limit, 1, window);
    if AtLimit(blocks, minDifficulty, window) {
      CompactLegal(limit);
    } else {
      AverageFits(blocks, window, limit);
      var avg, actual := Average(blocks, window), blocks[0].medianTimePast - blocks[window].medianTimePast;
      NextTargetPositive(avg, actual, s, limit, n);
      NextTargetMin(avg, actual, s, limit);
      CompactLegal(NextTarget(avg, actual, s, limit));
    }
  }

  /** In a chain that follows the rule, each target is legal exactly if the average before it did not fall below the span. */
  lemma ChainLegal(blocks: seq<Block>, minDifficulty: nat -> bool, window: nat, s: nat -> Spans, limit: nat, n: nat, i: nat)
    requires window > 0 && (forall h :: s(h).Valid() && s(h).most <= n * s(h).window) && Follows(blocks, minDifficulty, window, s, limit)
    requires limit * window < Pow(B, WIDTH) && limit * n < Pow(B, WIDTH) && i < |blocks|
    ensures var before, h := blocks[i + 1..], |blocks| - i - 1;
      ValidTarget(blocks[i].nBits) <==> limit > 0 && (AtLimit(before, minDifficulty(h), window) || Average(before, window) >= s(h).window)
  {
    hide Pow, Target, ValidTarget, Required, Average;
    ChainFits(blocks, minDifficulty, window, s, limit, n);
    var before, h := blocks[i + 1..], |blocks| - i - 1;
    NextWorkLegal(before, minDifficulty(h), window, s(h), limit, n);
  }

  /** After two blocks with the hardest target, one, the next target is zero, whatever the limit and the times. */
  lemma HardestTarget(t: int, u: int, s: Spans, limit: nat, n: nat)
    requires s.Valid() && s.window > 1 && s.most <= n * s.window && 0 < limit < Pow(B, WIDTH) && limit * n < Pow(B, WIDTH)
    ensures var blocks := [Block(0x0101_0000, t), Block(0x0101_0000, u)];
      && ValidTarget(0x0101_0000) && Target(0x0101_0000) == 1
      && !ValidTarget(Required(blocks, false, 1, s, limit)) && Target(Required(blocks, false, 1, s, limit)) == 0
  {
    hide Pow, Target, Required, Average, SignBit;
    var blocks := [Block(0x0101_0000, t), Block(0x0101_0000, u)];
    HardestIs();
    SingleAverage(blocks);
    NextWorkLegal(blocks, false, 1, s, limit, n);
  }

  lemma SingleAverage(blocks: seq<Block>)
    requires blocks != [] && Target(blocks[0].nBits) == 1
    ensures Average(blocks, 1) == 1
  {
    hide Pow, Target;
    HardestIs();
    SmallMod(1, Pow(B, WIDTH));
    assert SumTargets(blocks, 0) == 0;
  }

  lemma HardestIs()
    ensures Target(0x0101_0000) == 1 && !SignBit(0x0101_0000) && 1 < Pow(B, WIDTH)
  {
    hide Pow, Bytes;
    SmallBytes();
    BytesMono(1, 32);
  }

  /** The limit of the main network: the 13 highest bits clear, all others set. */
  function MainPowLimit(): nat { Exp2(243) - 1 }

  lemma MainPowLimitIs()
    ensures MainPowLimit() == 0x7ffff_ffff_ffff_ffff_ffff_ffff_ffff_ffff_ffff_ffff_ffff_ffff_ffff_ffff_ffff
  {
    hide Exp2;
    Exp2One();
    Exp2Add(1, 1);
    Exp2Add(1, 2);
    Exp2Add(3, 3);
    Exp2Add(6, 6);
    Exp2Add(3, 12);
    Exp2Add(15, 15);
    Exp2Add(30, 30);
    Exp2Add(60, 60);
    Exp2Add(120, 120);
    Exp2Add(3, 240);
    assert Exp2(120) == 0x1_0000_0000_0000_0000_0000_0000_0000_00;
  }

  /** On the main network neither the sum over the window nor a retarget of up to 17 windows' time wraps. */
  lemma MainNetworkFits()
    ensures MainPowLimit() * 17 < Pow(B, WIDTH)
  {
    hide Exp2, Pow;
    Exp2Add(243, 8);
    SmallBytes();
    BytesIs(1);
    BytesIs(32);
    Exp2Mono(251, 256);
  }
}
