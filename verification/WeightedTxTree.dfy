module WeightedTxTree {
  // The mempool's collection of transactions for random eviction by weight: a complete binary
  // tree laid out in a vector, each node knowing the weight of everything below it.

  import opened Wrappers

  type TxId = nat

  datatype TxWeight = TxWeight(cost: int, evictionWeight: int) {
    function Add(o: TxWeight): TxWeight { TxWeight(cost + o.cost, evictionWeight + o.evictionWeight) }
    function Negate(): TxWeight { TxWeight(-cost, -evictionWeight) }
  }

  const ZERO_WEIGHT := TxWeight(0, 0)

  datatype WeightedTxInfo = WeightedTxInfo(txId: TxId, txWeight: TxWeight)

  //////////////////////////////////////////////////////////////////////////////
  // Sums over subtrees
  //////////////////////////////////////////////////////////////////////////////

  /** The weight of node i and everything below it. */
  function SubSum(w: seq<int>, i: nat): int
    decreases |w| - i
  {
    if i >= |w| then 0 else w[i] + SubSum(w, 2 * i + 1) + SubSum(w, 2 * i + 2)
  }

  /** j is i or below it: going up from j leads to i. */
  predicate Above(i: nat, j: nat)
    decreases j
  {
    i == j || (j > 0 && Above(i, (j - 1) / 2))
  }

  lemma {:induction false} AboveAtMost(i: nat, j: nat)
    requires Above(i, j)
    ensures i <= j
    decreases j
  {
    if i != j {
      AboveAtMost(i, (j - 1) / 2);
    }
  }

  /** Below a node means below exactly one of its children. */
  lemma {:induction false} AboveChild(i: nat, j: nat)
    requires i != j
    ensures Above(i, j) <==> Above(2 * i + 1, j) || Above(2 * i + 2, j)
    ensures !(Above(2 * i + 1, j) && Above(2 * i + 2, j))
    decreases j
  {
    if j > 0 {
      var p := (j - 1) / 2;
      if p != i {
        AboveChild(i, p);
      } else {
        if Above(2 * i + 1, p) { AboveAtMost(2 * i + 1, p); }
        if Above(2 * i + 2, p) { AboveAtMost(2 * i + 2, p); }
      }
    }
  }

  lemma {:induction false} AboveSelf(i: nat)
    ensures !Above(2 * i + 1, i) && !Above(2 * i + 2, i)
  {
    if Above(2 * i + 1, i) { AboveAtMost(2 * i + 1, i); }
    if Above(2 * i + 2, i) { AboveAtMost(2 * i + 2, i); }
  }

  lemma {:induction false} RootAbove(j: nat)
    ensures Above(0, j)
    decreases j
  {
    if j > 0 {
      RootAbove((j - 1) / 2);
    }
  }

  /** Changing one weight changes the sums of the nodes above it, by the difference. */
  lemma {:induction false} SubSumUpdate(w: seq<int>, j: nat, x: int, i: nat)
    requires j < |w|
    ensures SubSum(w[j := x], i) == SubSum(w, i) + if Above(i, j) then x - w[j] else 0
    decreases |w| - i
  {
    if i >= |w| {
      if Above(i, j) { AboveAtMost(i, j); }
    } else {
      SubSumUpdate(w, j, x, 2 * i + 1);
      SubSumUpdate(w, j, x, 2 * i + 2);
      if i == j { AboveSelf(i); } else { AboveChild(i, j); }
    }
  }

  /** A node of no weight at the end makes no difference. */
  lemma {:induction false} SubSumPad(w: seq<int>, i: nat)
    ensures SubSum(w + [0], i) == SubSum(w, i)
    decreases |w| - i
  {
    if i < |w| {
      SubSumPad(w, 2 * i + 1);
      SubSumPad(w, 2 * i + 2);
    }
  }

  lemma SubSumAppend(w: seq<int>, x: int, i: nat)
    ensures SubSum(w + [x], i) == SubSum(w, i) + if Above(i, |w|) then x else 0
  {
    hide SubSum, Above;
    SubSumPad(w, i);
    SubSumUpdate(w + [0], |w|, x, i);
    assert (w + [0])[|w| := x] == w + [x];
  }

  lemma SubSumDrop(w: seq<int>, i: nat)
    requires w != []
    ensures SubSum(w[..|w| - 1], i) == SubSum(w, i) - if Above(i, |w| - 1) then w[|w| - 1] else 0
  {
    hide SubSum, Above;
    SubSumAppend(w[..|w| - 1], w[|w| - 1], i);
    assert w[..|w| - 1] + [w[|w| - 1]] == w;
  }

  /** The sum of all weights, one after the other. */
  function Sum(w: seq<int>): int {
    if w == [] then 0 else Sum(w[..|w| - 1]) + w[|w| - 1]
  }

  /** The whole tree weighs what its transactions weigh. */
  lemma {:induction false} RootSum(w: seq<int>)
    ensures SubSum(w, 0) == Sum(w)
  {
    if w != [] {
      RootSum(w[..|w| - 1]);
      SubSumDrop(w, 0);
      RootAbove(|w| - 1);
    }
  }

  //////////////////////////////////////////////////////////////////////////////
  // Finding by weight
  //////////////////////////////////////////////////////////////////////////////

  predicate NonNegative(w: seq<int>) { forall i :: 0 <= i < |w| ==> 0 <= w[i] }

  lemma {:induction false} SubSumNonNegative(w: seq<int>, i: nat)
    requires NonNegative(w)
    ensures 0 <= SubSum(w, i)
    decreases |w| - i
  {
    if i < |w| {
      SubSumNonNegative(w, 2 * i + 1);
      SubSumNonNegative(w, 2 * i + 2);
    }
  }

  /** Left subtree first, then the node, then the right subtree. */
  function Find(w: seq<int>, i: nat, x: int): (r: nat)
    requires NonNegative(w) && 0 <= x < SubSum(w, i)
    ensures i <= r < |w| && Above(i, r)
    decreases |w| - i
  {
    SubSumNonNegative(w, 2 * i + 1);
    SubSumNonNegative(w, 2 * i + 2);
    var left := SubSum(w, 2 * i + 1);
    if x < left then
      var r := Find(w, 2 * i + 1, x);
      AboveChild(i, r);
      r
    else if x < left + w[i] then i
    else
      var r := Find(w, 2 * i + 2, x - left - w[i]);
      AboveChild(i, r);
      r
  }

  lemma FindStep(w: seq<int>, i: nat, x: int)
    requires NonNegative(w) && 0 <= x < SubSum(w, i)
    ensures i < |w| && SubSum(w, i) == SubSum(w, 2 * i + 1) + w[i] + SubSum(w, 2 * i + 2)
    ensures 0 <= SubSum(w, 2 * i + 1) && 0 <= w[i] && 0 <= SubSum(w, 2 * i + 2)
    ensures var left := SubSum(w, 2 * i + 1);
      Find(w, i, x) == if x < left then Find(w, 2 * i + 1, x)
                       else if x < left + w[i] then i
                       else Find(w, 2 * i + 2, x - left - w[i])
  {
    SubSumNonNegative(w, 2 * i + 1);
    SubSumNonNegative(w, 2 * i + 2);
  }

  /** Where the draws that find node j begin, among those for the subtree at i. */
  function Start(w: seq<int>, i: nat, j: nat): int
    requires Above(i, j) && j < |w|
    decreases |w| - i
  {
    if i == j then SubSum(w, 2 * i + 1)
    else
      AboveAtMost(i, j);
      AboveChild(i, j);
      if Above(2 * i + 1, j) then Start(w, 2 * i + 1, j)
      else SubSum(w, 2 * i + 1) + w[i] + Start(w, 2 * i + 2, j)
  }

  lemma {:induction false} StartInside(w: seq<int>, i: nat, j: nat)
    requires NonNegative(w) && Above(i, j) && j < |w|
    ensures 0 <= Start(w, i, j) && Start(w, i, j) + w[j] <= SubSum(w, i)
    decreases |w| - i
  {
    AboveAtMost(i, j);
    SubSumNonNegative(w, 2 * i + 1);
    SubSumNonNegative(w, 2 * i + 2);
    if i != j {
      AboveChild(i, j);
      StartInside(w, if Above(2 * i + 1, j) then 2 * i + 1 else 2 * i + 2, j);
    }
  }

  /** A draw finds node j exactly if it falls into an interval of the length of j's weight. */
  lemma {:induction false} FindExact(w: seq<int>, i: nat, j: nat, x: int)
    requires NonNegative(w) && Above(i, j) && j < |w| && 0 <= x < SubSum(w, i)
    ensures Find(w, i, x) == j <==> Start(w, i, j) <= x < Start(w, i, j) + w[j]
    decreases |w| - i
  {
    AboveAtMost(i, j);
    SubSumNonNegative(w, 2 * i + 1);
    SubSumNonNegative(w, 2 * i + 2);
    AboveSelf(i);
    var left, own := SubSum(w, 2 * i + 1), w[i];
    if i == j {
      FindsElsewhere(w, i, x);
    } else {
      AboveChild(i, j);
      if Above(2 * i + 1, j) {
        StartInside(w, 2 * i + 1, j);
        if x < left { FindExact(w, 2 * i + 1, j, x); } else { FindsElsewhere(w, i, x); }
      } else {
        StartInside(w, 2 * i + 2, j);
        if x >= left + own { FindExact(w, 2 * i + 2, j, x - left - own); } else { FindsElsewhere(w, i, x); }
      }
    }
  }

  /** Which side of a node a draw ends up on. */
  lemma FindsElsewhere(w: seq<int>, i: nat, x: int)
    requires NonNegative(w) && 0 <= x < SubSum(w, i)
    ensures var r, left := Find(w, i, x), SubSum(w, 2 * i + 1);
      if x < left then Above(2 * i + 1, r) && r != i && !Above(2 * i + 2, r)
      else if x < left + w[i] then r == i
      else Above(2 * i + 2, r) && r != i && !Above(2 * i + 1, r)
  {
    AboveSelf(i);
    var r := Find(w, i, x);
    if r != i { AboveChild(i, r); }
  }

  function Interval(lo: int, hi: int): (r: set<int>)
    ensures forall x :: x in r <==> lo <= x < hi
  {
    set x | lo <= x < hi && Between(lo, x, hi)
  }

  predicate Between(lo: int, x: int, hi: int) { lo <= x < hi }

  lemma {:induction false} IntervalSize(lo: int, hi: int)
    requires lo <= hi
    ensures |Interval(lo, hi)| == hi - lo
    decreases hi - lo
  {
    if lo < hi {
      IntervalSize(lo, hi - 1);
      assert Interval(lo, hi) == Interval(lo, hi - 1) + {hi - 1};
    } else {
      assert Interval(lo, hi) == {};
    }
  }

  ghost function Draws(w: seq<int>, j: nat): set<int>
    requires NonNegative(w)
  {
    set x | 0 <= x < SubSum(w, 0) && Find(w, 0, x) == j
  }

  /** Of all equally likely draws, each transaction is found by as many as its eviction weight. */
  lemma FairDraw(w: seq<int>, j: nat)
    requires NonNegative(w) && j < |w|
    ensures |Draws(w, j)| == w[j]
  {
    RootAbove(j);
    StartInside(w, 0, j);
    var lo, hi := Start(w, 0, j), Start(w, 0, j) + w[j];
    forall x | 0 <= x < SubSum(w, 0) ensures Find(w, 0, x) == j <==> lo <= x < hi {
      FindExact(w, 0, j, x);
    }
    assert Draws(w, j) == Interval(lo, hi);
    IntervalSize(lo, hi);
  }

  //////////////////////////////////////////////////////////////////////////////
  // What the vector of child weights should hold
  //////////////////////////////////////////////////////////////////////////////

  /** The weight of everything strictly below node i. */
  function Kids(w: seq<int>, i: nat): int { SubSum(w, 2 * i + 1) + SubSum(w, 2 * i + 2) }

  predicate Under(i: nat, j: nat) { i != j && Above(i, j) }

  lemma KidsUpdate(w: seq<int>, j: nat, x: int, i: nat)
    requires j < |w|
    ensures Kids(w[j := x], i) == Kids(w, i) + if Under(i, j) then x - w[j] else 0
  {
    hide SubSum, Above;
    SubSumUpdate(w, j, x, 2 * i + 1);
    SubSumUpdate(w, j, x, 2 * i + 2);
    if i == j { AboveSelf(i); } else { AboveChild(i, j); }
  }

  lemma KidsAppend(w: seq<int>, x: int, i: nat)
    ensures Kids(w + [x], i) == Kids(w, i) + if Under(i, |w|) then x else 0
  {
    hide SubSum, Above;
    SubSumAppend(w, x, 2 * i + 1);
    SubSumAppend(w, x, 2 * i + 2);
    if i == |w| { AboveSelf(i); } else { AboveChild(i, |w|); }
  }

  lemma KidsDrop(w: seq<int>, i: nat)
    requires w != []
    ensures Kids(w[..|w| - 1], i) == Kids(w, i) - if Under(i, |w| - 1) then w[|w| - 1] else 0
  {
    hide SubSum, Above;
    SubSumDrop(w, 2 * i + 1);
    SubSumDrop(w, 2 * i + 2);
    if i == |w| - 1 { AboveSelf(i); } else { AboveChild(i, |w| - 1); }
  }

  /** The weights after removing node r: the last node moves into its place. */
  function Removed<T>(w: seq<T>, r: nat): seq<T>
    requires r < |w|
  {
    if r == |w| - 1 then w[..|w| - 1] else w[..|w| - 1][r := w[|w| - 1]]
  }

  lemma KidsRemoved(w: seq<int>, r: nat, i: nat)
    requires r < |w|
    ensures Kids(Removed(w, r), i) == Kids(w, i) - (if Under(i, |w| - 1) then w[|w| - 1] else 0)
                                     + if r < |w| - 1 && Under(i, r) then w[|w| - 1] - w[r] else 0
  {
    hide Kids, Under;
    KidsDrop(w, i);
    if r < |w| - 1 {
      KidsUpdate(w[..|w| - 1], r, w[|w| - 1], i);
    }
  }

  function Costs(t: seq<WeightedTxInfo>): (r: seq<int>)
    ensures |r| == |t| && forall i :: 0 <= i < |t| ==> r[i] == t[i].txWeight.cost
  {
    seq(|t|, i requires 0 <= i < |t| => t[i].txWeight.cost)
  }

  function Evictions(t: seq<WeightedTxInfo>): (r: seq<int>)
    ensures |r| == |t| && forall i :: 0 <= i < |t| ==> r[i] == t[i].txWeight.evictionWeight
  {
    seq(|t|, i requires 0 <= i < |t| => t[i].txWeight.evictionWeight)
  }

  /** child[i] weighs everything strictly below node i. */
  ghost predicate ChildSums(t: seq<WeightedTxInfo>, child: seq<TxWeight>) {
    |child| == |t| && forall i :: 0 <= i < |t| ==> child[i] == TxWeight(Kids(Costs(t), i), Kids(Evictions(t), i))
  }

  /** The index finds exactly the transactions in the tree. */
  ghost predicate Indexed(t: seq<WeightedTxInfo>, m: map<TxId, nat>) {
    && (forall i :: 0 <= i < |t| ==> t[i].txId in m && m[t[i].txId] == i)
    && (forall id :: id in m ==> m[id] < |t| && t[m[id]].txId == id)
  }

  /** Costs are not negative, and no transaction has less eviction weight than cost. */
  predicate Weighty(t: seq<WeightedTxInfo>) {
    forall i :: 0 <= i < |t| ==> 0 <= t[i].txWeight.cost <= t[i].txWeight.evictionWeight
  }

  /** child after delta has been added to every node strictly above from. */
  ghost predicate Propagated(child: seq<TxWeight>, after: seq<TxWeight>, from: nat, delta: TxWeight) {
    |after| == |child| && forall i :: 0 <= i < |child| ==> after[i] == if Under(i, from) then child[i].Add(delta) else child[i]
  }

  lemma AddedSums(t: seq<WeightedTxInfo>, child: seq<TxWeight>, after: seq<TxWeight>, x: WeightedTxInfo)
    requires ChildSums(t, child) && Propagated(child + [ZERO_WEIGHT], after, |t|, x.txWeight)
    ensures ChildSums(t + [x], after)
  {
    var t' := t + [x];
    assert Costs(t') == Costs(t) + [x.txWeight.cost] && Evictions(t') == Evictions(t) + [x.txWeight.evictionWeight];
    forall i | 0 <= i < |t'| ensures after[i] == TxWeight(Kids(Costs(t'), i), Kids(Evictions(t'), i)) {
      KidsAppend(Costs(t), x.txWeight.cost, i);
      KidsAppend(Evictions(t), x.txWeight.evictionWeight, i);
    }
  }

  lemma RemovedSums(t: seq<WeightedTxInfo>, r: nat, child: seq<TxWeight>, mid: seq<TxWeight>, after: seq<TxWeight>)
    requires r < |t| && ChildSums(t, child)
    requires var last := t[|t| - 1].txWeight;
      && Propagated(child, mid, |t| - 1, last.Negate())
      && if r < |t| - 1 then Propagated(mid, after, r, last.Add(t[r].txWeight.Negate())) else after == mid
    ensures ChildSums(Removed(t, r), after[..|t| - 1])
  {
    var t' := Removed(t, r);
    assert Costs(t') == Removed(Costs(t), r) && Evictions(t') == Removed(Evictions(t), r);
    forall i | 0 <= i < |t'| ensures after[i] == TxWeight(Kids(Costs(t'), i), Kids(Evictions(t'), i)) {
      hide Kids, Under;
      KidsRemoved(Costs(t), r, i);
      KidsRemoved(Evictions(t), r, i);
    }
  }

  lemma RemovedIndex(t: seq<WeightedTxInfo>, m: map<TxId, nat>, r: nat)
    requires Indexed(t, m) && r < |t|
    ensures Indexed(Removed(t, r), (if r < |t| - 1 then m[t[|t| - 1].txId := r] else m) - {t[r].txId})
  {
    var id, t' := t[r].txId, Removed(t, r);
    var m' := (if r < |t| - 1 then m[t[|t| - 1].txId := r] else m) - {id};
    forall i | 0 <= i < |t'| ensures t'[i].txId in m' && m'[t'[i].txId] == i {
      assert i != r ==> m[t[i].txId] == i;
      assert m[t[|t| - 1].txId] == |t| - 1;
    }
    forall k | k in m' ensures m'[k] < |t'| && t'[m'[k]].txId == k {
      assert m[t[|t| - 1].txId] == |t| - 1;
    }
  }

  //////////////////////////////////////////////////////////////////////////////
  // The class
  //////////////////////////////////////////////////////////////////////////////

  const MIN_TX_COST := 4000
  const LOW_FEE_PENALTY := 16000
  const DEFAULT_FEE := 10000

  /** The weights of a transaction using memUsage bytes and paying fee. */
  function WeightOf(memUsage: nat, fee: int): (w: TxWeight)
    ensures w.cost >= 4000 && w.cost >= memUsage && (w.cost == 4000 || w.cost == memUsage)
    ensures w.evictionWeight - w.cost == if fee < 10000 then 16000 else 0
  {
    var cost := if memUsage < MIN_TX_COST then MIN_TX_COST else memUsage;
    TxWeight(cost, if fee < DEFAULT_FEE then cost + LOW_FEE_PENALTY else cost)
  }

  const TWO31 := 0x8000_0000
  const TWO32 := 0x1_0000_0000

  /** Conversion of a 64-bit value to a 32-bit int: values out of range wrap around. */
  function ToInt32(x: int): int {
    if -TWO31 <= x < TWO31 then x else (x + TWO31) % TWO32 - TWO31
  }

  /** A node's own weight and the stored sum make the weight of its subtree. */
  function GetWeightAt(t: seq<WeightedTxInfo>, child: seq<TxWeight>, index: nat): (w: TxWeight)
    requires ChildSums(t, child)
    ensures w == TxWeight(SubSum(Costs(t), index), SubSum(Evictions(t), index))
  {
    if index < |t| then t[index].txWeight.Add(child[index]) else ZERO_WEIGHT
  }

  /**
   Descends to the transaction a draw belongs to. Beyond the end of the vector all weights are zero: the
   descent goes on without end, and nothing is found.
   */
  function FindByEvictionWeight(t: seq<WeightedTxInfo>, child: seq<TxWeight>, fromIndex: nat, weightToFind: int): (r: Option<nat>)
    requires ChildSums(t, child)
    ensures r.Some? ==> r.value < |t|
    decreases |t| - fromIndex
  {
    if fromIndex >= |t| then None
    else
      var leftWeight := ToInt32(GetWeightAt(t, child, fromIndex * 2 + 1).evictionWeight);
      var rightWeight := ToInt32(GetWeightAt(t, child, fromIndex).evictionWeight - GetWeightAt(t, child, fromIndex * 2 + 2).evictionWeight);
      if weightToFind < leftWeight then FindByEvictionWeight(t, child, fromIndex * 2 + 1, weightToFind)
      else if weightToFind < rightWeight then Some(fromIndex)
      else FindByEvictionWeight(t, child, fromIndex * 2 + 2, weightToFind - rightWeight)
  }

  /** One step of the descent, by the exact sums. */
  lemma DescendStep(t: seq<WeightedTxInfo>, child: seq<TxWeight>, i: nat, x: int)
    requires ChildSums(t, child) && i < |t|
    ensures var w := Evictions(t);
      var left, right := ToInt32(SubSum(w, 2 * i + 1)), ToInt32(SubSum(w, i) - SubSum(w, 2 * i + 2));
      FindByEvictionWeight(t, child, i, x) ==
        if x < left then FindByEvictionWeight(t, child, 2 * i + 1, x)
        else if x < right then Some(i)
        else FindByEvictionWeight(t, child, 2 * i + 2, x - right)
  {
    hide ChildSums, Above, SubSum, ToInt32;
  }

  /** What is found is below where the descent starts. */
  lemma {:induction false} FoundBelow(t: seq<WeightedTxInfo>, child: seq<TxWeight>, i: nat, x: int)
    requires ChildSums(t, child)
    ensures var r := FindByEvictionWeight(t, child, i, x); r.Some? ==> Above(i, r.value)
    decreases |t| - i
  {
    hide ChildSums, Above, SubSum, ToInt32, FindByEvictionWeight;
    if i >= |t| {
      OutOfTree(t, child, i, x);
    } else {
      var w := Evictions(t);
      DescendStep(t, child, i, x);
      FoundBelow(t, child, 2 * i + 1, x);
      FoundBelow(t, child, 2 * i + 2, x - ToInt32(SubSum(w, i) - SubSum(w, 2 * i + 2)));
      var r := FindByEvictionWeight(t, child, i, x);
      AboveSame(i);
      if r.Some? && r.value != i {
        AboveChild(i, r.value);
      }
    }
  }

  lemma AboveSame(i: nat)
    ensures Above(i, i)
  {
  }

  /** Descending by the stored sums finds what the sums themselves say, as long as these stay below 2^31. */
  lemma {:induction false} FindsByDraw(t: seq<WeightedTxInfo>, child: seq<TxWeight>, fromIndex: nat, weightToFind: int)
    requires ChildSums(t, child) && NonNegative(Evictions(t))
    requires 0 <= weightToFind < SubSum(Evictions(t), fromIndex) < TWO31
    ensures FindByEvictionWeight(t, child, fromIndex, weightToFind) == Some(Find(Evictions(t), fromIndex, weightToFind))
    decreases |t| - fromIndex
  {
    hide ChildSums, Above, SubSum, Find, FindByEvictionWeight;
    var w := Evictions(t);
    FindStep(w, fromIndex, weightToFind);
    DescendStep(t, child, fromIndex, weightToFind);
    var left := SubSum(w, 2 * fromIndex + 1);
    if weightToFind < left {
      FindsByDraw(t, child, fromIndex * 2 + 1, weightToFind);
    } else if weightToFind >= left + w[fromIndex] {
      FindsByDraw(t, child, fromIndex * 2 + 2, weightToFind - left - w[fromIndex]);
    }
  }

  //////////////////////////////////////////////////////////////////////////////
  // When the conversions do no harm
  //////////////////////////////////////////////////////////////////////////////

  /** Every draw, converted to an int, finds the transaction it belongs to. */
  ghost predicate DrawsFind(t: seq<WeightedTxInfo>, child: seq<TxWeight>)
    requires ChildSums(t, child) && NonNegative(Evictions(t))
  {
    forall x :: 0 <= x < SubSum(Evictions(t), 0) ==>
      FindByEvictionWeight(t, child, 0, ToInt32(x)) == Some(Find(Evictions(t), 0, x))
  }

  predicate Positive(w: seq<int>) { forall i :: 0 <= i < |w| ==> 0 < w[i] }

  /** The total is below 2^31, or equal to it and on both sides of the root. */
  predicate FitsInt(t: seq<WeightedTxInfo>) {
    Sum(Evictions(t)) < TWO31 || (Sum(Evictions(t)) == TWO31 && |t| >= 3 && Positive(Evictions(t)))
  }

  lemma SubSumPositive(w: seq<int>, i: nat)
    requires Positive(w)
    ensures NonNegative(w) && (i < |w| ==> 0 < SubSum(w, i)) && (i >= |w| ==> SubSum(w, i) == 0)
  {
    SubSumNonNegative(w, 2 * i + 1);
    SubSumNonNegative(w, 2 * i + 2);
  }

  /** A total of exactly 2^31: both weights at the root still fit. */
  lemma FindsAtEdge(t: seq<WeightedTxInfo>, child: seq<TxWeight>, x: int)
    requires ChildSums(t, child) && Positive(Evictions(t)) && |t| >= 3 && NonNegative(Evictions(t))
    requires 0 <= x < SubSum(Evictions(t), 0) == TWO31
    ensures FindByEvictionWeight(t, child, 0, x) == Some(Find(Evictions(t), 0, x))
  {
    hide ChildSums, Above, SubSum, Find, FindByEvictionWeight;
    var w := Evictions(t);
    FindStep(w, 0, x);
    DescendStep(t, child, 0, x);
    SubSumPositive(w, 1);
    SubSumPositive(w, 2);
    var left := SubSum(w, 1);
    if x < left {
      FindsByDraw(t, child, 1, x);
    } else if x >= left + w[0] {
      FindsByDraw(t, child, 2, x - left - w[0]);
    }
  }

  /** All the way down on the left, the converted weights of the left subtrees are positive. */
  ghost predicate LeftsPositive(t: seq<WeightedTxInfo>, i: nat)
    decreases |t| - i
  {
    i >= |t| || ((2 * i + 1 < |t| ==> ToInt32(SubSum(Evictions(t), 2 * i + 1)) > 0) && LeftsPositive(t, 2 * i + 1))
  }

  /** The draw of zero belongs to the first transaction on the left, and only positive weights lead there. */
  lemma {:induction false} ZeroDraw(t: seq<WeightedTxInfo>, child: seq<TxWeight>, i: nat)
    requires ChildSums(t, child) && Positive(Evictions(t)) && i < |t| && NonNegative(Evictions(t)) && SubSum(Evictions(t), i) > 0
    requires FindByEvictionWeight(t, child, i, 0) == Some(Find(Evictions(t), i, 0))
    ensures LeftsPositive(t, i)
    decreases |t| - i
  {
    hide ChildSums, Above, SubSum, Find, FindByEvictionWeight;
    var w := Evictions(t);
    if 2 * i + 1 < |t| {
      SubSumPositive(w, 2 * i + 1);
      FindStep(w, i, 0);
      DescendStep(t, child, i, 0);
      if ToInt32(SubSum(w, 2 * i + 1)) > 0 {
        ZeroDraw(t, child, 2 * i + 1);
      } else {
        FindsElsewhere(w, i, 0);
        FoundBelow(t, child, 2 * i + 2, -ToInt32(SubSum(w, i) - SubSum(w, 2 * i + 2)));
        assert false;
      }
    }
  }

  /** The least int is below all of them, and leads out of the tree. */
  lemma {:induction false} LeastDraw(t: seq<WeightedTxInfo>, child: seq<TxWeight>, i: nat)
    requires ChildSums(t, child) && LeftsPositive(t, i)
    ensures FindByEvictionWeight(t, child, i, -TWO31) == None
    decreases |t| - i
  {
    hide ChildSums, Above, FindByEvictionWeight;
    if i < |t| {
      DescendStep(t, child, i, -TWO31);
      LeastDraw(t, child, 2 * i + 1);
    } else {
      OutOfTree(t, child, i, -TWO31);
    }
  }

  lemma OutOfTree(t: seq<WeightedTxInfo>, child: seq<TxWeight>, i: nat, x: int)
    requires ChildSums(t, child) && i >= |t|
    ensures FindByEvictionWeight(t, child, i, x) == None
  {
  }

  /** A total of exactly 2^31 that is all on one side: some draw leads out of the tree. */
  lemma LostAtEdge(t: seq<WeightedTxInfo>, child: seq<TxWeight>)
    requires ChildSums(t, child) && Positive(Evictions(t)) && 1 <= |t| <= 2 && SubSum(Evictions(t), 0) == TWO31
    ensures 0 <= SubSum(Evictions(t), 1) < TWO31 && FindByEvictionWeight(t, child, 0, SubSum(Evictions(t), 1)) == None
  {
    hide ChildSums, Above, FindByEvictionWeight;
    var w := Evictions(t);
    SubSumPositive(w, 1);
    SubSumPositive(w, 2);
    DescendStep(t, child, 0, SubSum(w, 1));
    OutOfTree(t, child, 2, SubSum(w, 1) + TWO31);
  }

  /** The draws all find their transactions exactly if the total fits. */
  lemma DrawsFindExactly(t: seq<WeightedTxInfo>, child: seq<TxWeight>)
    requires ChildSums(t, child) && Positive(Evictions(t)) && NonNegative(Evictions(t)) && t != []
    ensures DrawsFind(t, child) <==> FitsInt(t)
  {
    hide ChildSums, Above, SubSum, Find, FindByEvictionWeight, Sum;
    var w := Evictions(t);
    RootSum(w);
    SubSumPositive(w, 0);
    if FitsInt(t) {
      forall x | 0 <= x < SubSum(w, 0) ensures FindByEvictionWeight(t, child, 0, ToInt32(x)) == Some(Find(w, 0, x)) {
        FindsIfFits(t, child, x);
      }
    } else {
      SomeDrawLost(t, child);
    }
  }

  /** Beyond that, the draw of zero, the draw of 2^31 or the draw of the weight on the left goes astray. */
  lemma SomeDrawLost(t: seq<WeightedTxInfo>, child: seq<TxWeight>)
    requires ChildSums(t, child) && Positive(Evictions(t)) && NonNegative(Evictions(t)) && t != [] && !FitsInt(t)
    ensures !DrawsFind(t, child)
  {
    hide ChildSums, Above, SubSum, Find, FindByEvictionWeight, Sum;
    var w := Evictions(t);
    RootSum(w);
    SubSumPositive(w, 0);
    if Sum(w) > TWO31 {
      assert ToInt32(0) == 0 && ToInt32(TWO31) == -TWO31;
      if FindByEvictionWeight(t, child, 0, ToInt32(0)) == Some(Find(w, 0, 0)) {
        ZeroDraw(t, child, 0);
        LeastDraw(t, child, 0);
        assert FindByEvictionWeight(t, child, 0, ToInt32(TWO31)) != Some(Find(w, 0, TWO31));
      }
    } else {
      LostAtEdge(t, child);
      var x := SubSum(w, 1);
      assert FindByEvictionWeight(t, child, 0, ToInt32(x)) != Some(Find(w, 0, x));
    }
  }

  class WeightedTxTree {
    const capacity: int
    var size: nat
    var txIdAndWeights: seq<WeightedTxInfo>
    var childWeights: seq<TxWeight>
    var txIdToIndexMap: map<TxId, nat>

    ghost predicate Valid()
      reads this
    {
      && capacity >= 0 && size == |txIdAndWeights|
      && ChildSums(txIdAndWeights, childWeights)
      && Indexed(txIdAndWeights, txIdToIndexMap)
    }

    constructor (capacity: int)
      requires capacity >= 0
      ensures Valid() && txIdAndWeights == [] && this.capacity == capacity
    {
      this.capacity, size, txIdAndWeights, childWeights, txIdToIndexMap := capacity, 0, [], [], map[];
    }

    function GetTotalWeight(): (w: TxWeight)
      requires Valid()
      reads this
      ensures w == TxWeight(Sum(Costs(txIdAndWeights)), Sum(Evictions(txIdAndWeights)))
    {
      RootSum(Costs(txIdAndWeights));
      RootSum(Evictions(txIdAndWeights));
      GetWeightAt(txIdAndWeights, childWeights, 0)
    }

    method BackPropagate(fromIndex: nat, weightDelta: TxWeight)
      requires fromIndex < |childWeights|
      modifies this`childWeights
      ensures Propagated(old(childWeights), childWeights, fromIndex, weightDelta)
    {
      var at: nat := fromIndex;
      while at > 0
        invariant at <= fromIndex < |childWeights| == |old(childWeights)| && Above(at, fromIndex)
        invariant forall i :: 0 <= i < |childWeights| ==>
          childWeights[i] == if Under(i, fromIndex) && !Under(i, at) then old(childWeights)[i].Add(weightDelta) else old(childWeights)[i]
      {
        ghost var was := at;
        at := (at - 1) / 2;
        childWeights := childWeights[at := childWeights[at].Add(weightDelta)];
        AboveTrans(at, was, fromIndex);
        forall i | 0 <= i < |childWeights| && Under(i, fromIndex) ensures Under(i, was) <==> i == at || Under(i, at) {
          if Above(i, at) { AboveAtMost(i, at); }
        }
      }
    }

    method Add(weightedTxInfo: WeightedTxInfo)
      requires Valid()
      modifies this
      ensures Valid()
      ensures txIdAndWeights == if weightedTxInfo.txId in old(txIdToIndexMap) then old(txIdAndWeights) else old(txIdAndWeights) + [weightedTxInfo]
    {
      if weightedTxInfo.txId in txIdToIndexMap {
        return;
      }
      txIdAndWeights := txIdAndWeights + [weightedTxInfo];
      childWeights := childWeights + [ZERO_WEIGHT];
      txIdToIndexMap := txIdToIndexMap[weightedTxInfo.txId := size];
      BackPropagate(size, weightedTxInfo.txWeight);
      size := size + 1;
      AddedSums(old(txIdAndWeights), old(childWeights), childWeights, weightedTxInfo);
    }

    /** Removes a transaction, the last one taking its place; nothing happens if it is not there. */
    method Remove(txId: TxId)
      requires Valid()
      modifies this
      ensures Valid()
      ensures txIdAndWeights == if txId in old(txIdToIndexMap) then Removed(old(txIdAndWeights), old(txIdToIndexMap[txId])) else old(txIdAndWeights)
      ensures txId !in txIdToIndexMap
    {
      if txId !in txIdToIndexMap {
        return;
      }
      var removeIndex := txIdToIndexMap[txId];
      RemovedIndex(txIdAndWeights, txIdToIndexMap, removeIndex);
      size := size - 1;
      var lastChildWeight := txIdAndWeights[size].txWeight;
      BackPropagate(size, lastChildWeight.Negate());
      ghost var mid := childWeights;
      if removeIndex < size {
        var weightDelta := lastChildWeight.Add(txIdAndWeights[removeIndex].txWeight.Negate());
        txIdAndWeights := txIdAndWeights[removeIndex := txIdAndWeights[size]];
        txIdToIndexMap := txIdToIndexMap[txIdAndWeights[removeIndex].txId := removeIndex];
        BackPropagate(removeIndex, weightDelta);
      }
      RemovedSums(old(txIdAndWeights), removeIndex, old(childWeights), mid, childWeights);
      txIdToIndexMap := txIdToIndexMap - {txId};
      txIdAndWeights := txIdAndWeights[..|txIdAndWeights| - 1];
      childWeights := childWeights[..|childWeights| - 1];
    }

    /** Drops one transaction drawn by eviction weight, if the cost limit is exceeded; lost if the search does not end. */
    method MaybeDropRandom(random: nat) returns (dropped: Option<TxId>, lost: bool)
      requires Valid() && Weighty(txIdAndWeights)
      modifies this
      ensures Valid() && Weighty(txIdAndWeights)
      ensures Sum(Costs(old(txIdAndWeights))) <= capacity <==> dropped == None && !lost
      ensures dropped == None ==> txIdAndWeights == old(txIdAndWeights)
      ensures Sum(Costs(old(txIdAndWeights))) > capacity ==>
        Sum(Evictions(old(txIdAndWeights))) > 0 && Picked(old(txIdAndWeights), old(childWeights), random, txIdAndWeights, dropped, lost)
      ensures Sum(Costs(old(txIdAndWeights))) > capacity && FitsInt(old(txIdAndWeights)) ==>
        !lost && dropped.Some? && DropStep(capacity, old(txIdAndWeights), txIdAndWeights, random, dropped.value)
    {
      hide ChildSums, FindByEvictionWeight, Sum, SubSum, Find, FitsInt;
      lost := false;
      var totalTxWeight := GetTotalWeight();
      if totalTxWeight.cost <= capacity {
        return None, false;
      }
      CostBelowEviction(txIdAndWeights);
      RootSum(Evictions(txIdAndWeights));
      var randomWeight := ToInt32(random % totalTxWeight.evictionWeight);
      if FitsInt(txIdAndWeights) {
        FindsIfFits(txIdAndWeights, childWeights, random % totalTxWeight.evictionWeight);
      }
      var found := FindByEvictionWeight(txIdAndWeights, childWeights, 0, randomWeight);
      if found.None? {
        return None, true;
      }
      var drop := txIdAndWeights[found.value];
      Remove(drop.txId);
      dropped := Some(drop.txId);
    }

    /** Dropping until nothing is dropped any more brings the cost down to the limit. */
    method DropUntilFits(random: nat -> nat) returns (dropped: seq<TxId>, lost: bool, ghost run: seq<seq<WeightedTxInfo>>)
      requires Valid() && Weighty(txIdAndWeights)
      modifies this
      ensures Valid() && (lost || Sum(Costs(txIdAndWeights)) <= capacity)
      ensures FitsInt(old(txIdAndWeights)) ==>
        !lost && DropRun(capacity, run, random, dropped) && run[0] == old(txIdAndWeights) && run[|run| - 1] == txIdAndWeights
      ensures multiset(txIdAndWeights) <= multiset(old(txIdAndWeights)) && |txIdAndWeights| == |old(txIdAndWeights)| - |dropped|
    {
      hide FitsInt, Sum, DropStep, DropRun, Picked, ChildSums, Indexed, Weighty, Costs, Evictions;
      dropped, run, lost := [], [txIdAndWeights], false;
      NoDrops(capacity, txIdAndWeights, random);
      while true
        invariant Valid() && Weighty(txIdAndWeights) && !lost
        invariant FitsInt(old(txIdAndWeights)) ==> FitsInt(txIdAndWeights) && DropRun(capacity, run, random, dropped)
        invariant |run| == |dropped| + 1 && run[0] == old(txIdAndWeights) && run[|run| - 1] == txIdAndWeights
        invariant multiset(txIdAndWeights) <= multiset(old(txIdAndWeights)) && |txIdAndWeights| == |old(txIdAndWeights)| - |dropped|
        decreases |txIdAndWeights|
      {
        ghost var before, child := txIdAndWeights, childWeights;
        var maybeDropped, out := MaybeDropRandom(random(|dropped|));
        if maybeDropped.None? {
          lost := out;
          break;
        }
        PickedLess(before, child, random(|dropped|), txIdAndWeights, maybeDropped, out);
        if FitsInt(before) && FitsInt(old(txIdAndWeights)) {
          DropRunNext(capacity, run, random, dropped, txIdAndWeights, maybeDropped.value);
        }
        dropped, run := dropped + [maybeDropped.value], run + [txIdAndWeights];
      }
    }
  }

  /** What the draw leads to: a transaction that is removed, or out of the tree. */
  ghost predicate Picked(t: seq<WeightedTxInfo>, child: seq<TxWeight>, random: nat, after: seq<WeightedTxInfo>, dropped: Option<TxId>, lost: bool)
    requires ChildSums(t, child) && Sum(Evictions(t)) > 0
  {
    var r := FindByEvictionWeight(t, child, 0, ToInt32(random % Sum(Evictions(t))));
    if r.Some? then !lost && dropped == Some(t[r.value].txId) && after == Removed(t, r.value)
    else lost && dropped == None && after == t
  }

  lemma PickedLess(t: seq<WeightedTxInfo>, child: seq<TxWeight>, random: nat, after: seq<WeightedTxInfo>, dropped: Option<TxId>, lost: bool)
    requires ChildSums(t, child) && Weighty(t) && Sum(Evictions(t)) > 0 && Picked(t, child, random, after, dropped, lost) && dropped.Some?
    ensures multiset(after) <= multiset(t) && |after| == |t| - 1 && !lost && (FitsInt(t) ==> FitsInt(after))
  {
    hide ChildSums, FindByEvictionWeight, Sum;
    var r := FindByEvictionWeight(t, child, 0, ToInt32(random % Sum(Evictions(t)))).value;
    RemovedLess(t, r);
  }

  /** Where the total fits, a draw finds the transaction it belongs to. */
  lemma FindsIfFits(t: seq<WeightedTxInfo>, child: seq<TxWeight>, x: int)
    requires ChildSums(t, child) && NonNegative(Evictions(t)) && FitsInt(t) && 0 <= x < SubSum(Evictions(t), 0) == Sum(Evictions(t))
    ensures FindByEvictionWeight(t, child, 0, ToInt32(x)) == Some(Find(Evictions(t), 0, x))
  {
    hide ChildSums, Above, SubSum, Find, FindByEvictionWeight, Sum;
    if Sum(Evictions(t)) < TWO31 {
      FindsByDraw(t, child, 0, x);
    } else {
      FindsAtEdge(t, child, x);
    }
  }

  /** One drop: over the limit, the draw picks a transaction, which is removed. */
  ghost predicate DropStep(capacity: int, t: seq<WeightedTxInfo>, after: seq<WeightedTxInfo>, random: nat, dropped: TxId) {
    var w := Evictions(t);
    && Sum(Costs(t)) > capacity && Sum(w) > 0 && NonNegative(w) && SubSum(w, 0) == Sum(w)
    && var r := Find(w, 0, random % Sum(w));
    && dropped == t[r].txId && after == Removed(t, r)
  }

  /** A sequence of drops, each of them necessary. */
  ghost predicate DropRun(capacity: int, run: seq<seq<WeightedTxInfo>>, random: nat -> nat, dropped: seq<TxId>) {
    |run| == |dropped| + 1 && forall i :: 0 <= i < |dropped| ==> DropStep(capacity, run[i], run[i + 1], random(i), dropped[i])
  }

  lemma NoDrops(capacity: int, t: seq<WeightedTxInfo>, random: nat -> nat)
    ensures DropRun(capacity, [t], random, [])
  {
  }

  lemma DropRunNext(capacity: int, run: seq<seq<WeightedTxInfo>>, random: nat -> nat, dropped: seq<TxId>, t: seq<WeightedTxInfo>, id: TxId)
    requires DropRun(capacity, run, random, dropped) && DropStep(capacity, run[|dropped|], t, random(|dropped|), id)
    ensures DropRun(capacity, run + [t], random, dropped + [id])
  {
    hide DropStep;
  }

  lemma {:induction false} AboveTrans(i: nat, j: nat, k: nat)
    requires Above(i, j) && Above(j, k)
    ensures Above(i, k)
    decreases k
  {
    if j != k {
      AboveTrans(i, j, (k - 1) / 2);
    }
  }

  lemma {:induction false} CostBelowEviction(t: seq<WeightedTxInfo>)
    requires Weighty(t)
    ensures 0 <= Sum(Costs(t)) <= Sum(Evictions(t)) && NonNegative(Evictions(t))
  {
    if t != [] {
      var p := t[..|t| - 1];
      CostBelowEviction(p);
      assert Costs(t)[..|t| - 1] == Costs(p) && Evictions(t)[..|t| - 1] == Evictions(p);
    }
  }

  /** Weights that some memory usage and some fee give. */
  ghost predicate Weighed(w: TxWeight) { exists memUsage: nat, fee: int :: w == WeightOf(memUsage, fee) }

  ghost predicate AllWeighed(t: seq<WeightedTxInfo>) { forall i :: 0 <= i < |t| ==> Weighed(t[i].txWeight) }

  /** The penalty makes the eviction weight at most five times the cost, and every transaction costs 4000 or more. */
  lemma {:induction false} WeighedBounds(t: seq<WeightedTxInfo>)
    requires AllWeighed(t)
    ensures Weighty(t) && Positive(Evictions(t))
    ensures 4000 * |t| <= Sum(Costs(t)) <= Sum(Evictions(t)) <= 5 * Sum(Costs(t))
  {
    if t != [] {
      var p := t[..|t| - 1];
      WeighedBounds(p);
      assert Costs(t)[..|t| - 1] == Costs(p) && Evictions(t)[..|t| - 1] == Evictions(p);
      assert Weighed(t[|t| - 1].txWeight);
      assert forall i :: 0 <= i < |p| ==> t[i] == p[i];
    }
  }

  /**
   A pool within the default limit that takes in one transaction of less than 349496729 bytes: whatever is
   drawn while it is brought within the limit again is found.
   */
  lemma WeighedFits(t: seq<WeightedTxInfo>, x: WeightedTxInfo, capacity: int)
    requires AllWeighed(t + [x]) && Sum(Costs(t)) <= capacity <= 80000000 && x.txWeight.cost < 349496730
    ensures FitsInt(t + [x]) && 4000 * |t| <= capacity
  {
    var s := t + [x];
    WeighedBounds(s);
    assert s[..|t|] == t && Costs(s)[..|t|] == Costs(t);
    assert forall i :: 0 <= i < |t| ==> s[i] == t[i];
    WeighedBounds(t);
  }

  /** Removing a transaction takes it, and nothing else, out of the collection. */
  lemma RemovedLess(t: seq<WeightedTxInfo>, r: nat)
    requires r < |t| && Weighty(t)
    ensures multiset(Removed(t, r)) == multiset(t) - multiset{t[r]}
    ensures Sum(Evictions(Removed(t, r))) == Sum(Evictions(t)) - t[r].txWeight.evictionWeight <= Sum(Evictions(t))
  {
    var last := t[|t| - 1];
    assert t == t[..|t| - 1] + [last];
    if r < |t| - 1 {
      var p := t[..|t| - 1];
      assert p[r] == t[r];
      assert p == p[..r] + [p[r]] + p[r + 1..];
      assert p[r := last] == p[..r] + [last] + p[r + 1..];
    }
    var w := Evictions(t);
    assert Evictions(Removed(t, r)) == Removed(w, r);
    RootSum(w);
    RootSum(Removed(w, r));
    SubSumDrop(w, 0);
    RootAbove(|t| - 1);
    RootAbove(r);
    if r < |t| - 1 {
      SubSumUpdate(w[..|t| - 1], r, w[|t| - 1], 0);
    }
  }
}
