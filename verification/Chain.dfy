module Chain {
  // Block index entries with their skip pointers, and the active chain over them.

  import opened Bits
  import opened SkipHeights

  type Hash = nat

  class BlockIndex {
    const hash: Hash
    const nHeight: nat
    const pprev: BlockIndex?
    var pskip: BlockIndex?

    constructor (hash: Hash, pprev: BlockIndex?)
      ensures this.hash == hash && this.pprev == pprev && pskip == null
      ensures nHeight == if pprev == null then 0 else pprev.nHeight + 1
    {
      this.hash, this.pprev, pskip := hash, pprev, null;
      nHeight := if pprev == null then 0 else pprev.nHeight + 1;
    }

    /** Heights count down by one along pprev, to zero at the genesis block. */
    ghost predicate Rooted()
      decreases nHeight
    {
      if pprev == null then nHeight == 0 else nHeight == pprev.nHeight + 1 && pprev.Rooted()
    }

    /** The ancestor at a height, following pprev. */
    ghost function Up(h: nat): (r: BlockIndex)
      requires Rooted() && h <= nHeight
      ensures r.nHeight == h && r.Rooted()
      decreases nHeight
    {
      if h == nHeight then this else pprev.Up(h)
    }

    /** Hashes of ancestors at exactly the heights of a locator, the genesis block last and only there. */
    ghost predicate IsLocator(vHave: seq<Hash>) {
      && Rooted() && vHave != []
      && (forall k :: 0 <= k < |vHave| ==>
            LocatorHeight(nHeight, k) <= nHeight && vHave[k] == Up(LocatorHeight(nHeight, k)).hash)
      && LocatorHeight(nHeight, |vHave| - 1) == 0
      && forall k :: 0 <= k < |vHave| - 1 ==> LocatorHeight(nHeight, k) > 0
    }

    lemma {:induction false} UpUp(h: nat, g: nat)
      requires Rooted() && g <= h <= nHeight
      ensures Up(h).Up(g) == Up(g)
      decreases nHeight
    {
      if h < nHeight {
        pprev.UpUp(h, g);
      }
    }

    /** This block and all its ancestors. */
    ghost function Ancestry(): (r: set<BlockIndex>)
      requires Rooted()
      ensures this in r && forall b :: b in r ==> b.nHeight <= nHeight && b.Rooted()
      decreases nHeight
    {
      {this} + if pprev == null then {} else pprev.Ancestry()
    }

    /** A block's skip pointer is unset, or what BuildSkip makes it. */
    ghost predicate SkipOk()
      requires Rooted()
      reads this
    {
      pskip != null ==> GetSkipHeight(nHeight) <= nHeight && pskip == Up(GetSkipHeight(nHeight))
    }

    ghost predicate SkipsOk()
      requires Rooted()
      reads Ancestry()
      decreases nHeight
    {
      SkipOk() && (pprev != null ==> pprev.SkipsOk())
    }

    lemma {:induction false} SkipsUp(h: nat)
      requires Rooted() && SkipsOk() && h <= nHeight
      ensures Up(h) in Ancestry() && Up(h).Ancestry() <= Ancestry() && Up(h).SkipsOk()
      decreases nHeight
    {
      if h < nHeight {
        pprev.SkipsUp(h);
      }
    }

    /** BuildSkip has been called for this block and all its ancestors. */
    ghost predicate SkipsBuilt()
      requires Rooted()
      reads Ancestry()
      decreases nHeight
    {
      pprev != null ==> pskip != null && pprev.SkipsBuilt()
    }

    lemma {:induction false} BuiltUp(h: nat)
      requires Rooted() && SkipsBuilt() && h <= nHeight
      ensures Up(h).SkipsBuilt()
      decreases nHeight
    {
      if h < nHeight {
        pprev.BuiltUp(h);
      }
    }

    /** The skip list refines the parent walk, and n counts its steps: at most 110 to go back up to 2^18 blocks. */
    method GetAncestor(height: int) returns (r: BlockIndex?, ghost n: nat)
      requires Rooted() && SkipsOk()
      ensures r == if height > nHeight || height < 0 then null else Up(height)
      ensures r != null ==> r.SkipsOk()
      ensures SkipsBuilt() && r != null ==> n == Steps(nHeight, height) && (nHeight - height <= Exp2(18) ==> n <= 110)
    {
      hide Steps, Exp2, GetSkipHeight;
      n := 0;
      if height > nHeight || height < 0 {
        return null, 0;
      }
      var pindexWalk: BlockIndex := this;
      var heightWalk: nat := nHeight;
      while heightWalk > height
        invariant pindexWalk.Rooted() && pindexWalk.nHeight == heightWalk >= height
        invariant pindexWalk.Up(height) == Up(height)
        invariant pindexWalk.SkipsOk()
        invariant SkipsBuilt() ==> pindexWalk.SkipsBuilt() && n + Steps(heightWalk, height) == Steps(nHeight, height)
      {
        StepsNext(heightWalk, height);
        var heightSkip := GetSkipHeight(heightWalk);
        var heightSkipPrev := GetSkipHeight(heightWalk - 1);
        if pindexWalk.pskip != null
           && (heightSkip == height
               || (heightSkip > height && !(heightSkipPrev < heightSkip - 2 && heightSkipPrev >= height)))
        {
          pindexWalk.UpUp(heightSkip, height);
          pindexWalk.SkipsUp(heightSkip);
          if SkipsBuilt() {
            pindexWalk.BuiltUp(heightSkip);
          }
          pindexWalk := pindexWalk.pskip;
          heightWalk := heightSkip;
        } else {
          pindexWalk := pindexWalk.pprev;
          heightWalk := heightWalk - 1;
        }
        n := n + 1;
      }
      r := pindexWalk;
      if nHeight - height <= Exp2(18) {
        StepsBack18(nHeight, height);
      }
    }

    twostate lemma {:induction false} SkipsStay(b: BlockIndex)
      requires b.Rooted() && old(b.SkipsOk()) && Rooted() && SkipOk()
      requires forall a: BlockIndex :: old(allocated(a)) && a != this ==> a.pskip == old(a.pskip)
      ensures b.SkipsOk()
      decreases b.nHeight
    {
      if b.pprev != null {
        SkipsStay(b.pprev);
      }
    }

    twostate lemma {:induction false} BuiltStay(b: BlockIndex)
      requires b.Rooted() && old(b.SkipsBuilt()) && b.nHeight < nHeight
      requires forall a: BlockIndex :: old(allocated(a)) && a != this ==> a.pskip == old(a.pskip)
      ensures b.SkipsBuilt()
      decreases b.nHeight
    {
      if b.pprev != null {
        BuiltStay(b.pprev);
      }
    }

    /** Sets the skip pointer, and spoils no other block's. */
    method BuildSkip()
      requires Rooted() && SkipOk() && (pprev != null ==> pprev.SkipsOk())
      modifies this`pskip
      ensures pskip == if pprev == null then old(pskip) else Up(GetSkipHeight(nHeight))
      ensures forall b: BlockIndex :: old(allocated(b)) && b.Rooted() && old(b.SkipsOk()) ==> b.SkipsOk()
      ensures old(pprev == null || pprev.SkipsBuilt()) ==> SkipsBuilt()
    {
      if pprev != null {
        ghost var n;
        pskip, n := pprev.GetAncestor(GetSkipHeight(nHeight));
        if old(pprev.SkipsBuilt()) {
          BuiltStay(pprev);
        }
      }
      forall b: BlockIndex | old(allocated(b)) && b.Rooted() && old(b.SkipsOk()) ensures b.SkipsOk() {
        SkipsStay(b);
      }
    }
  }

  /** Ancestors are exactly what following pprev by height finds. */
  lemma {:induction false} AncestorByHeight(b: BlockIndex, a: BlockIndex)
    requires b.Rooted()
    ensures a in b.Ancestry() <==> a.nHeight <= b.nHeight && b.Up(a.nHeight) == a
    decreases b.nHeight
  {
    if a != b && b.pprev != null {
      AncestorByHeight(b.pprev, a);
    }
  }

  lemma {:induction false} AncestryOfAncestor(b: BlockIndex, a: BlockIndex)
    requires b.Rooted() && a in b.Ancestry()
    ensures a.Ancestry() <= b.Ancestry()
    decreases b.nHeight
  {
    if a != b {
      AncestryOfAncestor(b.pprev, a);
    }
  }

  /** What two blocks have in common is the ancestry of their highest common ancestor. */
  lemma Meet(t: BlockIndex, b: BlockIndex, p: BlockIndex)
    requires t.Rooted() && b.Rooted() && p in t.Ancestry() && p in b.Ancestry()
    requires forall i :: p.nHeight < i <= b.nHeight ==> b.Up(i) !in t.Ancestry()
    ensures t.Ancestry() * b.Ancestry() == p.Ancestry()
  {
    AncestryOfAncestor(t, p);
    AncestryOfAncestor(b, p);
    AncestorByHeight(b, p);
    forall a | a in t.Ancestry() && a in b.Ancestry() ensures a in p.Ancestry() {
      AncestorByHeight(b, a);
      if a.nHeight <= p.nHeight {
        b.UpUp(p.nHeight, a.nHeight);
        AncestorByHeight(p, a);
      }
    }
  }

  /** How far below its start the k-th entry of a block locator lies. */
  function LocatorDepth(k: nat): (r: nat)
  {
    if k <= 10 then k else 9 + Exp2(k - 10)
  }

  function LocatorHeight(height: nat, k: nat): (r: nat)
  {
    if LocatorDepth(k) >= height then 0 else height - LocatorDepth(k)
  }

  function LocatorStep(k: nat): (r: nat)
    ensures r >= 1 && LocatorDepth(k + 1) == LocatorDepth(k) + r
  {
    if k <= 10 then 1 else Exp2(k - 10)
  }

  lemma LocatorStart(height: nat)
    ensures LocatorHeight(height, 0) == height && LocatorStep(0) == 1
  {
  }

  /** The next entry is a step lower, and from the eleventh on steps double. */
  lemma LocatorNext(height: nat, k: nat)
    ensures LocatorStep(k + 1) == if k + 1 > 10 then 2 * LocatorStep(k) else LocatorStep(k)
    ensures LocatorHeight(height, k) <= height
    ensures LocatorHeight(height, k + 1)
            == if LocatorHeight(height, k) > LocatorStep(k) then LocatorHeight(height, k) - LocatorStep(k) else 0
  {
  }

  class ActiveChain {
    var vChain: seq<BlockIndex?>

    /** The chain is the whole ancestry of its tip, by height. */
    ghost predicate Valid()
      reads this
    {
      |vChain| > 0 ==> vChain[|vChain| - 1] != null && IsLine(vChain[|vChain| - 1])
    }

    ghost predicate IsLine(tip: BlockIndex)
      reads this
    {
      && tip.Rooted() && tip.nHeight == |vChain| - 1
      && forall i :: 0 <= i < |vChain| ==> vChain[i] == tip.Up(i)
    }

    function Tip(): (r: BlockIndex?)
      requires Valid()
      reads this
      ensures r == null <==> |vChain| == 0
      ensures r != null ==> IsLine(r)
    {
      if |vChain| > 0 then vChain[|vChain| - 1] else null
    }

    function At(nHeight: int): (r: BlockIndex?)
      reads this
    {
      if nHeight < 0 || nHeight >= |vChain| then null else vChain[nHeight]
    }

    /** Membership is being an ancestor of the tip. */
    predicate Contains(pindex: BlockIndex)
      requires Valid()
      reads this
      ensures Contains(pindex) <==> Tip() != null && pindex in Tip().Ancestry()
    {
      assert Tip() != null ==>
        (pindex in Tip().Ancestry() <==> pindex.nHeight < |vChain| && Tip().Up(pindex.nHeight) == pindex)
      by {
        if Tip() != null {
          AncestorByHeight(Tip(), pindex);
        }
      }
      At(pindex.nHeight) == pindex
    }

    constructor ()
      ensures Valid() && vChain == []
    {
      vChain := [];
    }

    /** The early stop leaves the whole ancestry of the new tip. */
    method SetTip(pindex: BlockIndex?)
      requires Valid() && (pindex != null ==> pindex.Rooted())
      modifies this
      ensures Valid() && Tip() == pindex
    {
      if pindex == null {
        vChain := [];
        return;
      }
      ghost var was := vChain;
      var n := pindex.nHeight + 1;
      vChain := if n <= |vChain| then vChain[..n] else vChain + seq(n - |vChain|, _ => null);
      ghost var resized := vChain;
      var p: BlockIndex? := pindex;
      while p != null && vChain[p.nHeight] != p
        invariant |vChain| == n == |resized|
        invariant p != null ==> p.Rooted() && p.nHeight < n && pindex.Up(p.nHeight) == p
        invariant forall i :: 0 <= i < n && (p == null || i > p.nHeight) ==> vChain[i] == pindex.Up(i)
        invariant forall i :: 0 <= i < n && p != null && i <= p.nHeight ==> vChain[i] == resized[i]
        decreases if p == null then 0 else p.nHeight + 1
      {
        vChain := vChain[p.nHeight := p];
        if p.pprev != null {
          pindex.UpUp(p.nHeight, p.nHeight - 1);
        }
        p := p.pprev;
      }
      if p != null {
        assert p.nHeight < |was| && was[p.nHeight] == p;
        var tip := was[|was| - 1];
        forall i | 0 <= i <= p.nHeight ensures vChain[i] == pindex.Up(i) {
          tip.UpUp(p.nHeight, i);
          pindex.UpUp(p.nHeight, i);
        }
      }
    }

    /** The highest block that the chain and a block's ancestry have in common. */
    method FindFork(pindex: BlockIndex) returns (r: BlockIndex?)
      requires Valid() && pindex.Rooted() && pindex.SkipsOk()
      ensures r == null <==> Tip() == null || Tip().Ancestry() !! pindex.Ancestry()
      ensures r != null ==> r in Tip().Ancestry() && r in pindex.Ancestry()
      ensures r != null ==> Tip().Ancestry() * pindex.Ancestry() == r.Ancestry()
    {
      var p: BlockIndex? := pindex;
      if pindex.nHeight > |vChain| - 1 {
        ghost var n;
        p, n := pindex.GetAncestor(|vChain| - 1);
      }
      while p != null && !Contains(p)
        invariant p != null ==> p.nHeight <= pindex.nHeight && p == pindex.Up(p.nHeight)
        invariant forall i :: (if p == null then 0 else p.nHeight + 1) <= i <= pindex.nHeight ==> !Contains(pindex.Up(i))
        decreases if p == null then 0 else p.nHeight + 1
      {
        if p.pprev != null {
          pindex.UpUp(p.nHeight, p.nHeight - 1);
        }
        p := p.pprev;
      }
      r := p;
      ForkIsMeet(pindex, r);
    }

    lemma ForkIsMeet(pindex: BlockIndex, p: BlockIndex?)
      requires Valid() && pindex.Rooted()
      requires p != null ==> p.nHeight <= pindex.nHeight && p == pindex.Up(p.nHeight) && Contains(p)
      requires forall i :: (if p == null then 0 else p.nHeight + 1) <= i <= pindex.nHeight ==> !Contains(pindex.Up(i))
      ensures p == null <==> Tip() == null || Tip().Ancestry() !! pindex.Ancestry()
      ensures p != null ==> p in Tip().Ancestry() && p in pindex.Ancestry()
      ensures p != null ==> Tip().Ancestry() * pindex.Ancestry() == p.Ancestry()
    {
      if p != null {
        AncestorByHeight(pindex, p);
        Meet(Tip(), pindex, p);
      } else if Tip() != null {
        forall a | a in pindex.Ancestry() ensures a !in Tip().Ancestry() {
          AncestorByHeight(pindex, a);
          assert !Contains(pindex.Up(a.nHeight));
        }
      }
    }

    /** The walk back from a block: by the chain's own index where it can, by skip pointers elsewhere. */
    method Back(pindex: BlockIndex, nHeight: nat) returns (r: BlockIndex)
      requires Valid() && pindex.Rooted() && nHeight <= pindex.nHeight && (pindex.SkipsOk() || Contains(pindex))
      ensures r == pindex.Up(nHeight) && (r.SkipsOk() || Contains(r))
    {
      if Contains(pindex) {
        AncestorByHeight(Tip(), pindex);
        Tip().UpUp(pindex.nHeight, nHeight);
        r := At(nHeight);
        AncestorByHeight(Tip(), r);
        assert Contains(r);
      } else {
        ghost var n;
        r, n := pindex.GetAncestor(nHeight);
      }
    }

    /**
     * Hashes of ancestors of the start, strictly descending, at exactly the locator's heights, ending at the
     * genesis block; beyond a dozen, each further hash doubles the height that is covered.
     */
    method GetLocator(start: BlockIndex?) returns (vHave: seq<Hash>)
      requires Valid() && (start != null ==> start.Rooted() && start.SkipsOk())
      ensures var from := if start == null then Tip() else start;
        if from == null then vHave == [] else from.IsLocator(vHave)
    {
      hide Exp2, LocatorDepth, LocatorStep, LocatorHeight, BlockIndex.SkipsBuilt;
      var nStep := 1;
      vHave := [];
      var pindex := if start != null then start else Tip();
      ghost var from := pindex;
      LocatorStart(if from == null then 0 else from.nHeight);
      while pindex != null
        invariant from == null <==> pindex == null && vHave == []
        invariant from != null ==> from.Rooted() && pindex != null
        invariant pindex != null ==> pindex.Rooted() && (pindex.SkipsOk() || Contains(pindex))
        invariant pindex != null ==> pindex.nHeight == LocatorHeight(from.nHeight, |vHave|) <= from.nHeight
        invariant pindex != null ==> pindex == from.Up(pindex.nHeight)
        invariant nStep == LocatorStep(|vHave|)
        invariant from != null ==> forall k :: 0 <= k < |vHave| ==>
          && 0 < LocatorHeight(from.nHeight, k) <= from.nHeight
          && vHave[k] == from.Up(LocatorHeight(from.nHeight, k)).hash
        decreases if pindex == null then 0 else pindex.nHeight
      {
        LocatorNext(from.nHeight, |vHave|);
        vHave := vHave + [pindex.hash];
        if pindex.nHeight == 0 {
          break;
        }
        var nHeight := if pindex.nHeight > nStep then pindex.nHeight - nStep else 0;
        from.UpUp(pindex.nHeight, nHeight);
        pindex := Back(pindex, nHeight);
        if |vHave| > 10 {
          nStep := nStep * 2;
        }
      }
    }
  }

  /** The k-th entry lies strictly above the next one, and the locator's length is the logarithm of the height. */
  lemma LocatorLength(from: BlockIndex, vHave: seq<Hash>)
    requires from.IsLocator(vHave)
    ensures forall k :: 0 <= k < |vHave| - 1 ==> LocatorHeight(from.nHeight, k + 1) < LocatorHeight(from.nHeight, k)
    ensures |vHave| > 12 ==> Exp2(|vHave| - 12) < from.nHeight
    ensures |vHave| <= from.nHeight + 1
  {
    var height, n := from.nHeight, |vHave|;
    if n >= 2 {
      assert LocatorHeight(height, n - 2) > 0;
      DepthAtLeast(n - 2);
    }
  }

  lemma {:induction false} DepthAtLeast(k: nat)
    ensures LocatorDepth(k) >= k
  {
    if k > 0 {
      DepthAtLeast(k - 1);
    }
  }
}
