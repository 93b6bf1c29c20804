module PartialMerkleTree {
  // CPartialMerkleTree itself: the traversals by height and position, and the wire form.

  import opened Bits
  import opened PartialMerkle

  const MAX_BLOCK_SIZE := 2000000

  //////////////////////////////////////////////////////////////////////////////
  // The tree over n transactions
  //////////////////////////////////////////////////////////////////////////////

  /** The number of nodes at a height: each node above has up to two children. */
  function Width(n: nat, height: nat): nat {
    if height == 0 then n else (Width(n, height - 1) + 1) / 2
  }

  /** The expression the code computes the width by. */
  function CalcTreeWidth(n: nat, height: nat): nat { ShiftRight(n + Exp2(height) - 1, height) }

  /** A position is in the tree exactly if its first leaf, pos << height, is. */
  lemma {:induction false} WidthExact(n: nat, height: nat, pos: nat)
    ensures pos < Width(n, height) <==> ShiftLeft(pos, height) < n
    decreases height
  {
    if height > 0 {
      WidthExact(n, height - 1, 2 * pos);
    }
  }

  lemma WidthByShifting(n: nat, height: nat)
    ensures CalcTreeWidth(n, height) == Width(n, height)
  {
    var w := Width(n, height);
    ShiftRightExact(n + Exp2(height) - 1, height, w + 1);
    ShiftLeftLinear(w, height);
    WidthExact(n, height, w);
    if w > 0 {
      ShiftRightExact(n + Exp2(height) - 1, height, w);
      ShiftLeftLinear(w - 1, height);
      WidthExact(n, height, w - 1);
    }
  }

  /** The subtree at a height and position. */
  function ShapeOf(n: nat, height: nat, pos: nat): Shape
    requires pos < Width(n, height)
    decreases height
  {
    if height == 0 then Leaf(pos)
    else if 2 * pos + 1 < Width(n, height - 1) then
      Two(ShapeOf(n, height - 1, 2 * pos), ShapeOf(n, height - 1, 2 * pos + 1))
    else One(ShapeOf(n, height - 1, 2 * pos))
  }

  function Range(lo: nat, hi: nat): (r: seq<nat>)
    requires lo <= hi
    ensures |r| == hi - lo && forall i :: 0 <= i < |r| ==> r[i] == lo + i
  {
    seq(hi - lo, i requires 0 <= i => lo + i)
  }

  function Min(a: nat, b: nat): nat { if a < b then a else b }

  /** The first leaf below a node, and one past the last. */
  function Lo(height: nat, pos: nat): nat { ShiftLeft(pos, height) }
  function Hi(n: nat, height: nat, pos: nat): nat { Min(n, ShiftLeft(pos + 1, height)) }

  /** A node's children split its leaves, and a single child has them all. */
  lemma Halves(n: nat, height: nat, pos: nat)
    requires pos < Width(n, height) && height > 0
    ensures Lo(height, pos) < Hi(n, height, pos) <= n
    ensures Lo(height - 1, 2 * pos) == Lo(height, pos)
    ensures if 2 * pos + 1 < Width(n, height - 1)
            then && Hi(n, height - 1, 2 * pos) == Lo(height - 1, 2 * pos + 1)
                 && Hi(n, height - 1, 2 * pos + 1) == Hi(n, height, pos)
            else Hi(n, height - 1, 2 * pos) == Hi(n, height, pos)
  {
    WidthExact(n, height, pos);
    WidthExact(n, height - 1, 2 * pos + 1);
    ShiftLeftLinear(2 * pos, height - 1);
    ShiftLeftLinear(2 * pos + 1, height - 1);
    ShiftLeftLinear(pos, height);
  }

  /** The leaves below a node are the transactions from pos << height on, up to (pos+1) << height. */
  lemma {:induction false} ShapeLeaves(n: nat, height: nat, pos: nat)
    requires pos < Width(n, height)
    ensures Lo(height, pos) < Hi(n, height, pos) <= n
    ensures Leaves(ShapeOf(n, height, pos)) == Range(Lo(height, pos), Hi(n, height, pos))
    ensures Uniform(ShapeOf(n, height, pos), height) && Ascending(Leaves(ShapeOf(n, height, pos)), n)
    decreases height
  {
    if height > 0 {
      Halves(n, height, pos);
      ShapeLeaves(n, height - 1, 2 * pos);
      if 2 * pos + 1 < Width(n, height - 1) {
        ShapeLeaves(n, height - 1, 2 * pos + 1);
        RangeConcat(Lo(height, pos), Lo(height - 1, 2 * pos + 1), Hi(n, height, pos));
      }
    }
  }

  lemma RangeConcat(lo: nat, mid: nat, hi: nat)
    requires lo <= mid <= hi
    ensures Range(lo, mid) + Range(mid, hi) == Range(lo, hi)
  {
  }

  /** The height of the root: the least one at which the tree has at most one node. */
  function HeightFrom(n: nat, h: nat): (r: nat)
    requires h <= n
    ensures r >= h && Width(n, r) <= 1 && forall k :: h <= k < r ==> Width(n, k) > 1
    decreases n - h
  {
    if Width(n, h) <= 1 then h else Narrow(n); HeightFrom(n, h + 1)
  }

  lemma Narrow(n: nat)
    ensures Width(n, n) <= 1
  {
    Exp2Exceeds(n);
    WidthExact(n, n, 1);
    ShiftLeftLinear(0, n);
  }

  function Height(n: nat): (r: nat)
    ensures Width(n, r) <= 1 && forall k :: 0 <= k < r ==> Width(n, k) > 1
    ensures n > 0 ==> Width(n, r) == 1
  {
    var r := HeightFrom(n, 0);
    if n > 0 then WidthExact(n, r, 0); ShiftLeftLinear(0, r); r else r
  }

  method TreeHeight(n: nat) returns (nHeight: nat)
    ensures nHeight == Height(n)
  {
    nHeight := 0;
    WidthByShifting(n, 0);
    while CalcTreeWidth(n, nHeight) > 1
      invariant nHeight <= n && HeightFrom(n, nHeight) == Height(n)
      invariant CalcTreeWidth(n, nHeight) == Width(n, nHeight)
      decreases n - nHeight
    {
      Narrow(n);
      nHeight := nHeight + 1;
      WidthByShifting(n, nHeight);
    }
  }

  function Whole(n: nat): Shape
    requires n > 0
  {
    ShapeOf(n, Height(n), 0)
  }

  lemma WholeLeaves(n: nat)
    requires n > 0
    ensures Leaves(Whole(n)) == Range(0, n) && Uniform(Whole(n), Height(n)) && Ascending(Leaves(Whole(n)), n)
  {
    ShapeLeaves(n, Height(n), 0);
    ShiftLeftLinear(0, Height(n));
    WidthExact(n, Height(n), 1);
  }

  //////////////////////////////////////////////////////////////////////////////
  // Flag bits as bytes
  //////////////////////////////////////////////////////////////////////////////

  /** The bits of the bytes, least significant first. */
  function UnpackBits(bytes: seq<bv8>): (bits: seq<bool>)
    ensures |bits| == 8 * |bytes|
    ensures forall p :: 0 <= p < |bits| ==> bits[p] == BitOf(bytes[p / 8], p % 8)
  {
    seq(8 * |bytes|, p requires 0 <= p < 8 * |bytes| => BitOf(bytes[p / 8], p % 8))
  }

  /** bits, followed by fewer than eight false ones, to a whole number of bytes. */
  function Padded(bits: seq<bool>): (r: seq<bool>)
    ensures |r| == 8 * ((|bits| + 7) / 8)
    ensures bits <= r && forall p :: |bits| <= p < |r| ==> !r[p]
  {
    bits + seq(8 * ((|bits| + 7) / 8) - |bits|, _ => false)
  }

  method PackBits(vBits: seq<bool>) returns (vBytes: seq<bv8>)
    ensures UnpackBits(vBytes) == Padded(vBits)
  {
    vBytes := seq((|vBits| + 7) / 8, _ => 0);
    forall q | 0 <= q < 8 * |vBytes| ensures !BitOf(vBytes[q / 8], q % 8) { NoBits(q % 8); }
    for p := 0 to |vBits|
      invariant |vBytes| == (|vBits| + 7) / 8
      invariant forall q :: 0 <= q < 8 * |vBytes| ==> BitOf(vBytes[q / 8], q % 8) == (q < p && vBits[q])
    {
      ghost var before := vBytes;
      if vBits[p] {
        vBytes := vBytes[p / 8 := vBytes[p / 8] | Mask(p % 8)];
      }
      forall q | 0 <= q < 8 * |vBytes| ensures BitOf(vBytes[q / 8], q % 8) == (q < p + 1 && vBits[q]) {
        assert BitOf(before[q / 8], q % 8) == (q < p && vBits[q]);
        SetBit(before[p / 8], p % 8, q % 8);
      }
    }
  }

  method UnpackBytes(vBytes: seq<bv8>) returns (vBits: seq<bool>)
    ensures vBits == UnpackBits(vBytes)
  {
    vBits := [];
    for p := 0 to 8 * |vBytes|
      invariant vBits == UnpackBits(vBytes)[..p]
    {
      vBits := vBits + [BitOf(vBytes[p / 8], p % 8)];
    }
  }

  //////////////////////////////////////////////////////////////////////////////
  // The class
  //////////////////////////////////////////////////////////////////////////////

  /** The hash of a node by height and position. */
  function CalcHash(hash: PairHash, txids: seq<Hash>, height: nat, pos: nat): (r: Hash)
    requires pos < Width(|txids|, height)
    decreases height
  {
    if height == 0 then txids[pos]
    else
      var left := CalcHash(hash, txids, height - 1, pos * 2);
      var right := if pos * 2 + 1 < Width(|txids|, height - 1) then CalcHash(hash, txids, height - 1, pos * 2 + 1) else left;
      hash(left, right)
  }

  /** It is the hash of the node's subtree. */
  lemma {:induction false} CalcHashIs(hash: PairHash, txids: seq<Hash>, height: nat, pos: nat)
    requires pos < Width(|txids|, height)
    ensures Ascending(Leaves(ShapeOf(|txids|, height, pos)), |txids|)
    ensures CalcHash(hash, txids, height, pos) == HashOf(hash, txids, ShapeOf(|txids|, height, pos))
    decreases height
  {
    hide Ascending, Leaves;
    ShapeLeaves(|txids|, height, pos);
    if height > 0 {
      CalcHashIs(hash, txids, height - 1, pos * 2);
      if pos * 2 + 1 < Width(|txids|, height - 1) {
        CalcHashIs(hash, txids, height - 1, pos * 2 + 1);
      }
    }
  }

  /** The checks of ExtractMatches passed, all bits (up to padding) and all hashes were used. */
  predicate Accepts(hash: PairHash, n: nat, bits: seq<bool>, hashes: seq<Hash>) {
    && 0 < n <= 33333
    && |hashes| <= n && |hashes| <= |bits|
    && var f := Extract(hash, Whole(n), bits, hashes, 0, 0);
       !f.bad && (f.nBits + 7) / 8 == (|bits| + 7) / 8 && f.nHash == |hashes|
  }

  lemma Assoc<T>(a: seq<T>, b: seq<T>, c: seq<T>, d: seq<T>)
    ensures a + b + c + d == a + (b + c + d) && a + b + c == a + (b + c)
  {
  }

  /** s is the subtree the traversal stands at, with its leaves in range. */
  ghost predicate AtNode(n: nat, height: nat, pos: nat, s: Shape) {
    pos < Width(n, height) && s == ShapeOf(n, height, pos) && Ascending(Leaves(s), n)
  }

  lemma Descend(n: nat, height: nat, pos: nat, s: Shape)
    requires AtNode(n, height, pos, s) && height > 0
    ensures if pos * 2 + 1 < Width(n, height - 1)
            then s.Two? && AtNode(n, height - 1, pos * 2, s.left) && AtNode(n, height - 1, pos * 2 + 1, s.right)
            else s.One? && AtNode(n, height - 1, pos * 2, s.only)
  {
    ShapeLeaves(n, height - 1, pos * 2);
    if pos * 2 + 1 < Width(n, height - 1) {
      ShapeLeaves(n, height - 1, pos * 2 + 1);
    }
  }

  lemma LeafAtBottom(n: nat, height: nat, pos: nat, s: Shape)
    requires AtNode(n, height, pos, s)
    ensures s.Leaf? <==> height == 0
  {
  }

  class PartialMerkleTree {
    const hash: PairHash
    var nTransactions: nat
    var vBits: seq<bool>
    var vHash: seq<Hash>
    var fBad: bool

    /** Encodes the transactions selected by vMatch. */
    constructor Build(hash: PairHash, vTxid: seq<Hash>, vMatch: seq<bool>)
      requires 0 < |vTxid| == |vMatch|
      ensures this.hash == hash && nTransactions == |vTxid| && !fBad
      ensures Ascending(Leaves(Whole(|vTxid|)), |vTxid|)
      ensures vBits == BuildBits(Whole(|vTxid|), vMatch)
      ensures vHash == BuildHashes(hash, vTxid, Whole(|vTxid|), vMatch)
    {
      this.hash, nTransactions, fBad, vBits, vHash := hash, |vTxid|, false, [], [];
      new;
      var nHeight := TreeHeight(nTransactions);
      WholeLeaves(nTransactions);
      TraverseAndBuild(nHeight, 0, vTxid, vMatch, Whole(nTransactions));
    }

    /** Reads the wire form. */
    constructor Read(hash: PairHash, n: nat, hashes: seq<Hash>, vBytes: seq<bv8>)
      ensures this.hash == hash && nTransactions == n && vHash == hashes && vBits == UnpackBits(vBytes) && !fBad
    {
      var bits := UnpackBytes(vBytes);
      this.hash, nTransactions, fBad, vHash, vBits := hash, n, false, hashes, bits;
    }

    method TreeWidth(height: nat) returns (width: nat)
      ensures width == Width(nTransactions, height)
    {
      WidthByShifting(nTransactions, height);
      width := CalcTreeWidth(nTransactions, height);
    }

    method TraverseAndBuild(height: nat, pos: nat, vTxid: seq<Hash>, vMatch: seq<bool>, ghost s: Shape)
      requires |vTxid| == |vMatch| == nTransactions && AtNode(nTransactions, height, pos, s)
      modifies this`vBits, this`vHash
      ensures vBits == old(vBits) + BuildBits(s, vMatch)
      ensures vHash == old(vHash) + BuildHashes(hash, vTxid, s, vMatch)
      decreases height
    {
      var fParentOfMatch := ParentOfMatch(height, pos, vMatch, s);
      vBits := vBits + [fParentOfMatch];
      if height == 0 || !fParentOfMatch {
        CalcHashIs(hash, vTxid, height, pos);
        vHash := vHash + [CalcHash(hash, vTxid, height, pos)];
      } else {
        Descend(nTransactions, height, pos, s);
        var width := TreeWidth(height - 1);
        TraverseAndBuild(height - 1, pos * 2, vTxid, vMatch, if s.Two? then s.left else s.only);
        if pos * 2 + 1 < width {
          TraverseAndBuild(height - 1, pos * 2 + 1, vTxid, vMatch, s.right);
          Assoc(old(vBits), [true], BuildBits(s.left, vMatch), BuildBits(s.right, vMatch));
        } else {
          Assoc(old(vBits), [true], BuildBits(s.only, vMatch), []);
        }
      }
    }

    method ParentOfMatch(height: nat, pos: nat, vMatch: seq<bool>, ghost s: Shape) returns (fParentOfMatch: bool)
      requires |vMatch| == nTransactions && AtNode(nTransactions, height, pos, s)
      ensures fParentOfMatch == Matched(s, vMatch)
    {
      ShapeLeaves(nTransactions, height, pos);
      ghost var leaves := Leaves(s);
      var p := ShiftLeft(pos, height);
      ghost var lo := p;
      fParentOfMatch := false;
      while p < ShiftLeft(pos + 1, height) && p < nTransactions
        invariant lo <= p <= Hi(nTransactions, height, pos)
        invariant fParentOfMatch == exists i :: 0 <= i < p - lo && vMatch[leaves[i]]
      {
        assert leaves[p - lo] == p;
        fParentOfMatch := fParentOfMatch || vMatch[p];
        p := p + 1;
      }
      assert p - lo == |leaves|;
    }

    method UseStoredHash(isMatch: bool, nHashUsed: nat, vMatch: seq<Hash>) returns (r: Hash, nHash: nat, matches: seq<Hash>)
      modifies this`fBad
      ensures if nHashUsed >= |vHash| then r == NULL && nHash == nHashUsed && matches == vMatch && fBad
              else && r == vHash[nHashUsed] && nHash == nHashUsed + 1 && fBad == old(fBad)
                   && matches == if isMatch then vMatch + [r] else vMatch
    {
      if nHashUsed >= |vHash| {
        fBad := true;
        return NULL, nHashUsed, vMatch;
      }
      r, nHash, matches := vHash[nHashUsed], nHashUsed + 1, vMatch;
      if isMatch {
        matches := matches + [r];
      }
    }

    method TraverseAndExtract(height: nat, pos: nat, nBitsUsed: nat, nHashUsed: nat, vMatch: seq<Hash>, ghost s: Shape)
        returns (r: Hash, nBits: nat, nHash: nat, matches: seq<Hash>)
      requires AtNode(nTransactions, height, pos, s)
      modifies this`fBad
      ensures var f := Extract(hash, s, vBits, vHash, nBitsUsed, nHashUsed);
        && r == f.hash && nBits == f.nBits && nHash == f.nHash
        && matches == vMatch + f.ids && fBad == (old(fBad) || f.bad)
      decreases height
    {
      hide AtNode, Width, Leaves;
      LeafAtBottom(nTransactions, height, pos, s);
      if nBitsUsed >= |vBits| {
        fBad := true;
        return NULL, nBitsUsed, nHashUsed, vMatch;
      }
      var fParentOfMatch := vBits[nBitsUsed];
      nBits, nHash, matches := nBitsUsed + 1, nHashUsed, vMatch;
      if height == 0 || !fParentOfMatch {
        r, nHash, matches := UseStoredHash(height == 0 && fParentOfMatch, nHash, matches);
      } else {
        Descend(nTransactions, height, pos, s);
        var width := TreeWidth(height - 1);
        var left, right;
        left, nBits, nHash, matches :=
          TraverseAndExtract(height - 1, pos * 2, nBits, nHash, matches, if s.Two? then s.left else s.only);
        if pos * 2 + 1 < width {
          right, nBits, nHash, matches := TraverseAndExtract(height - 1, pos * 2 + 1, nBits, nHash, matches, s.right);
          if right == left {
            fBad := true;
          }
        } else {
          right := left;
        }
        r := hash(left, right);
      }
    }

    /** The Merkle root and the matched ids, or the null hash if anything is wrong. */
    method ExtractMatches() returns (root: Hash, vMatch: seq<Hash>)
      modifies this`fBad
      ensures if !old(fBad) && Accepts(hash, nTransactions, vBits, vHash) then
                var f := Extract(hash, Whole(nTransactions), vBits, vHash, 0, 0);
                root == f.hash && vMatch == f.ids && !fBad
              else root == NULL
    {
      vMatch := [];
      if nTransactions == 0 || nTransactions > MAX_BLOCK_SIZE / 60 || |vHash| > nTransactions || |vBits| < |vHash| {
        return NULL, vMatch;
      }
      var nHeight := TreeHeight(nTransactions);
      var nBitsUsed, nHashUsed;
      WholeLeaves(nTransactions);
      root, nBitsUsed, nHashUsed, vMatch := TraverseAndExtract(nHeight, 0, 0, 0, vMatch, Whole(nTransactions));
      if fBad || (nBitsUsed + 7) / 8 != (|vBits| + 7) / 8 || nHashUsed != |vHash| {
        root := NULL;
      }
    }
  }

  //////////////////////////////////////////////////////////////////////////////
  // The two promises
  //////////////////////////////////////////////////////////////////////////////

  /** The Merkle root of a block. */
  function MerkleRoot(hash: PairHash, txids: seq<Hash>): Hash
    requires |txids| > 0
  {
    CalcHash(hash, txids, Height(|txids|), 0)
  }

  /**
   Soundness: whatever bits and hashes are offered, if extraction is accepted and gives the
   true root, the returned ids are transactions of the block, in block order.
   */
  lemma SoundProof(hash: PairHash, txids: seq<Hash>, bits: seq<bool>, hashes: seq<Hash>)
    requires Injective(hash) && Accepts(hash, |txids|, bits, hashes)
    requires Extract(hash, Whole(|txids|), bits, hashes, 0, 0).hash == MerkleRoot(hash, txids)
    ensures var f := Extract(hash, Whole(|txids|), bits, hashes, 0, 0);
      |f.ids| == |f.at| && Ascending(f.at, |txids|) && forall i :: 0 <= i < |f.at| ==> f.ids[i] == txids[f.at[i]]
  {
    WholeLeaves(|txids|);
    CalcHashIs(hash, txids, Height(|txids|), 0);
    ExtractSound(hash, txids, Whole(|txids|), bits, hashes, 0, 0, Extract(hash, Whole(|txids|), bits, hashes, 0, 0));
  }

  /** The transactions from position k on that a mask selects, in block order. */
  function Selected(txids: seq<Hash>, mask: seq<bool>, k: nat := 0): seq<Hash>
    requires k <= |txids| == |mask|
    decreases |txids| - k
  {
    if k == |txids| then [] else (if mask[k] then [txids[k]] else []) + Selected(txids, mask, k + 1)
  }

  predicate Named(txids: seq<Hash>, at: seq<nat>, ids: seq<Hash>) {
    |ids| == |at| && forall i :: 0 <= i < |at| ==> at[i] < |txids| && ids[i] == txids[at[i]]
  }

  lemma NamedTail(txids: seq<Hash>, k: nat, next: seq<nat>, ids: seq<Hash>)
    requires Named(txids, [k] + next, ids)
    ensures ids != [] && Named(txids, next, ids[1..]) && k < |txids| && ids == [txids[k]] + ids[1..]
  {
    var at := [k] + next;
    assert at[0] == k;
    forall i | 0 <= i < |next| ensures next[i] < |txids| && ids[1..][i] == txids[next[i]] {
      assert at[i + 1] == next[i];
    }
  }

  lemma {:induction false} SelectedIs(txids: seq<Hash>, mask: seq<bool>, ids: seq<Hash>, k: nat)
    requires k <= |txids| == |mask| && Ascending(Range(k, |mask|), |mask|)
    requires Named(txids, MatchedAt(mask, Range(k, |mask|)), ids)
    ensures ids == Selected(txids, mask, k)
    decreases |txids| - k
  {
    if k < |txids| {
      var at := Range(k, |mask|);
      assert at[0] == k && at[1..] == Range(k + 1, |mask|);
      MatchedAtFirst(mask, at);
      hide MatchedAt, Named, Ascending, Range;
      var next := MatchedAt(mask, Range(k + 1, |mask|));
      if mask[k] {
        NamedTail(txids, k, next, ids);
        SelectedIs(txids, mask, ids[1..], k + 1);
      } else {
        assert [] + next == next;
        SelectedIs(txids, mask, ids, k + 1);
      }
    }
  }

  lemma PaddingUnread<T>(s: seq<T>, t: seq<T>)
    requires s <= t
    ensures At(t, 0, s)
  {
    assert t[0..|s|] == s;
  }

  /**
   Completeness: what was built, packed into bytes and read back is accepted; it gives the
   true root and exactly the selected ids, in order.
   */
  lemma CompleteProof(hash: PairHash, txids: seq<Hash>, mask: seq<bool>, bytes: seq<bv8>)
    requires Injective(hash) && Distinct(txids) && 0 < |txids| == |mask| <= MAX_BLOCK_SIZE / 60
    requires Ascending(Leaves(Whole(|txids|)), |txids|)
    requires UnpackBits(bytes) == Padded(BuildBits(Whole(|txids|), mask))
    ensures var hashes := BuildHashes(hash, txids, Whole(|txids|), mask);
      var f := Extract(hash, Whole(|txids|), UnpackBits(bytes), hashes, 0, 0);
      && Accepts(hash, |txids|, UnpackBits(bytes), hashes)
      && f.hash == MerkleRoot(hash, txids) && f.ids == Selected(txids, mask)
      && |hashes| <= |txids| && |hashes| <= 1 + |f.ids| * Height(|txids|)
  {
    hide HashOf, Uniform, Extract, BuildBits, BuildHashes, MatchedAt, Selected, UnpackBits, Injective, Distinct, Leaves;
    var n := |txids|;
    var s := Whole(n);
    WholeLeaves(n);
    CalcHashIs(hash, txids, Height(n), 0);
    var bits, hashes := BuildBits(s, mask), BuildHashes(hash, txids, s, mask);
    PaddingUnread(bits, UnpackBits(bytes));
    PaddingUnread(hashes, hashes);
    ExtractComplete(hash, txids, mask, s, Height(n), UnpackBits(bytes), hashes, 0, 0);
    HashCount(hash, txids, mask, s, Height(n));
    BitCount(hash, txids, mask, s);
    var f := Extract(hash, s, UnpackBits(bytes), hashes, 0, 0);
    SelectedIs(txids, mask, f.ids, 0);
  }

  /** The whole way: build, pack, send, unpack, extract. */
  method RoundTrip(hash: PairHash, vTxid: seq<Hash>, vMatch: seq<bool>) returns (root: Hash, ids: seq<Hash>)
    requires Injective(hash) && Distinct(vTxid) && 0 < |vTxid| == |vMatch| <= MAX_BLOCK_SIZE / 60
    ensures root == MerkleRoot(hash, vTxid) && ids == Selected(vTxid, vMatch)
  {
    var sent := new PartialMerkleTree.Build(hash, vTxid, vMatch);
    var vBytes := PackBits(sent.vBits);
    var got := new PartialMerkleTree.Read(hash, sent.nTransactions, sent.vHash, vBytes);
    CompleteProof(hash, vTxid, vMatch, vBytes);
    root, ids := got.ExtractMatches();
  }
}
