module PartialMerkleSize {
  // How long the wire form of a partial Merkle tree is, and when it keeps to the documented limits.

  import opened Bits
  import opened PartialMerkle
  import opened PartialMerkleTree

  //////////////////////////////////////////////////////////////////////////////
  // Nodes with a single child
  //////////////////////////////////////////////////////////////////////////////

  function Ones(s: Shape): nat {
    match s
    case Leaf(_) => 0
    case One(c) => 1 + Ones(c)
    case Two(l, r) => Ones(l) + Ones(r)
  }

  /** The heights below h at which the number of nodes is odd. */
  function OddWidths(n: nat, h: nat): nat {
    if h == 0 then 0 else OddWidths(n, h - 1) + Width(n, h - 1) % 2
  }

  /** Only the last node of a height can have a single child, and it has exactly if the height below is odd. */
  lemma {:induction false} OnesExact(n: nat, h: nat, pos: nat)
    requires pos < Width(n, h)
    ensures Ones(ShapeOf(n, h, pos)) == if pos == Width(n, h) - 1 then OddWidths(n, h) else 0
    decreases h
  {
    if h > 0 {
      OnesExact(n, h - 1, 2 * pos);
      if 2 * pos + 1 < Width(n, h - 1) {
        OnesExact(n, h - 1, 2 * pos + 1);
      }
    }
  }

  lemma {:induction false} OddWidthsAtMost(n: nat, h: nat)
    ensures OddWidths(n, h) <= h
  {
    if h > 0 {
      OddWidthsAtMost(n, h - 1);
    }
  }

  lemma {:induction false} SinglesAtMost(s: Shape, mask: seq<bool>)
    requires Ascending(Leaves(s), |mask|)
    ensures Singles(s, mask) <= Ones(s)
    decreases s
  {
    match s
    case Leaf(_) =>
    case One(c) => SinglesAtMost(c, mask);
    case Two(l, r) =>
      AscendingParts(Leaves(l), Leaves(r), |mask|);
      SinglesAtMost(l, mask);
      SinglesAtMost(r, mask);
  }

  /** With every transaction matched all nodes are expanded. */
  lemma {:induction false} AllMatched(hash: PairHash, txids: seq<Hash>, mask: seq<bool>, s: Shape)
    requires |txids| == |mask| && Ascending(Leaves(s), |mask|) && forall i :: 0 <= i < |mask| ==> mask[i]
    ensures Singles(s, mask) == Ones(s) && |BuildHashes(hash, txids, s, mask)| == |Leaves(s)|
    decreases s
  {
    assert mask[Leaves(s)[0]];
    match s
    case Leaf(_) =>
    case One(c) => AllMatched(hash, txids, mask, c);
    case Two(l, r) =>
      AscendingParts(Leaves(l), Leaves(r), |mask|);
      AllMatched(hash, txids, mask, l);
      AllMatched(hash, txids, mask, r);
  }

  lemma SinglesBelowHeight(n: nat, mask: seq<bool>)
    requires 0 < n == |mask| && Ascending(Leaves(Whole(n)), n)
    ensures Singles(Whole(n), mask) <= Height(n)
  {
    SinglesAtMost(Whole(n), mask);
    OnesExact(n, Height(n), 0);
    OddWidthsAtMost(n, Height(n));
  }

  lemma HeightAtMost16(n: nat)
    requires n <= MAX_BLOCK_SIZE / 60
    ensures Height(n) <= 16
  {
    WidthExact(n, 16, 1);
    ShiftLeftLinear(1, 16);
    Powers16();
    HeightAtMost(n, 16);
  }

  lemma HeightAtMost(n: nat, h: nat)
    requires Width(n, h) <= 1
    ensures Height(n) <= h
  {
  }

  lemma {:induction false} WidthFalls(n: nat, j: nat, k: nat)
    requires j <= k
    ensures Width(n, k) <= Width(n, j)
  {
    if j < k {
      WidthFalls(n, j, k - 1);
    }
  }

  lemma HeightIs(n: nat, h: nat)
    requires Width(n, h) <= 1 && h > 0 && Width(n, h - 1) > 1
    ensures Height(n) == h
  {
    hide Width;
    HeightAtMost(n, h);
    if Height(n) < h {
      WidthFalls(n, Height(n), h - 1);
    }
  }

  lemma Powers16()
    ensures Exp2(16) == 65536
  {
    assert Exp2(4) == 16;
    Exp2Add(4, 4);
    Exp2Add(8, 8);
  }

  //////////////////////////////////////////////////////////////////////////////
  // The size
  //////////////////////////////////////////////////////////////////////////////

  /** The bytes a length takes on the wire. */
  function CompactSize(n: nat): nat {
    if n < 253 then 1 else if n <= 0xffff then 3 else if n <= 0xffff_ffff then 5 else 9
  }

  /** The number of transactions, the hashes and the flag bytes, both with their length. */
  function WireSize(nHashes: nat, nBytes: nat): nat {
    4 + CompactSize(nHashes) + 32 * nHashes + CompactSize(nBytes) + nBytes
  }

  /** The documented guarantee: 10 bytes and 32.25 for each hash, rounded up. */
  predicate Guaranteed(nHashes: nat, nBytes: nat) {
    WireSize(nHashes, nBytes) <= 10 + 32 * nHashes + (nHashes + 3) / 4
  }

  /**
   The documented size is kept exactly if there are fewer than 253 flag bytes, or the nodes with a
   single child need no further byte.
   */
  lemma SizeExactly(hash: PairHash, txids: seq<Hash>, mask: seq<bool>)
    requires 0 < |txids| == |mask| <= MAX_BLOCK_SIZE / 60 && Ascending(Leaves(Whole(|txids|)), |txids|)
    ensures var nHashes := |BuildHashes(hash, txids, Whole(|txids|), mask)|;
      var nBytes := (|BuildBits(Whole(|txids|), mask)| + 7) / 8;
      && nBytes == (2 * nHashes + 6 + Singles(Whole(|txids|), mask)) / 8
      && (Guaranteed(nHashes, nBytes) <==> nBytes < 253 || (2 * nHashes + 6) % 8 + Singles(Whole(|txids|), mask) < 8)
  {
    hide BuildBits, BuildHashes, Singles, Whole, Uniform;
    var n := |txids|;
    WholeLeaves(n);
    BitCount(hash, txids, mask, Whole(n));
    HashCount(hash, txids, mask, Whole(n), Height(n));
    SinglesBelowHeight(n, mask);
    HeightAtMost16(n);
    SizeArithmetic(|BuildHashes(hash, txids, Whole(n), mask)|, Singles(Whole(n), mask));
  }

  lemma SizeArithmetic(nHashes: nat, singles: nat)
    requires nHashes <= MAX_BLOCK_SIZE / 60 && singles <= 16
    ensures var nBytes := (2 * nHashes + 6 + singles) / 8;
      Guaranteed(nHashes, nBytes) <==> nBytes < 253 || (2 * nHashes + 6) % 8 + singles < 8
  {
    assert (nHashes + 3) / 4 == (2 * nHashes + 6) / 8;
  }

  /** The tree has so many hashes and bits. */
  predicate Sizes(hash: PairHash, txids: seq<Hash>, mask: seq<bool>, nHashes: nat, nBits: nat) {
    var n := |txids|;
    && 0 < n == |mask| && Ascending(Leaves(Whole(n)), n)
    && |BuildHashes(hash, txids, Whole(n), mask)| == nHashes && |BuildBits(Whole(n), mask)| == nBits
  }

  /** 1025 transactions, all matched: 1025 hashes and 258 flag bytes, one byte more than guaranteed. */
  lemma SizeExceeds(hash: PairHash, txids: seq<Hash>, mask: seq<bool>, n: nat)
    requires n == 1025 == |txids| == |mask| && forall i :: 0 <= i < n ==> mask[i]
    ensures Sizes(hash, txids, mask, 1025, 2059) && !Guaranteed(1025, (2059 + 7) / 8)
  {
    hide BuildBits, BuildHashes, Singles, Ones, Width, ShapeOf, OddWidths, Uniform;
    Widths1025(n);
    WholeLeaves(n);
    AllMatched(hash, txids, mask, Whole(n));
    OnesExact(n, 11, 0);
    BitCount(hash, txids, mask, Whole(n));
  }

  lemma WidthNext(n: nat, h: nat)
    ensures Width(n, 0) == n && Width(n, h + 1) == (Width(n, h) + 1) / 2
    ensures OddWidths(n, 0) == 0 && OddWidths(n, h + 1) == OddWidths(n, h) + Width(n, h) % 2
  {
  }

  lemma Widths1025(n: nat)
    requires n == 1025
    ensures Height(n) == 11 && Width(n, 11) == 1 && OddWidths(n, 11) == 10
  {
    hide Width, OddWidths, Height;
    WidthNext(n, 0);
    FiveWidths(n, 0, 32);
    FiveWidths(n, 5, 1);
    WidthNext(n, 10);
    HeightIs(n, 11);
  }

  lemma OddWidthNext(n: nat, h: nat, w: nat)
    requires Width(n, h) == 2 * w + 1
    ensures Width(n, h + 1) == w + 1 && OddWidths(n, h + 1) == OddWidths(n, h) + 1
  {
    hide Width, OddWidths;
    WidthNext(n, h);
  }

  lemma FiveWidths(n: nat, h: nat, w: nat)
    requires Width(n, h) == 32 * w + 1
    ensures Width(n, h + 5) == w + 1 && OddWidths(n, h + 5) == OddWidths(n, h) + 5
  {
    hide Width, OddWidths, Height;
    OddWidthNext(n, h, 16 * w);
    OddWidthNext(n, h + 1, 8 * w);
    OddWidthNext(n, h + 2, 4 * w);
    OddWidthNext(n, h + 3, 2 * w);
    OddWidthNext(n, h + 4, w);
  }

  /** Three transactions with the last one matched: two hashes, but four bits. */
  lemma BitCountExceeds(hash: PairHash, n: nat)
    requires n == 3
    ensures Ascending(Leaves(Whole(n)), n)
    ensures |BuildHashes(hash, [10, 11, 12], Whole(n), [false, false, true])| == 2
    ensures |BuildBits(Whole(n), [false, false, true])| == 4
  {
    WholeOfThree(n);
    hide Whole;
    var l, r := Two(Leaf(0), Leaf(1)), One(Leaf(2));
    var s := Two(l, r);
    var mask := [false, false, true];
    assert Leaves(l) == [0, 1] && Leaves(r) == [2] && Leaves(Leaf(2)) == [2] && Leaves(s) == [0, 1, 2];
    assert mask[Leaves(s)[2]] && mask[Leaves(r)[0]] && mask[Leaves(Leaf(2))[0]];
    assert Matched(s, mask) && Matched(r, mask) && Matched(Leaf(2), mask) && !Matched(l, mask);
  }

  lemma WholeOfThree(n: nat)
    requires n == 3
    ensures Whole(n) == Two(Two(Leaf(0), Leaf(1)), One(Leaf(2)))
  {
    WidthNext(n, 0);
    WidthNext(n, 1);
    HeightIs(n, 2);
  }
}
