module PartialMerkle {
  // Partial Merkle trees (BIP 37, section "Partial Merkle branch format"): a depth-first
  // encoding of some of a block's transaction ids, from which the ids and the Merkle root
  // can be recovered.
  //
  // The code walks a tree given by heights and positions. The theorems are about the same
  // walk over the tree written out as a datatype; PartialMerkleTree.dfy ties the two.

  type Hash = nat

  /** uint256(): also what a failing extraction returns. */
  const NULL: Hash := 0

  /** The hash of two concatenated hashes. */
  type PairHash = (Hash, Hash) -> Hash

  ghost predicate Injective(h: PairHash) {
    forall a, b, c, d :: h(a, b) == h(c, d) ==> a == c && b == d
  }

  predicate Distinct(txids: seq<Hash>) {
    forall i, j :: 0 <= i < j < |txids| ==> txids[i] != txids[j]
  }

  /** A Merkle tree with transaction positions at its leaves; an odd node out has one child. */
  datatype Shape = Leaf(pos: nat) | One(only: Shape) | Two(left: Shape, right: Shape)

  function Leaves(s: Shape): (r: seq<nat>)
    ensures r != []
  {
    match s
    case Leaf(p) => [p]
    case One(c) => Leaves(c)
    case Two(l, r) => Leaves(l) + Leaves(r)
  }

  /** Every leaf stands at the same depth, and they are transactions in order. */
  predicate Uniform(s: Shape, depth: nat) {
    match s
    case Leaf(_) => depth == 0
    case One(c) => depth > 0 && Uniform(c, depth - 1)
    case Two(l, r) => depth > 0 && Uniform(l, depth - 1) && Uniform(r, depth - 1)
  }

  predicate Ascending(at: seq<nat>, n: nat) {
    && (forall i :: 0 <= i < |at| ==> at[i] < n)
    && (forall i, j :: 0 <= i < j < |at| ==> at[i] < at[j])
  }

  function HashOf(hash: PairHash, txids: seq<Hash>, s: Shape): Hash
    requires Ascending(Leaves(s), |txids|)
  {
    match s
    case Leaf(p) => assert Leaves(s)[0] == p; txids[p]
    case One(c) => var h := HashOf(hash, txids, c); hash(h, h)
    case Two(l, r) => AscendingParts(Leaves(l), Leaves(r), |txids|); hash(HashOf(hash, txids, l), HashOf(hash, txids, r))
  }

  lemma AscendingParts(a: seq<nat>, b: seq<nat>, n: nat)
    requires Ascending(a + b, n)
    ensures Ascending(a, n) && Ascending(b, n)
    ensures forall i, j :: 0 <= i < |a| && 0 <= j < |b| ==> a[i] < b[j]
  {
    forall i | 0 <= i < |a| ensures a[i] < n { assert (a + b)[i] == a[i]; }
    forall j | 0 <= j < |b| ensures b[j] < n { assert (a + b)[|a| + j] == b[j]; }
    forall i, j | 0 <= i < j < |a| ensures a[i] < a[j] { assert (a + b)[i] < (a + b)[j]; }
    forall i, j | 0 <= i < j < |b| ensures b[i] < b[j] { assert (a + b)[|a| + i] < (a + b)[|a| + j]; }
    forall i, j | 0 <= i < |a| && 0 <= j < |b| ensures a[i] < b[j] { assert (a + b)[i] < (a + b)[|a| + j]; }
  }

  //////////////////////////////////////////////////////////////////////////////
  // Building
  //////////////////////////////////////////////////////////////////////////////

  /** The node is the parent of at least one matched transaction. */
  predicate Matched(s: Shape, mask: seq<bool>)
    requires Ascending(Leaves(s), |mask|)
  {
    exists i :: 0 <= i < |Leaves(s)| && mask[Leaves(s)[i]]
  }

  /** What building a node appends to the flag bits. */
  function BuildBits(s: Shape, mask: seq<bool>): seq<bool>
    requires Ascending(Leaves(s), |mask|)
  {
    if s.Leaf? || !Matched(s, mask) then [Matched(s, mask)]
    else match s
         case One(c) => [true] + BuildBits(c, mask)
         case Two(l, r) => AscendingParts(Leaves(l), Leaves(r), |mask|); [true] + BuildBits(l, mask) + BuildBits(r, mask)
  }

  /** What building a node appends to the hashes. */
  function BuildHashes(hash: PairHash, txids: seq<Hash>, s: Shape, mask: seq<bool>): seq<Hash>
    requires |txids| == |mask| && Ascending(Leaves(s), |mask|)
  {
    if s.Leaf? || !Matched(s, mask) then [HashOf(hash, txids, s)]
    else match s
         case One(c) => BuildHashes(hash, txids, c, mask)
         case Two(l, r) =>
           AscendingParts(Leaves(l), Leaves(r), |mask|);
           BuildHashes(hash, txids, l, mask) + BuildHashes(hash, txids, r, mask)
  }

  //////////////////////////////////////////////////////////////////////////////
  // Extracting
  //////////////////////////////////////////////////////////////////////////////

  /**
   What extracting a node returns and does: its hash, the counters afterwards, the ids it
   appends to the matches with the leaf positions they were found at, and whether it finds fault.
   */
  datatype Found = Found(hash: Hash, nBits: nat, nHash: nat, ids: seq<Hash>, at: seq<nat>, bad: bool)

  function Extract(hash: PairHash, s: Shape, bits: seq<bool>, hashes: seq<Hash>, nBits: nat, nHash: nat): Found
  {
    if nBits >= |bits| then Found(NULL, nBits, nHash, [], [], true)
    else if s.Leaf? || !bits[nBits] then
      if nHash >= |hashes| then Found(NULL, nBits + 1, nHash, [], [], true)
      else if s.Leaf? && bits[nBits] then
        Found(hashes[nHash], nBits + 1, nHash + 1, [hashes[nHash]], [s.pos], false)
      else Found(hashes[nHash], nBits + 1, nHash + 1, [], [], false)
    else match s
         case One(c) =>
           var l := Extract(hash, c, bits, hashes, nBits + 1, nHash);
           l.(hash := hash(l.hash, l.hash))
         case Two(left, right) =>
           var l := Extract(hash, left, bits, hashes, nBits + 1, nHash);
           var r := Extract(hash, right, bits, hashes, l.nBits, l.nHash);
           Found(hash(l.hash, r.hash), r.nBits, r.nHash, l.ids + r.ids, l.at + r.at, l.bad || r.bad || r.hash == l.hash)
  }

  //////////////////////////////////////////////////////////////////////////////
  // Soundness
  //////////////////////////////////////////////////////////////////////////////

  /** ids are the transactions at the positions at, which increase and are among leaves. */
  ghost predicate Picks(txids: seq<Hash>, ids: seq<Hash>, at: seq<nat>, leaves: seq<nat>) {
    && |ids| == |at|
    && Ascending(at, |txids|)
    && (forall i :: 0 <= i < |at| ==> at[i] in leaves && ids[i] == txids[at[i]])
  }

  lemma PicksConcat(txids: seq<Hash>, a: Found, b: Found, left: seq<nat>, right: seq<nat>)
    requires Picks(txids, a.ids, a.at, left) && Picks(txids, b.ids, b.at, right)
    requires forall p, q :: p in left && q in right ==> p < q
    ensures Picks(txids, a.ids + b.ids, a.at + b.at, left + right)
  {
    var at, ids := a.at + b.at, a.ids + b.ids;
    forall i | 0 <= i < |at| ensures at[i] < |txids| && at[i] in left + right && ids[i] == txids[at[i]] {}
    forall i, j | 0 <= i < j < |at| ensures at[i] < at[j] {
      if i < |a.at| <= j {
        assert a.at[i] in left && b.at[j - |a.at|] in right;
      }
    }
  }

  /** A subtree that hashes to the true node hash can only contain true transactions. */
  lemma {:induction false} ExtractSound(hash: PairHash, txids: seq<Hash>, s: Shape, bits: seq<bool>, hashes: seq<Hash>,
                                        nBits: nat, nHash: nat, f: Found)
    requires Injective(hash) && Ascending(Leaves(s), |txids|)
    requires f == Extract(hash, s, bits, hashes, nBits, nHash)
    requires !f.bad && f.hash == HashOf(hash, txids, s)
    ensures Picks(txids, f.ids, f.at, Leaves(s))
  {
    if s.Leaf? {
      assert Leaves(s)[0] == s.pos;
    } else if bits[nBits] {
      match s
      case One(c) =>
        ExtractSound(hash, txids, c, bits, hashes, nBits + 1, nHash, Extract(hash, c, bits, hashes, nBits + 1, nHash));
      case Two(left, right) =>
        AscendingParts(Leaves(left), Leaves(right), |txids|);
        var l := Extract(hash, left, bits, hashes, nBits + 1, nHash);
        var r := Extract(hash, right, bits, hashes, l.nBits, l.nHash);
        ExtractSound(hash, txids, left, bits, hashes, nBits + 1, nHash, l);
        ExtractSound(hash, txids, right, bits, hashes, l.nBits, l.nHash, r);
        PicksConcat(txids, l, r, Leaves(left), Leaves(right));
    }
  }

  //////////////////////////////////////////////////////////////////////////////
  // Completeness
  //////////////////////////////////////////////////////////////////////////////

  /** Nodes of one depth with the same hash start at the same leaf. */
  lemma {:induction false} SameHashSameStart(hash: PairHash, txids: seq<Hash>, s: Shape, t: Shape, depth: nat)
    requires Injective(hash) && Distinct(txids)
    requires Ascending(Leaves(s), |txids|) && Ascending(Leaves(t), |txids|) && Uniform(s, depth) && Uniform(t, depth)
    requires HashOf(hash, txids, s) == HashOf(hash, txids, t)
    ensures Leaves(s)[0] == Leaves(t)[0]
    decreases depth
  {
    if depth > 0 {
      var a := if s.One? then s.only else s.left;
      var b := if t.One? then t.only else t.left;
      if s.Two? { AscendingParts(Leaves(s.left), Leaves(s.right), |txids|); }
      if t.Two? { AscendingParts(Leaves(t.left), Leaves(t.right), |txids|); }
      SameHashSameStart(hash, txids, a, b, depth - 1);
    }
  }

  /** The matched positions among the given ones, in order. */
  function MatchedAt(mask: seq<bool>, at: seq<nat>): seq<nat>
    requires Ascending(at, |mask|)
  {
    if at == [] then [] else (if mask[at[0]] then [at[0]] else []) + MatchedAt(mask, at[1..])
  }

  lemma MatchedAtFirst(mask: seq<bool>, at: seq<nat>)
    requires Ascending(at, |mask|) && at != []
    ensures Ascending(at[1..], |mask|)
    ensures MatchedAt(mask, at) == (if mask[at[0]] then [at[0]] else []) + MatchedAt(mask, at[1..])
  {
  }

  lemma {:induction false} MatchedAtConcat(mask: seq<bool>, a: seq<nat>, b: seq<nat>)
    requires Ascending(a, |mask|) && Ascending(b, |mask|) && Ascending(a + b, |mask|)
    ensures MatchedAt(mask, a + b) == MatchedAt(mask, a) + MatchedAt(mask, b)
  {
    if a == [] {
      assert a + b == b;
    } else {
      hide MatchedAt;
      assert (a + b)[1..] == a[1..] + b;
      MatchedAtFirst(mask, a);
      MatchedAtFirst(mask, a + b);
      MatchedAtConcat(mask, a[1..], b);
    }
  }

  lemma {:induction false} MatchedAtNone(mask: seq<bool>, at: seq<nat>)
    requires Ascending(at, |mask|)
    ensures MatchedAt(mask, at) == [] <==> forall i :: 0 <= i < |at| ==> !mask[at[i]]
  {
    if at != [] {
      MatchedAtNone(mask, at[1..]);
      if MatchedAt(mask, at) == [] {
        forall i | 0 <= i < |at| ensures !mask[at[i]] { assert i > 0 ==> at[i] == at[1..][i - 1]; }
      }
    }
  }

  /** s holds part from position k on. */
  predicate At<T(==)>(s: seq<T>, k: nat, part: seq<T>) {
    k + |part| <= |s| && s[k..k + |part|] == part
  }

  lemma AtSplit<T>(s: seq<T>, k: nat, a: seq<T>, b: seq<T>)
    requires At(s, k, a + b)
    ensures At(s, k, a) && At(s, k + |a|, b)
  {
    assert s[k..k + |a|] == s[k..k + |a + b|][..|a|];
    assert s[k + |a|..k + |a| + |b|] == s[k..k + |a + b|][|a|..];
  }

  lemma AtFirst<T>(s: seq<T>, k: nat, x: T)
    requires At(s, k, [x])
    ensures k < |s| && s[k] == x
  {
    assert s[k] == s[k..k + 1][0];
  }

  /** f is what extracting the honest encoding of s should give. */
  ghost predicate Complete(hash: PairHash, txids: seq<Hash>, mask: seq<bool>, s: Shape, nBits: nat, nHash: nat, f: Found)
    requires |txids| == |mask| && Ascending(Leaves(s), |mask|)
  {
    && !f.bad
    && f.hash == HashOf(hash, txids, s)
    && f.nBits == nBits + |BuildBits(s, mask)|
    && f.nHash == nHash + |BuildHashes(hash, txids, s, mask)|
    && f.at == MatchedAt(mask, Leaves(s))
    && |f.ids| == |f.at|
    && forall i :: 0 <= i < |f.at| ==> f.at[i] < |txids| && f.ids[i] == txids[f.at[i]]
  }

  lemma CompleteStop(hash: PairHash, txids: seq<Hash>, mask: seq<bool>, s: Shape, bits: seq<bool>, hashes: seq<Hash>, nBits: nat, nHash: nat)
    requires |txids| == |mask| && Ascending(Leaves(s), |mask|) && (s.Leaf? || !Matched(s, mask))
    requires At(bits, nBits, BuildBits(s, mask)) && At(hashes, nHash, BuildHashes(hash, txids, s, mask))
    ensures Complete(hash, txids, mask, s, nBits, nHash, Extract(hash, s, bits, hashes, nBits, nHash))
  {
    assert bits[nBits] == bits[nBits..nBits + 1][0];
    assert hashes[nHash] == hashes[nHash..nHash + 1][0];
    MatchedAtNone(mask, Leaves(s));
    if s.Leaf? {
      assert Leaves(s)[0] == s.pos;
      assert Leaves(s)[1..] == [];
    }
  }

  /** Extraction undoes building, wherever in the bits and hashes the encoded subtree stands. */
  lemma {:induction false} ExtractComplete(hash: PairHash, txids: seq<Hash>, mask: seq<bool>, s: Shape, depth: nat,
                                           bits: seq<bool>, hashes: seq<Hash>, nBits: nat, nHash: nat)
    requires Injective(hash) && Distinct(txids) && Uniform(s, depth)
    requires |txids| == |mask| && Ascending(Leaves(s), |mask|)
    requires At(bits, nBits, BuildBits(s, mask)) && At(hashes, nHash, BuildHashes(hash, txids, s, mask))
    ensures Complete(hash, txids, mask, s, nBits, nHash, Extract(hash, s, bits, hashes, nBits, nHash))
    decreases s
  {
    if s.Leaf? || !Matched(s, mask) {
      CompleteStop(hash, txids, mask, s, bits, hashes, nBits, nHash);
    } else {
      match s
      case One(c) =>
        AtSplit(bits, nBits, [true], BuildBits(c, mask));
        assert bits[nBits] == bits[nBits..nBits + 1][0];
        ExtractComplete(hash, txids, mask, c, depth - 1, bits, hashes, nBits + 1, nHash);
      case Two(left, right) =>
        CompleteTwo(hash, txids, mask, s, depth, bits, hashes, nBits, nHash);
    }
  }

  lemma UnfoldTwo(hash: PairHash, txids: seq<Hash>, mask: seq<bool>, s: Shape)
    requires |txids| == |mask| && s.Two? && Ascending(Leaves(s), |mask|) && Matched(s, mask)
    requires Ascending(Leaves(s.left), |mask|) && Ascending(Leaves(s.right), |mask|)
    ensures Leaves(s) == Leaves(s.left) + Leaves(s.right)
    ensures HashOf(hash, txids, s) == hash(HashOf(hash, txids, s.left), HashOf(hash, txids, s.right))
    ensures |BuildBits(s, mask)| == 1 + |BuildBits(s.left, mask)| + |BuildBits(s.right, mask)|
    ensures |BuildHashes(hash, txids, s, mask)| == |BuildHashes(hash, txids, s.left, mask)| + |BuildHashes(hash, txids, s.right, mask)|
  {
    hide Ascending, Matched;
  }

  lemma ExtractTwo(hash: PairHash, s: Shape, bits: seq<bool>, hashes: seq<Hash>, nBits: nat, nHash: nat)
    requires s.Two? && nBits < |bits| && bits[nBits]
    ensures var l := Extract(hash, s.left, bits, hashes, nBits + 1, nHash);
      var r := Extract(hash, s.right, bits, hashes, l.nBits, l.nHash);
      Extract(hash, s, bits, hashes, nBits, nHash)
        == Found(hash(l.hash, r.hash), r.nBits, r.nHash, l.ids + r.ids, l.at + r.at, l.bad || r.bad || r.hash == l.hash)
  {
  }

  /** Two halves that come out right, with different hashes, make a whole that does. */
  lemma ComposeTwo(hash: PairHash, txids: seq<Hash>, mask: seq<bool>, s: Shape, bits: seq<bool>, hashes: seq<Hash>, nBits: nat, nHash: nat)
    requires |txids| == |mask| && s.Two? && Ascending(Leaves(s), |mask|) && Matched(s, mask) && nBits < |bits| && bits[nBits]
    requires Ascending(Leaves(s.left), |mask|) && Ascending(Leaves(s.right), |mask|)
    requires var l := Extract(hash, s.left, bits, hashes, nBits + 1, nHash);
      var r := Extract(hash, s.right, bits, hashes, l.nBits, l.nHash);
      && Complete(hash, txids, mask, s.left, nBits + 1, nHash, l) && Complete(hash, txids, mask, s.right, l.nBits, l.nHash, r)
      && l.hash != r.hash
    ensures Complete(hash, txids, mask, s, nBits, nHash, Extract(hash, s, bits, hashes, nBits, nHash))
  {
    hide Ascending, MatchedAt, Matched, Leaves, HashOf, BuildBits, BuildHashes, Extract;
    UnfoldTwo(hash, txids, mask, s);
    ExtractTwo(hash, s, bits, hashes, nBits, nHash);
    MatchedAtConcat(mask, Leaves(s.left), Leaves(s.right));
  }

  lemma HalvesDiffer(hash: PairHash, txids: seq<Hash>, s: Shape, depth: nat)
    requires Injective(hash) && Distinct(txids) && Uniform(s, depth) && s.Two? && Ascending(Leaves(s), |txids|)
    ensures Ascending(Leaves(s.left), |txids|) && Ascending(Leaves(s.right), |txids|)
    ensures HashOf(hash, txids, s.left) != HashOf(hash, txids, s.right)
  {
    hide HashOf, Injective, Distinct, Ascending;
    AscendingParts(Leaves(s.left), Leaves(s.right), |txids|);
    StartsDiffer(Leaves(s.left), Leaves(s.right), |txids|);
    if HashOf(hash, txids, s.left) == HashOf(hash, txids, s.right) {
      SameHashSameStart(hash, txids, s.left, s.right, depth - 1);
    }
  }

  lemma StartsDiffer(a: seq<nat>, b: seq<nat>, n: nat)
    requires Ascending(a + b, n) && a != [] && b != []
    ensures a[0] != b[0]
  {
    assert (a + b)[0] == a[0] && (a + b)[|a|] == b[0];
  }

  /** The encoding of a node with two children is that of the one and then of the other. */
  lemma EncodingTwo(hash: PairHash, txids: seq<Hash>, mask: seq<bool>, s: Shape, bits: seq<bool>, hashes: seq<Hash>, nBits: nat, nHash: nat)
    requires |txids| == |mask| && s.Two? && Ascending(Leaves(s), |mask|) && Matched(s, mask)
    requires Ascending(Leaves(s.left), |mask|) && Ascending(Leaves(s.right), |mask|)
    requires At(bits, nBits, BuildBits(s, mask)) && At(hashes, nHash, BuildHashes(hash, txids, s, mask))
    ensures nBits < |bits| && bits[nBits]
    ensures var lb, lh := BuildBits(s.left, mask), BuildHashes(hash, txids, s.left, mask);
      && At(bits, nBits + 1, lb) && At(hashes, nHash, lh)
      && At(bits, nBits + 1 + |lb|, BuildBits(s.right, mask))
      && At(hashes, nHash + |lh|, BuildHashes(hash, txids, s.right, mask))
  {
    hide At, Ascending, Matched;
    var lb, rb := BuildBits(s.left, mask), BuildBits(s.right, mask);
    AtSplit(bits, nBits, [true] + lb, rb);
    AtSplit(bits, nBits, [true], lb);
    AtSplit(hashes, nHash, BuildHashes(hash, txids, s.left, mask), BuildHashes(hash, txids, s.right, mask));
    AtFirst(bits, nBits, true);
  }

  lemma {:induction false} CompleteTwo(hash: PairHash, txids: seq<Hash>, mask: seq<bool>, s: Shape, depth: nat,
                                       bits: seq<bool>, hashes: seq<Hash>, nBits: nat, nHash: nat)
    requires Injective(hash) && Distinct(txids) && Uniform(s, depth) && s.Two?
    requires |txids| == |mask| && Ascending(Leaves(s), |mask|) && Matched(s, mask)
    requires At(bits, nBits, BuildBits(s, mask)) && At(hashes, nHash, BuildHashes(hash, txids, s, mask))
    ensures Complete(hash, txids, mask, s, nBits, nHash, Extract(hash, s, bits, hashes, nBits, nHash))
    decreases s, 0
  {
    hide At, MatchedAt, Injective, Distinct, Ascending, Matched, BuildBits, BuildHashes, Extract, HashOf, Leaves;
    HalvesDiffer(hash, txids, s, depth);
    EncodingTwo(hash, txids, mask, s, bits, hashes, nBits, nHash);
    ExtractComplete(hash, txids, mask, s.left, depth - 1, bits, hashes, nBits + 1, nHash);
    var l := Extract(hash, s.left, bits, hashes, nBits + 1, nHash);
    ExtractComplete(hash, txids, mask, s.right, depth - 1, bits, hashes, l.nBits, l.nHash);
    ComposeTwo(hash, txids, mask, s, bits, hashes, nBits, nHash);
  }

  //////////////////////////////////////////////////////////////////////////////
  // The size of the encoding
  //////////////////////////////////////////////////////////////////////////////

  /** Stored hashes: at most one for every transaction, and one more than the matches times the height. */
  lemma {:induction false} HashCount(hash: PairHash, txids: seq<Hash>, mask: seq<bool>, s: Shape, depth: nat)
    requires |txids| == |mask| && Ascending(Leaves(s), |mask|) && Uniform(s, depth)
    ensures |BuildHashes(hash, txids, s, mask)| <= |Leaves(s)|
    ensures |BuildHashes(hash, txids, s, mask)| <= 1 + |MatchedAt(mask, Leaves(s))| * depth
    decreases s
  {
    if s.Leaf? || !Matched(s, mask) {
      CountOf(0, |MatchedAt(mask, Leaves(s))|, depth);
    } else {
      MatchedAtNone(mask, Leaves(s));
      match s
      case One(c) =>
        HashCount(hash, txids, mask, c, depth - 1);
        CountOf(|MatchedAt(mask, Leaves(c))|, 0, depth);
      case Two(l, r) =>
        AscendingParts(Leaves(l), Leaves(r), |mask|);
        MatchedAtConcat(mask, Leaves(l), Leaves(r));
        HashCount(hash, txids, mask, l, depth - 1);
        HashCount(hash, txids, mask, r, depth - 1);
        CountOf(|MatchedAt(mask, Leaves(l))|, |MatchedAt(mask, Leaves(r))|, depth);
    }
  }

  lemma CountOf(l: nat, r: nat, depth: nat)
    ensures (l + r) * depth >= 0
    ensures depth > 0 ==> l * (depth - 1) + r * (depth - 1) + l + r == (l + r) * depth
  {
  }

  /** Expanded nodes that have a single child. */
  function Singles(s: Shape, mask: seq<bool>): nat
    requires Ascending(Leaves(s), |mask|)
  {
    if s.Leaf? || !Matched(s, mask) then 0
    else match s
         case One(c) => 1 + Singles(c, mask)
         case Two(l, r) => AscendingParts(Leaves(l), Leaves(r), |mask|); Singles(l, mask) + Singles(r, mask)
  }

  /**
   Flag bits: exactly twice the hashes less one, plus one for each expanded node with a single
   child. The documented bound of 2N-1 bits for N hashes thus holds exactly if there is none.
   */
  lemma {:induction false} BitCount(hash: PairHash, txids: seq<Hash>, mask: seq<bool>, s: Shape)
    requires |txids| == |mask| && Ascending(Leaves(s), |mask|)
    ensures |BuildBits(s, mask)| == 2 * |BuildHashes(hash, txids, s, mask)| - 1 + Singles(s, mask)
    ensures |BuildBits(s, mask)| <= 2 * |BuildHashes(hash, txids, s, mask)| - 1 <==> Singles(s, mask) == 0
  {
    if s.Leaf? || !Matched(s, mask) {
    } else {
      match s
      case One(c) => BitCount(hash, txids, mask, c);
      case Two(l, r) =>
        AscendingParts(Leaves(l), Leaves(r), |mask|);
        BitCount(hash, txids, mask, l);
        BitCount(hash, txids, mask, r);
    }
  }
}
