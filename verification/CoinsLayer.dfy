module CoinsLayer {
  // One layer of the coins cache as a value: what a cache holds, what can be read through
  // it, and what writing a child's entries into it does. The class in CoinsCache.dfy keeps
  // these maps in its fields.

  import opened Coins
  import opened Wrappers

  type Hash = nat

  /** The null hash: "not resolved yet" for the best block and the best anchors. */
  const NULL: Hash := 0

  datatype ShieldedType = Sprout | Sapling

  /** An incremental commitment tree, by the commitments appended to it. */
  datatype Tree = Tree(commitments: seq<Hash>)

  /** The root function of the two kinds of tree. */
  type RootOf = (ShieldedType, Tree) -> Hash

  /** A root determines its tree (no hash collisions). */
  ghost predicate Injective(root: RootOf) {
    forall y, a, b :: root(y, a) == root(y, b) ==> a == b
  }

  /** No tree has the null hash for its root. */
  ghost predicate NeverNull(root: RootOf) { forall y, a :: root(y, a) != NULL }

  datatype CoinsEntry = CoinsEntry(coins: Coins, isDirty: bool, isFresh: bool)
  datatype AnchorEntry = AnchorEntry(entered: bool, tree: Tree, isDirty: bool)
  datatype NullifierEntry = NullifierEntry(entered: bool, isDirty: bool)

  /** The kind of shielded pool selects one of a pair of maps in the code; here it is part of the key. */
  type Key = (ShieldedType, Hash)

  /** The best anchor of each pool. */
  datatype Best = Best(sprout: Hash, sapling: Hash) {
    function Of(y: ShieldedType): Hash { if y.Sprout? then sprout else sapling }

    function With(y: ShieldedType, h: Hash): (r: Best)
      ensures r.Of(y) == h && forall z :: z != y ==> r.Of(z) == Of(z)
    {
      if y.Sprout? then this.(sprout := h) else this.(sapling := h)
    }
  }

  /** Everything the reading operations of a view can return. */
  datatype View = View(
    coins: map<Hash, Coins>,
    anchors: map<Key, Tree>,
    nullifiers: set<Key>,
    block: Hash,
    best: Best)

  /** What the database at the bottom of the stack stores. */
  datatype Disk = Disk(
    coins: map<Hash, Coins>,
    anchors: map<Key, Tree>,
    nullifiers: set<Key>,
    block: Hash,
    best: Best)

  //////////////////////////////////////////////////////////////////////////////
  // Reading through a layer
  //////////////////////////////////////////////////////////////////////////////

  ghost function OverCoins(cache: map<Hash, CoinsEntry>, below: map<Hash, Coins>): map<Hash, Coins> {
    map t | t in cache.Keys + below.Keys :: if t in cache then cache[t].coins else below[t]
  }

  ghost function OverAnchors(cache: map<Key, AnchorEntry>, below: map<Key, Tree>): map<Key, Tree> {
    map k | k in cache.Keys + below.Keys && (k in cache ==> cache[k].entered) ::
      if k in cache then cache[k].tree else below[k]
  }

  ghost function OverNullifiers(cache: map<Key, NullifierEntry>, below: set<Key>): set<Key> {
    set k | k in cache.Keys + below && (k in cache ==> cache[k].entered)
  }

  ghost function OverHash(cached: Hash, below: Hash): Hash { if cached == NULL then below else cached }

  ghost function OverBest(cached: Best, below: Best): Best {
    Best(OverHash(cached.sprout, below.sprout), OverHash(cached.sapling, below.sapling))
  }

  const EmptyTree := Tree([])

  /** The database answers for the empty tree without storing it. */
  function EmptyAnchors(root: RootOf): map<Key, Tree> {
    map[(Sprout, root(Sprout, EmptyTree)) := EmptyTree, (Sapling, root(Sapling, EmptyTree)) := EmptyTree]
  }

  function DiskView(root: RootOf, d: Disk): View {
    View(d.coins, d.anchors + EmptyAnchors(root), d.nullifiers, d.block,
         Best(if d.best.sprout == NULL then root(Sprout, EmptyTree) else d.best.sprout,
              if d.best.sapling == NULL then root(Sapling, EmptyTree) else d.best.sapling))
  }

  /** Unspent coins: an entry with nothing left unspent counts as absent. */
  ghost function Unspent(coins: map<Hash, Coins>): map<Hash, Coins> {
    map t | t in coins && !coins[t].IsPruned() :: coins[t]
  }

  /** A view with transactions that have nothing unspent left out. */
  ghost function ShownOf(v: View): View { v.(coins := Unspent(v.coins)) }

  //////////////////////////////////////////////////////////////////////////////
  // What a cache keeps true about itself and the view below
  //////////////////////////////////////////////////////////////////////////////

  /** The base has an unspent output of t. */
  ghost predicate Has(below: map<Hash, Coins>, t: Hash) { t in below && !below[t].IsPruned() }

  /**
   FRESH: nothing unspent below. Not DIRTY: equal to the entry below. Not FRESH: the
   base itself holds an entry (`held`).
   */
  ghost predicate CoinsEntryOk(e: CoinsEntry, t: Hash, below: map<Hash, Coins>, held: set<Hash>) {
    && e.coins.IsClean()
    && (e.isFresh ==> !Has(below, t))
    && (!e.isDirty ==> t in below && below[t] == e.coins)
    && (!e.isFresh ==> t in held)
  }

  ghost predicate CoinsOk(cache: map<Hash, CoinsEntry>, below: map<Hash, Coins>, held: set<Hash>) {
    forall t :: t in cache ==> CoinsEntryOk(cache[t], t, below, held)
  }

  ghost predicate CoinsClean(below: map<Hash, Coins>) { forall t :: t in below ==> below[t].IsClean() }

  ghost predicate AnchorsOk(root: RootOf, cache: map<Key, AnchorEntry>, below: map<Key, Tree>) {
    forall k :: k in cache ==>
      && root(k.0, cache[k].tree) == k.1
      && (!cache[k].isDirty ==> cache[k].entered && k in below && below[k] == cache[k].tree)
  }

  ghost predicate AnchorsRooted(root: RootOf, below: map<Key, Tree>) {
    forall k :: k in below ==> root(k.0, below[k]) == k.1
  }

  ghost predicate NullifiersOk(cache: map<Key, NullifierEntry>, below: set<Key>) {
    forall k :: k in cache && !cache[k].isDirty ==> cache[k].entered == (k in below)
  }

  ghost predicate CoinsPart(cache: map<Hash, CoinsEntry>, below: map<Hash, Coins>, held: set<Hash>, view: map<Hash, Coins>) {
    CoinsClean(below) && CoinsOk(cache, below, held) && view == OverCoins(cache, below)
  }

  ghost predicate AnchorsPart(root: RootOf, cache: map<Key, AnchorEntry>, below: map<Key, Tree>, view: map<Key, Tree>) {
    AnchorsRooted(root, below) && AnchorsOk(root, cache, below) && view == OverAnchors(cache, below)
  }

  ghost predicate NullifiersPart(cache: map<Key, NullifierEntry>, below: set<Key>, view: set<Key>) {
    NullifiersOk(cache, below) && view == OverNullifiers(cache, below)
  }

  /** An empty cache shows exactly what is below. */
  lemma EmptyParts(root: RootOf, v: View, held: set<Hash>)
    requires CoinsClean(v.coins) && AnchorsRooted(root, v.anchors)
    ensures CoinsPart(map[], v.coins, held, v.coins) && AnchorsPart(root, map[], v.anchors, v.anchors)
    ensures NullifiersPart(map[], v.nullifiers, v.nullifiers)
  {
    assert OverCoins(map[], v.coins) == v.coins;
    assert OverAnchors(map[], v.anchors) == v.anchors;
  }

  lemma DiskRooted(root: RootOf, d: Disk)
    requires AnchorsRooted(root, d.anchors)
    ensures AnchorsRooted(root, DiskView(root, d).anchors)
  {
    forall k | k in DiskView(root, d).anchors ensures root(k.0, DiskView(root, d).anchors[k]) == k.1 {
      EmptyAnchorsAt(root, k);
    }
  }

  /** Pulling an entry up from the base shows nothing new. */
  lemma Fetched(cache: map<Hash, CoinsEntry>, below: map<Hash, Coins>, held: set<Hash>, view: map<Hash, Coins>, t: Hash)
    requires CoinsPart(cache, below, held, view)
    requires t !in cache && t in below && t in held
    ensures CoinsPart(cache[t := CoinsEntry(below[t], false, below[t].IsPruned())], below, held, view)
  {
  }

  /** Putting a dirty entry in place changes the view at that transaction only. */
  lemma Replaced(cache: map<Hash, CoinsEntry>, below: map<Hash, Coins>, held: set<Hash>, view: map<Hash, Coins>,
                 t: Hash, e: CoinsEntry)
    requires CoinsPart(cache, below, held, view)
    requires CoinsEntryOk(e, t, below, held)
    ensures CoinsPart(cache[t := e], below, held, view[t := e.coins])
  {
    assert OverCoins(cache[t := e], below) == view[t := e.coins];
  }

  lemma ReplacedShows(v: View, t: Hash, c: Coins)
    requires c.IsClean()
    ensures ShownOf(v.(coins := v.coins[t := c])) == WithCoins(ShownOf(v), t, c)
  {
    CleanedExact(c);
    var got, wanted := Unspent(v.coins[t := c]), WithCoins(ShownOf(v), t, c).coins;
    forall u ensures Lookup(got, u) == Lookup(wanted, u) {}
    SameMap(got, wanted);
  }

  lemma SameCoinsShow(v: View, t: Hash, c: Coins)
    requires if t in v.coins then c == v.coins[t] && c.IsClean() else c == EmptyCoins
    ensures WithCoins(ShownOf(v), t, c) == ShownOf(v)
  {
    CleanedExact(c);
    var got, wanted := WithCoins(ShownOf(v), t, c).coins, Unspent(v.coins);
    forall u ensures Lookup(got, u) == Lookup(wanted, u) {}
    SameMap(got, wanted);
  }

  /** Dropping a FRESH entry shows whatever is below, which has nothing unspent. */
  lemma Dropped(cache: map<Hash, CoinsEntry>, below: map<Hash, Coins>, held: set<Hash>, v: View, t: Hash)
    requires CoinsPart(cache, below, held, v.coins)
    requires t in cache && cache[t].isFresh
    ensures CoinsPart(cache - {t}, below, held, OverCoins(cache - {t}, below))
    ensures ShownOf(v.(coins := OverCoins(cache - {t}, below))) == ShownOf(v).(coins := ShownOf(v).coins - {t})
  {
    var after := OverCoins(cache - {t}, below);
    assert CoinsEntryOk(cache[t], t, below, held);
    forall u ensures Lookup(Unspent(after), u) == Lookup(Unspent(v.coins) - {t}, u) {
      assert u != t ==> Lookup(after, u) == Lookup(v.coins, u);
    }
    SameMap(Unspent(after), Unspent(v.coins) - {t});
  }

  /** Why FRESH asks for nothing unspent below: dropping the entry uncovers the transaction exactly if there is. */
  lemma DroppedUncovers(cache: map<Hash, CoinsEntry>, below: map<Hash, Coins>, t: Hash)
    requires t in cache
    ensures t in Unspent(OverCoins(cache - {t}, below)) <==> Has(below, t)
  {
  }

  lemma AnchorFetched(root: RootOf, cache: map<Key, AnchorEntry>, below: map<Key, Tree>, view: map<Key, Tree>, k: Key)
    requires AnchorsPart(root, cache, below, view)
    requires k !in cache && k in below
    ensures AnchorsPart(root, cache[k := AnchorEntry(true, below[k], false)], below, view)
  {
  }

  lemma AnchorReplaced(root: RootOf, cache: map<Key, AnchorEntry>, below: map<Key, Tree>, view: map<Key, Tree>,
                       k: Key, entered: bool, tree: Tree)
    requires AnchorsPart(root, cache, below, view) && root(k.0, tree) == k.1
    ensures AnchorsPart(root, cache[k := AnchorEntry(entered, tree, true)], below,
                        if entered then view[k := tree] else view - {k})
  {
    var after := OverAnchors(cache[k := AnchorEntry(entered, tree, true)], below);
    var wanted := if entered then view[k := tree] else view - {k};
    assert forall q :: Lookup(after, q) == Lookup(wanted, q);
    SameMap(after, wanted);
  }

  lemma NullifierSet(cache: map<Key, NullifierEntry>, below: set<Key>, view: set<Key>, k: Key, e: NullifierEntry)
    requires NullifiersPart(cache, below, view)
    requires !e.isDirty ==> e.entered == (k in below)
    ensures NullifiersPart(cache[k := e], below, if e.entered then view + {k} else view - {k})
  {
  }

  //////////////////////////////////////////////////////////////////////////////
  // Writing one entry of a child into its base
  //////////////////////////////////////////////////////////////////////////////

  function Lookup<K, V>(m: map<K, V>, k: K): Option<V> {
    if k in m then Some(m[k]) else None
  }

  function MergeCoins(us: Option<CoinsEntry>, e: CoinsEntry): Option<CoinsEntry> {
    if !e.isDirty then us
    else if us.None? then
      if e.coins.IsPruned() then None else Some(CoinsEntry(e.coins, true, true))
    else if us.value.isFresh && e.coins.IsPruned() then None
    else Some(CoinsEntry(e.coins, true, us.value.isFresh))
  }

  /** The loop over a child's coins, in any order. */
  method BatchWriteCoins(child: map<Hash, CoinsEntry>, us: map<Hash, CoinsEntry>) returns (after: map<Hash, CoinsEntry>)
    requires forall t :: t in child && t !in us ==> child[t].isFresh
    ensures Merged(MergeCoins, child, us, after)
  {
    var left := child;
    after := us;
    while left != map[]
      invariant left.Keys <= child.Keys && forall k :: k in left ==> left[k] == child[k]
      invariant forall k :: Lookup(after, k) == if k in child && k !in left then MergeCoins(Lookup(us, k), child[k]) else Lookup(us, k)
      decreases |left|
    {
      var t :| t in left;
      var e := left[t];
      assert Lookup(after, t) == Lookup(us, t);
      if e.isDirty {
        if t !in after {
          if !e.coins.IsPruned() {
            assert e.isFresh;
            after := after[t := CoinsEntry(e.coins, true, true)];
          }
        } else if after[t].isFresh && e.coins.IsPruned() {
          after := after - {t};
        } else {
          after := after[t := CoinsEntry(e.coins, true, after[t].isFresh)];
        }
      }
      left := left - {t};
    }
  }

  function MergeAnchor(us: Option<AnchorEntry>, e: AnchorEntry): Option<AnchorEntry> {
    if !e.isDirty then us
    else if us.None? then Some(AnchorEntry(e.entered, e.tree, true))
    else if us.value.entered != e.entered then Some(AnchorEntry(e.entered, us.value.tree, true))
    else us
  }

  method BatchWriteAnchors(child: map<Key, AnchorEntry>, us: map<Key, AnchorEntry>) returns (after: map<Key, AnchorEntry>)
    ensures Merged(MergeAnchor, child, us, after)
  {
    var left := child;
    after := us;
    while left != map[]
      invariant left.Keys <= child.Keys && forall k :: k in left ==> left[k] == child[k]
      invariant forall k :: Lookup(after, k) == if k in child && k !in left then MergeAnchor(Lookup(us, k), child[k]) else Lookup(us, k)
      decreases |left|
    {
      var k :| k in left;
      var e := left[k];
      assert Lookup(after, k) == Lookup(us, k);
      if e.isDirty {
        if k !in after {
          after := after[k := AnchorEntry(e.entered, e.tree, true)];
        } else if after[k].entered != e.entered {
          after := after[k := AnchorEntry(e.entered, after[k].tree, true)];
        }
      }
      left := left - {k};
    }
  }

  function MergeNullifier(us: Option<NullifierEntry>, e: NullifierEntry): Option<NullifierEntry> {
    if !e.isDirty then us
    else if us.None? then Some(NullifierEntry(e.entered, true))
    else if us.value.entered != e.entered then Some(NullifierEntry(e.entered, true))
    else us
  }

  method BatchWriteNullifiers(child: map<Key, NullifierEntry>, us: map<Key, NullifierEntry>) returns (after: map<Key, NullifierEntry>)
    ensures Merged(MergeNullifier, child, us, after)
  {
    var left := child;
    after := us;
    while left != map[]
      invariant left.Keys <= child.Keys && forall k :: k in left ==> left[k] == child[k]
      invariant forall k :: Lookup(after, k) == if k in child && k !in left then MergeNullifier(Lookup(us, k), child[k]) else Lookup(us, k)
      decreases |left|
    {
      var k :| k in left;
      var e := left[k];
      assert Lookup(after, k) == Lookup(us, k);
      if e.isDirty && (k !in after || after[k].entered != e.entered) {
        after := after[k := NullifierEntry(e.entered, true)];
      }
      left := left - {k};
    }
  }

  /** after is us with every entry of child merged in. */
  ghost predicate Merged<K(!new), V(!new)>(merge: (Option<V>, V) -> Option<V>, child: map<K, V>, us: map<K, V>, after: map<K, V>) {
    forall k :: Lookup(after, k) == if k in child then merge(Lookup(us, k), child[k]) else Lookup(us, k)
  }

  //////////////////////////////////////////////////////////////////////////////
  // Flushing is invisible
  //////////////////////////////////////////////////////////////////////////////

  /** The assert in BatchWrite: an unspent entry the base does not hold is FRESH in the child. */
  lemma MovedUpIsFresh(child: map<Hash, CoinsEntry>, us: map<Hash, CoinsEntry>, below: map<Hash, Coins>, t: Hash)
    requires CoinsOk(child, OverCoins(us, below), us.Keys)
    requires t in child && t !in us
    ensures child[t].isFresh
  {
    assert CoinsEntryOk(child[t], t, OverCoins(us, below), us.Keys);
  }

  /** For coins: the base shows after the flush what the child showed before, and keeps its own invariant. */
  lemma FlushCoins(child: map<Hash, CoinsEntry>, us: map<Hash, CoinsEntry>, after: map<Hash, CoinsEntry>,
                   below: map<Hash, Coins>, held: set<Hash>)
    requires CoinsOk(us, below, held) && CoinsOk(child, OverCoins(us, below), us.Keys)
    requires Merged(MergeCoins, child, us, after)
    ensures Unspent(OverCoins(after, below)) == Unspent(OverCoins(child, OverCoins(us, below)))
    ensures CoinsOk(after, below, held)
  {
    var seen := OverCoins(us, below);
    forall t
      ensures Lookup(Unspent(OverCoins(after, below)), t) == Lookup(Unspent(OverCoins(child, seen)), t)
      ensures t in after ==> CoinsEntryOk(after[t], t, below, held)
    {
      FlushOneCoin(child, us, after, below, held, t);
    }
    var a, b := Unspent(OverCoins(after, below)), Unspent(OverCoins(child, seen));
    assert forall t :: Lookup(a, t) == Lookup(b, t);
    SameMap(a, b);
  }

  lemma SameMap<K, V>(a: map<K, V>, b: map<K, V>)
    requires forall k :: k in a.Keys + b.Keys ==> Lookup(a, k) == Lookup(b, k)
    ensures a == b
  {
    assert forall k :: k in a ==> k in b && a[k] == b[k] by {
      forall k | k in a ensures k in b && a[k] == b[k] { assert k in a.Keys + b.Keys; }
    }
    assert forall k :: k in b ==> k in a by {
      forall k | k in b ensures k in a { assert k in a.Keys + b.Keys; }
    }
  }

  lemma FlushOneCoin(child: map<Hash, CoinsEntry>, us: map<Hash, CoinsEntry>, after: map<Hash, CoinsEntry>,
                     below: map<Hash, Coins>, held: set<Hash>, t: Hash)
    requires CoinsOk(us, below, held) && CoinsOk(child, OverCoins(us, below), us.Keys)
    requires Merged(MergeCoins, child, us, after)
    ensures Lookup(Unspent(OverCoins(after, below)), t) == Lookup(Unspent(OverCoins(child, OverCoins(us, below))), t)
    ensures t in after ==> CoinsEntryOk(after[t], t, below, held)
  {
    assert Lookup(after, t) == if t in child then MergeCoins(Lookup(us, t), child[t]) else Lookup(us, t);
    if t in child {
      assert CoinsEntryOk(child[t], t, OverCoins(us, below), us.Keys);
    }
    if t in us {
      assert CoinsEntryOk(us[t], t, below, held);
    }
  }

  lemma FlushAnchors(root: RootOf, child: map<Key, AnchorEntry>, us: map<Key, AnchorEntry>,
                     after: map<Key, AnchorEntry>, below: map<Key, Tree>)
    requires Injective(root) && AnchorsRooted(root, below)
    requires AnchorsOk(root, us, below) && AnchorsOk(root, child, OverAnchors(us, below))
    requires Merged(MergeAnchor, child, us, after)
    ensures OverAnchors(after, below) == OverAnchors(child, OverAnchors(us, below))
    ensures AnchorsOk(root, after, below)
  {
    var a, b := OverAnchors(after, below), OverAnchors(child, OverAnchors(us, below));
    forall k
      ensures Lookup(a, k) == Lookup(b, k)
      ensures k in after ==> root(k.0, after[k].tree) == k.1
                             && (!after[k].isDirty ==> after[k].entered && k in below && below[k] == after[k].tree)
    {
      assert Lookup(after, k) == if k in child then MergeAnchor(Lookup(us, k), child[k]) else Lookup(us, k);
      if k in child && k in us {
        assert root(k.0, child[k].tree) == root(k.0, us[k].tree);
      }
    }
    SameMap(a, b);
  }

  lemma FlushNullifiers(child: map<Key, NullifierEntry>, us: map<Key, NullifierEntry>,
                        after: map<Key, NullifierEntry>, below: set<Key>)
    requires NullifiersOk(us, below) && NullifiersOk(child, OverNullifiers(us, below))
    requires Merged(MergeNullifier, child, us, after)
    ensures OverNullifiers(after, below) == OverNullifiers(child, OverNullifiers(us, below))
    ensures NullifiersOk(after, below)
  {
    var a, b := OverNullifiers(after, below), OverNullifiers(child, OverNullifiers(us, below));
    forall k
      ensures k in a <==> k in b
      ensures k in after && !after[k].isDirty ==> after[k].entered == (k in below)
    {
      assert Lookup(after, k) == if k in child then MergeNullifier(Lookup(us, k), child[k]) else Lookup(us, k);
    }
  }

  //////////////////////////////////////////////////////////////////////////////
  // What the operations do to a view, with spent-out transactions left out
  //////////////////////////////////////////////////////////////////////////////

  function WithCoins(v: View, t: Hash, c: Coins): View {
    v.(coins := if c.IsPruned() then v.coins - {t} else v.coins[t := c.Cleaned()])
  }

  function Pushed(root: RootOf, v: View, y: ShieldedType, tree: Tree): View {
    if v.best.Of(y) == root(y, tree) then v
    else v.(anchors := v.anchors[(y, root(y, tree)) := tree], best := v.best.With(y, root(y, tree)))
  }

  /** The best anchor is in view, or stays the best. */
  predicate CanPop(v: View, y: ShieldedType, newrt: Hash) {
    v.best.Of(y) == newrt || (y, v.best.Of(y)) in v.anchors
  }

  function Popped(v: View, y: ShieldedType, newrt: Hash): View {
    if v.best.Of(y) == newrt then v
    else v.(anchors := v.anchors - {(y, v.best.Of(y))}, best := v.best.With(y, newrt))
  }

  function WithNullifiers(v: View, ks: seq<Key>, spent: bool): View {
    var s := set k | k in ks;
    v.(nullifiers := if spent then v.nullifiers + s else v.nullifiers - s)
  }

  /**
   Disconnecting a block undoes connecting it exactly if its root was the best anchor already,
   or no anchor at all: popping drops an older anchor with the same root.
   */
  lemma PopUndoesPush(root: RootOf, v: View, y: ShieldedType, tree: Tree)
    ensures Popped(Pushed(root, v, y, tree), y, v.best.Of(y)) == v
      <==> v.best.Of(y) == root(y, tree) || (y, root(y, tree)) !in v.anchors
  {
    var k := (y, root(y, tree));
    var w := Popped(Pushed(root, v, y, tree), y, v.best.Of(y));
    if v.best.Of(y) != k.1 {
      assert k !in w.anchors;
      assert k !in v.anchors ==> v.anchors[k := tree] - {k} == v.anchors;
    }
  }

  /** Marking nullifiers unspent undoes marking them spent exactly if none of them was spent before. */
  lemma UnspendUndoesSpend(v: View, ks: seq<Key>)
    ensures WithNullifiers(WithNullifiers(v, ks, true), ks, false) == v <==> forall k :: k in ks ==> k !in v.nullifiers
  {
    var s := set k | k in ks;
    var w := WithNullifiers(WithNullifiers(v, ks, true), ks, false);
    forall k | k in ks ensures k !in w.nullifiers {
      assert k in s;
    }
    if forall k :: k in ks ==> k !in v.nullifiers {
      assert v.nullifiers + s - s == v.nullifiers;
    }
  }

  //////////////////////////////////////////////////////////////////////////////
  // Flushing into the database
  //////////////////////////////////////////////////////////////////////////////

  function DiskCoins(disk: map<Hash, Coins>, cache: map<Hash, CoinsEntry>): map<Hash, Coins> {
    map t | t in disk.Keys + cache.Keys
        && (if t in cache && cache[t].isDirty then !cache[t].coins.IsPruned() else t in disk) ::
      if t in cache && cache[t].isDirty then cache[t].coins else disk[t]
  }

  function DiskAnchors(root: RootOf, disk: map<Key, Tree>, cache: map<Key, AnchorEntry>): map<Key, Tree> {
    map k | k in disk.Keys + cache.Keys
        && (if k in cache && cache[k].isDirty then
              if k.1 == root(k.0, EmptyTree) then cache[k].entered && k in disk else cache[k].entered
            else k in disk) ::
      if k in cache && cache[k].isDirty && k.1 != root(k.0, EmptyTree) then cache[k].tree else disk[k]
  }

  function DiskNullifiers(disk: set<Key>, cache: map<Key, NullifierEntry>): set<Key> {
    set k | k in disk + cache.Keys && (if k in cache && cache[k].isDirty then cache[k].entered else k in disk)
  }

  /** No pool's empty tree has been popped in this cache. */
  ghost predicate EmptyRootsEntered(root: RootOf, cache: map<Key, AnchorEntry>) {
    forall k :: k in cache && k.1 == root(k.0, EmptyTree) ==> cache[k].entered
  }

  lemma DiskFlushCoins(disk: map<Hash, Coins>, cache: map<Hash, CoinsEntry>, view: map<Hash, Coins>, held: set<Hash>)
    requires CoinsPart(cache, disk, held, view)
    ensures Unspent(DiskCoins(disk, cache)) == Unspent(view)
    ensures CoinsClean(DiskCoins(disk, cache))
  {
    var after := DiskCoins(disk, cache);
    forall t ensures Lookup(Unspent(after), t) == Lookup(Unspent(view), t) && (t in after ==> after[t].IsClean()) {
      if t in cache {
        assert CoinsEntryOk(cache[t], t, disk, held);
      }
    }
    SameMap(Unspent(after), Unspent(view));
  }

  lemma EmptyAnchorsAt(root: RootOf, k: Key)
    ensures k in EmptyAnchors(root) <==> k.1 == root(k.0, EmptyTree)
    ensures k in EmptyAnchors(root) ==> EmptyAnchors(root)[k] == EmptyTree
  {
    assert k == (k.0, k.1) && (k.0 == Sprout || k.0 == Sapling);
  }

  /** The database cannot forget the empty tree: flushing anchors is invisible exactly if nobody popped it. */
  lemma DiskFlushAnchors(root: RootOf, disk: map<Key, Tree>, cache: map<Key, AnchorEntry>, view: map<Key, Tree>)
    requires Injective(root) && AnchorsPart(root, cache, disk + EmptyAnchors(root), view)
    ensures DiskAnchors(root, disk, cache) + EmptyAnchors(root) == view <==> EmptyRootsEntered(root, cache)
    ensures AnchorsRooted(root, DiskAnchors(root, disk, cache) + EmptyAnchors(root))
  {
    var after := DiskAnchors(root, disk, cache) + EmptyAnchors(root);
    forall k: Key
      ensures k.1 != root(k.0, EmptyTree) ==> Lookup(after, k) == Lookup(view, k)
      ensures k.1 == root(k.0, EmptyTree) ==>
                Lookup(after, k) == Some(EmptyTree) && Lookup(view, k) == if k in cache && !cache[k].entered then None else Some(EmptyTree)
      ensures k in after ==> root(k.0, after[k]) == k.1
    {
      EmptyAnchorsAt(root, k);
      if k in cache && k.1 == root(k.0, EmptyTree) {
        assert cache[k].tree == EmptyTree;
      }
    }
    if EmptyRootsEntered(root, cache) {
      SameMap(after, view);
    } else {
      var k :| k in cache && k.1 == root(k.0, EmptyTree) && !cache[k].entered;
      assert Lookup(after, k) != Lookup(view, k);
    }
  }

  lemma DiskFlushNullifiers(disk: set<Key>, cache: map<Key, NullifierEntry>, view: set<Key>)
    requires NullifiersPart(cache, disk, view)
    ensures DiskNullifiers(disk, cache) == view
  {
  }

  /** The database after it has taken over a cache's entries and best hashes. */
  function DiskWritten(root: RootOf, d: Disk, coins: map<Hash, CoinsEntry>, anchors: map<Key, AnchorEntry>,
                       nullifiers: map<Key, NullifierEntry>, block: Hash, best: Best): Disk
  {
    Disk(DiskCoins(d.coins, coins), DiskAnchors(root, d.anchors, anchors), DiskNullifiers(d.nullifiers, nullifiers),
         if block == NULL then d.block else block,
         Best(if best.sprout == NULL then d.best.sprout else best.sprout,
              if best.sapling == NULL then d.best.sapling else best.sapling))
  }

  lemma FlushDisk(root: RootOf, d: Disk, coins: map<Hash, CoinsEntry>, anchors: map<Key, AnchorEntry>,
                  nullifiers: map<Key, NullifierEntry>, block: Hash, best: Best, held: set<Hash>, view: View)
    requires Injective(root)
    requires CoinsPart(coins, d.coins, held, view.coins)
    requires AnchorsPart(root, anchors, DiskView(root, d).anchors, view.anchors)
    requires NullifiersPart(nullifiers, d.nullifiers, view.nullifiers)
    ensures var after := DiskView(root, DiskWritten(root, d, coins, anchors, nullifiers, block, best));
      && CoinsClean(after.coins) && AnchorsRooted(root, after.anchors)
      && Unspent(after.coins) == Unspent(view.coins)
      && after.nullifiers == view.nullifiers
      && (after.anchors == view.anchors <==> EmptyRootsEntered(root, anchors))
      && after.block == OverHash(block, DiskView(root, d).block)
      && after.best == OverBest(best, DiskView(root, d).best)
  {
    DiskFlushCoins(d.coins, coins, view.coins, held);
    DiskFlushAnchors(root, d.anchors, anchors, view.anchors);
    DiskFlushNullifiers(d.nullifiers, nullifiers, view.nullifiers);
  }
}
