module CoinsCache {
  // The write-back cache over the UTXO set, the anchors and the nullifiers. Caches stack:
  // the base of a cache is another cache or, at the bottom, the database.

  import opened Coins
  import opened CoinsLayer

  /** The three hashes that a cache looks up when they are first asked for. */
  datatype Part = Block | Anchor(y: ShieldedType)

  class CoinsViewCache {
    const root: RootOf
    const base: CoinsViewCache?       // null: the database is the base
    ghost const Repr: set<object>     // this cache and every cache below it

    ghost var view: View              // what can be read through this cache
    ghost var below: View             // what can be read through its base
    ghost var held: set<Hash>         // transactions the base itself holds an entry for

    var disk: Disk                    // the database, for the cache at the bottom
    var hasModifier: bool
    var hashBlock: Hash
    var hashAnchor: Best
    var cacheCoins: map<Hash, CoinsEntry>
    var cacheAnchors: map<Key, AnchorEntry>
    var cacheNullifiers: map<Key, NullifierEntry>

    ghost predicate Valid()
      reads this, Repr
      decreases Repr
    {
      && BaseValid()
      && Injective(root) && NeverNull(root)
      && CoinsPart(cacheCoins, below.coins, held, view.coins)
      && AnchorsPart(root, cacheAnchors, below.anchors, view.anchors)
      && NullifiersPart(cacheNullifiers, below.nullifiers, view.nullifiers)
      && view.block == OverHash(hashBlock, below.block)
      && view.best == OverBest(hashAnchor, below.best)
    }

    ghost predicate BaseValid()
      reads this, Repr
      decreases Repr, 0
    {
      && this in Repr
      && if base == null then below == DiskView(root, disk) && held == disk.coins.Keys
         else && base in Repr && base.Repr <= Repr && this !in base.Repr
              && base.root == root && base.Valid()
              && below == base.view && held <= base.cacheCoins.Keys
    }

    /** The view with transactions that have nothing unspent left out. */
    ghost function Shown(): View
      reads this
    {
      ShownOf(view)
    }

    /** Everything below shows what it showed, and has the same modifier flag. */
    twostate predicate BaseKept()
      reads this, base
    {
      below == old(below) && (base != null ==> base.hasModifier == old(base.hasModifier))
    }

    /** Reading may fill caches, but changes nothing that can be read. */
    twostate predicate ReadOnly()
      reads this, base, Repr
    {
      && Valid() && view == old(view) && BaseKept()
      && old(cacheCoins.Keys) <= cacheCoins.Keys
      && hasModifier == old(hasModifier)
      && (hashBlock == old(hashBlock) || hashBlock == view.block)
      && (hashAnchor.sprout == old(hashAnchor).sprout || hashAnchor.sprout == view.best.sprout)
      && (hashAnchor.sapling == old(hashAnchor).sapling || hashAnchor.sapling == view.best.sapling)
    }

    constructor OnDisk(root: RootOf, disk: Disk)
      requires Injective(root) && NeverNull(root)
      requires CoinsClean(disk.coins) && AnchorsRooted(root, disk.anchors)
      ensures Valid() && base == null && this.root == root && this.disk == disk && Repr == {this}
      ensures !hasModifier && view == DiskView(root, disk)
    {
      this.root, this.base, this.Repr, this.disk := root, null, {this}, disk;
      hasModifier, hashBlock, hashAnchor := false, NULL, Best(NULL, NULL);
      cacheCoins, cacheAnchors, cacheNullifiers := map[], map[], map[];
      view, below, held := DiskView(root, disk), DiskView(root, disk), disk.coins.Keys;
      DiskRooted(root, disk);
      EmptyParts(root, DiskView(root, disk), disk.coins.Keys);
    }

    constructor OnCache(base: CoinsViewCache)
      requires base.Valid()
      ensures Valid() && this.base == base && root == base.root && Repr == {this} + base.Repr
      ensures !hasModifier && view == base.view
    {
      this.root, this.base, this.Repr, this.disk := base.root, base, {this} + base.Repr, base.disk;
      hasModifier, hashBlock, hashAnchor := false, NULL, Best(NULL, NULL);
      cacheCoins, cacheAnchors, cacheNullifiers := map[], map[], map[];
      view, below, held := base.view, base.view, {};
      base.ViewSound();
      EmptyParts(base.root, base.view, {});
    }

    /** Whatever can be read is clean, and rooted where it was looked up. */
    lemma ViewSound()
      requires Valid()
      ensures CoinsClean(view.coins) && AnchorsRooted(root, view.anchors)
    {
      assert forall t :: t in cacheCoins ==> CoinsEntryOk(cacheCoins[t], t, below.coins, held);
    }

    lemma HashesOver()
      requires Valid()
      ensures view.block == OverHash(hashBlock, below.block) && view.best == OverBest(hashAnchor, below.best)
    {
    }

    //////////////////////////////////////////////////////////////////////////////
    // Reading
    //////////////////////////////////////////////////////////////////////////////

    method BaseGetCoins(txid: Hash) returns (found: bool, coins: Coins)
      requires Valid()
      modifies Repr - {this}, this`held
      ensures Valid() && BaseKept() && old(held) <= held
      ensures found == (txid in below.coins) && (found ==> coins == below.coins[txid] && txid in held)
      decreases Repr, 0
    {
      if base != null {
        found, coins := base.GetCoins(txid);
        held := base.cacheCoins.Keys;
      } else {
        found := txid in disk.coins;
        coins := if found then disk.coins[txid] else EmptyCoins;
      }
    }

    method FetchCoins(txid: Hash) returns (found: bool)
      requires Valid()
      modifies Repr
      ensures ReadOnly()
      ensures found == (txid in view.coins) && (found ==> txid in cacheCoins && cacheCoins[txid].coins == view.coins[txid])
      decreases Repr, 1
    {
      if txid in cacheCoins {
        return true;
      }
      var tmp;
      found, tmp := BaseGetCoins(txid);
      if found {
        Fetched(cacheCoins, below.coins, held, view.coins, txid);
        cacheCoins := cacheCoins[txid := CoinsEntry(tmp, false, tmp.IsPruned())];
      }
    }

    method GetCoins(txid: Hash) returns (found: bool, coins: Coins)
      requires Valid()
      modifies Repr
      ensures ReadOnly()
      ensures found == (txid in view.coins) && (found ==> coins == view.coins[txid] && txid in cacheCoins)
      decreases Repr, 2
    {
      found := FetchCoins(txid);
      coins := if found then cacheCoins[txid].coins else EmptyCoins;
    }

    /** Whether any output of the transaction is unspent. */
    method HaveCoins(txid: Hash) returns (have: bool)
      requires Valid()
      modifies Repr
      ensures ReadOnly()
      ensures have == (txid in Shown().coins)
    {
      ViewSound();
      have := FetchCoins(txid);
      if have {
        have := cacheCoins[txid].coins.vout != [];
        CleanedExact(cacheCoins[txid].coins);
      }
    }

    /** Whether every output asked for is unspent. */
    method HaveInputs(prevouts: seq<(Hash, nat)>) returns (have: bool)
      requires Valid()
      modifies Repr
      ensures ReadOnly()
      ensures have == forall i :: 0 <= i < |prevouts| ==>
                prevouts[i].0 in view.coins && view.coins[prevouts[i].0].IsAvailable(prevouts[i].1)
    {
      for i := 0 to |prevouts|
        invariant ReadOnly()
        invariant forall j :: 0 <= j < i ==>
                    prevouts[j].0 in view.coins && view.coins[prevouts[j].0].IsAvailable(prevouts[j].1)
      {
        var found, coins := GetCoins(prevouts[i].0);
        if !found || !coins.IsAvailable(prevouts[i].1) {
          return false;
        }
      }
      have := true;
    }

    method BaseGetAnchorAt(k: Key) returns (found: bool, tree: Tree)
      requires Valid()
      modifies Repr - {this}
      ensures Valid() && BaseKept()
      ensures found == (k in below.anchors) && (found ==> tree == below.anchors[k])
      decreases Repr, 0
    {
      if base != null {
        found, tree := base.GetAnchorAt(k.0, k.1);
      } else {
        var stored := disk.anchors + EmptyAnchors(root);
        found := k in stored;
        tree := if found then stored[k] else EmptyTree;
      }
    }

    method GetAnchorAt(y: ShieldedType, rt: Hash) returns (found: bool, tree: Tree)
      requires Valid()
      modifies Repr
      ensures ReadOnly()
      ensures found == ((y, rt) in view.anchors) && (found ==> tree == view.anchors[(y, rt)])
      ensures found ==> (y, rt) in cacheAnchors && cacheAnchors[(y, rt)].tree == tree
      ensures hashBlock == old(hashBlock) && hashAnchor == old(hashAnchor)
      decreases Repr, 1
    {
      var k := (y, rt);
      if k in cacheAnchors {
        return cacheAnchors[k].entered, cacheAnchors[k].tree;
      }
      found, tree := BaseGetAnchorAt(k);
      if found {
        AnchorFetched(root, cacheAnchors, below.anchors, view.anchors, k);
        cacheAnchors := cacheAnchors[k := AnchorEntry(true, tree, false)];
      }
    }

    method GetNullifier(k: Key) returns (spent: bool)
      requires Valid()
      modifies Repr
      ensures ReadOnly()
      ensures spent == (k in view.nullifiers)
      ensures k in cacheNullifiers && cacheNullifiers[k].entered == spent
      decreases Repr
    {
      if k in cacheNullifiers {
        return cacheNullifiers[k].entered;
      }
      if base != null {
        spent := base.GetNullifier(k);
      } else {
        spent := k in disk.nullifiers;
      }
      NullifierSet(cacheNullifiers, below.nullifiers, view.nullifiers, k, NullifierEntry(spent, false));
      cacheNullifiers := cacheNullifiers[k := NullifierEntry(spent, false)];
    }

    method GetBestBlock() returns (h: Hash)
      requires Valid()
      modifies Repr
      ensures ReadOnly()
      ensures h == view.block == hashBlock
      decreases Repr
    {
      if hashBlock == NULL {
        if base != null {
          hashBlock := base.GetBestBlock();
        } else {
          hashBlock := disk.block;
        }
      }
      h := hashBlock;
    }

    method GetBestAnchor(y: ShieldedType) returns (h: Hash)
      requires Valid()
      modifies Repr
      ensures ReadOnly()
      ensures h == view.best.Of(y) && hashAnchor == old(hashAnchor).With(y, h) && hashBlock == old(hashBlock)
      decreases Repr
    {
      if hashAnchor.Of(y) == NULL {
        if base != null {
          h := base.GetBestAnchor(y);
        } else {
          h := DiskView(root, disk).best.Of(y);
        }
        hashAnchor := hashAnchor.With(y, h);
      }
      h := hashAnchor.Of(y);
    }

    //////////////////////////////////////////////////////////////////////////////
    // Changing
    //////////////////////////////////////////////////////////////////////////////

    /** Hands out the current coins for modification. */
    method ModifyCoins(txid: Hash) returns (coins: Coins)
      requires Valid() && !hasModifier
      modifies Repr
      ensures Valid() && hasModifier && Shown() == old(Shown()) && BaseKept()
      ensures hashBlock == old(hashBlock) && hashAnchor == old(hashAnchor)
      ensures txid in cacheCoins && cacheCoins[txid].isDirty
      ensures if txid in old(view.coins) then coins == old(view.coins)[txid] else coins == Coins(false, [], 0, 0)
    {
      var e;
      if txid in cacheCoins {
        e := cacheCoins[txid];
        assert CoinsEntryOk(e, txid, below.coins, held);
      } else {
        var found, c := BaseGetCoins(txid);
        e := if !found then CoinsEntry(EmptyCoins, false, true) else CoinsEntry(c, false, c.IsPruned());
      }
      coins := e.coins;
      SameCoinsShow(view, txid, coins);
      PutCoins(txid, e.(isDirty := true), true);
    }

    /** As ModifyCoins, for a transaction the caller knows to have nothing unspent below. */
    method ModifyNewCoins(txid: Hash)
      requires Valid() && !hasModifier && !Has(below.coins, txid)
      modifies this`cacheCoins, this`view, this`hasModifier
      ensures Valid() && hasModifier && Shown() == WithCoins(old(Shown()), txid, Coins(false, [], 0, 0)) && BaseKept()
      ensures txid in cacheCoins && cacheCoins[txid].isDirty
    {
      PutCoins(txid, CoinsEntry(EmptyCoins, true, true), true);
    }

    method PutCoins(txid: Hash, e: CoinsEntry, modifying: bool)
      requires Valid() && CoinsEntryOk(e, txid, below.coins, held)
      modifies this`cacheCoins, this`view, this`hasModifier
      ensures Valid() && cacheCoins == old(cacheCoins)[txid := e] && hasModifier == modifying
      ensures Shown() == WithCoins(old(Shown()), txid, e.coins)
    {
      Replaced(cacheCoins, below.coins, held, view.coins, txid, e);
      ReplacedShows(view, txid, e.coins);
      AssignCoins(cacheCoins[txid := e], view.(coins := view.coins[txid := e.coins]), modifying);
    }

    /** The assignments themselves, once the new entries are known to fit the base. */
    method AssignCoins(m: map<Hash, CoinsEntry>, ghost v: View, modifying: bool)
      requires Valid() && CoinsPart(m, below.coins, held, v.coins) && v == view.(coins := v.coins)
      modifies this`cacheCoins, this`view, this`hasModifier
      ensures Valid() && cacheCoins == m && view == v && hasModifier == modifying
    {
      cacheCoins, view, hasModifier := m, v, modifying;
    }

    method DropCoins(txid: Hash)
      requires Valid() && txid in cacheCoins && cacheCoins[txid].isFresh
      modifies this`cacheCoins, this`view, this`hasModifier
      ensures Valid() && cacheCoins == old(cacheCoins) - {txid} && !hasModifier
      ensures Shown() == old(Shown()).(coins := old(Shown()).coins - {txid})
    {
      Dropped(cacheCoins, below.coins, held, view, txid);
      AssignCoins(cacheCoins - {txid}, view.(coins := OverCoins(cacheCoins - {txid}, below.coins)), false);
    }

    /** The modifier's destructor: coins is the entry as the holder of the modifier left it. */
    method EndModify(txid: Hash, coins: Coins)
      requires Valid() && hasModifier && txid in cacheCoins && cacheCoins[txid].isDirty
      modifies this`cacheCoins, this`view, this`hasModifier
      ensures Valid() && !hasModifier && BaseKept()
      ensures Shown() == WithCoins(old(Shown()), txid, coins)
    {
      var vout := Cleanup(coins.vout);
      var c := coins.(vout := vout);
      CleanedExact(coins);
      CleanedExact(c);
      var e := cacheCoins[txid].(coins := c);
      assert CoinsEntryOk(cacheCoins[txid], txid, below.coins, held);
      if e.isFresh && c.IsPruned() {
        DropCoins(txid);
      } else {
        PutCoins(txid, e, false);
      }
    }

    method PushAnchor(y: ShieldedType, tree: Tree)
      requires Valid()
      modifies Repr
      ensures Valid() && Shown() == Pushed(root, old(Shown()), y, tree)
      ensures hashBlock == old(hashBlock) && hashAnchor == old(hashAnchor).With(y, view.best.Of(y))
      ensures hasModifier == old(hasModifier) && BaseKept()
    {
      var newrt := root(y, tree);
      var currentRoot := GetBestAnchor(y);
      if currentRoot != newrt {
        PutAnchor((y, newrt), AnchorEntry(true, tree, true), newrt);
      }
    }

    /** Takes the current best anchor out of view; the assert fires, and ok is false, if it is not in view. */
    method PopAnchor(y: ShieldedType, newrt: Hash) returns (ok: bool)
      requires Valid()
      modifies Repr
      ensures Valid() && ok == CanPop(old(view), y, newrt)
      ensures hashBlock == old(hashBlock) && (ok ==> hashAnchor == old(hashAnchor).With(y, newrt))
      ensures Shown() == if ok then Popped(old(Shown()), y, newrt).(best := old(view).best.With(y, OverHash(newrt, below.best.Of(y))))
                         else old(Shown())
      ensures hasModifier == old(hasModifier) && BaseKept()
    {
      var currentRoot := GetBestAnchor(y);
      ok := true;
      if currentRoot != newrt {
        var tree;
        ok, tree := GetAnchorAt(y, currentRoot);
        if ok {
          PutAnchor((y, currentRoot), cacheAnchors[(y, currentRoot)].(entered := false, isDirty := true), newrt);
        }
      }
    }

    method PutAnchor(k: Key, e: AnchorEntry, newrt: Hash)
      requires Valid() && root(k.0, e.tree) == k.1 && e.isDirty
      modifies this`cacheAnchors, this`view, this`hashAnchor
      ensures Valid() && cacheAnchors == old(cacheAnchors)[k := e] && hashAnchor == old(hashAnchor).With(k.0, newrt)
      ensures view == old(view).(
                anchors := if e.entered then old(view).anchors[k := e.tree] else old(view).anchors - {k},
                best := old(view).best.With(k.0, OverHash(newrt, below.best.Of(k.0))))
    {
      hide CoinsPart, AnchorsPart, NullifiersPart, Injective, NeverNull, DiskView;
      AnchorReplaced(root, cacheAnchors, below.anchors, view.anchors, k, e.entered, e.tree);
      cacheAnchors := cacheAnchors[k := e];
      hashAnchor := hashAnchor.With(k.0, newrt);
      view := view.(anchors := if e.entered then view.anchors[k := e.tree] else view.anchors - {k},
                    best := view.best.With(k.0, OverHash(newrt, below.best.Of(k.0))));
    }

    /** Marks the nullifiers of a transaction, of both pools, as spent or not. */
    method SetNullifiers(ks: seq<Key>, spent: bool)
      requires Valid()
      modifies this`cacheNullifiers, this`view
      ensures Valid() && Shown() == WithNullifiers(old(Shown()), ks, spent)
    {
      hide CoinsPart, AnchorsPart, NullifiersPart, Injective, NeverNull, DiskView;
      for i := 0 to |ks|
        invariant Valid() && view == WithNullifiers(old(view), ks[..i], spent)
      {
        NullifierSet(cacheNullifiers, below.nullifiers, view.nullifiers, ks[i], NullifierEntry(spent, true));
        cacheNullifiers := cacheNullifiers[ks[i] := NullifierEntry(spent, true)];
        view := view.(nullifiers := if spent then view.nullifiers + {ks[i]} else view.nullifiers - {ks[i]});
        assert ks[..i + 1] == ks[..i] + [ks[i]];
      }
      assert ks[..|ks|] == ks;
    }

    method SetBestBlock(h: Hash)
      requires Valid()
      modifies this`hashBlock, this`view
      ensures Valid() && Shown() == old(Shown()).(block := OverHash(h, below.block)) && hashBlock == h
    {
      hashBlock := h;
      view := view.(block := OverHash(h, below.block));
    }

    //////////////////////////////////////////////////////////////////////////////
    // Flushing
    //////////////////////////////////////////////////////////////////////////////

    /** Takes over the entries and the best hashes of a child. */
    method BatchWrite(mapCoins: map<Hash, CoinsEntry>, hashBlockIn: Hash, hashAnchorIn: Best,
                      mapAnchors: map<Key, AnchorEntry>, mapNullifiers: map<Key, NullifierEntry>)
      requires Valid() && !hasModifier
      requires CoinsOk(mapCoins, view.coins, cacheCoins.Keys)
      requires AnchorsOk(root, mapAnchors, view.anchors)
      requires NullifiersOk(mapNullifiers, view.nullifiers)
      modifies this
      ensures Valid() && !hasModifier && below == old(below)
      ensures Unspent(view.coins) == Unspent(OverCoins(mapCoins, old(view.coins)))
      ensures view.anchors == OverAnchors(mapAnchors, old(view.anchors))
      ensures view.nullifiers == OverNullifiers(mapNullifiers, old(view.nullifiers))
      ensures view.block == OverHash(hashBlockIn, below.block) && view.best == OverBest(hashAnchorIn, below.best)
    {
      forall t | t in mapCoins && t !in cacheCoins ensures mapCoins[t].isFresh {
        MovedUpIsFresh(mapCoins, cacheCoins, below.coins, t);
      }
      var coins := BatchWriteCoins(mapCoins, cacheCoins);
      FlushCoins(mapCoins, cacheCoins, coins, below.coins, held);
      var anchors := BatchWriteAnchors(mapAnchors, cacheAnchors);
      FlushAnchors(root, mapAnchors, cacheAnchors, anchors, below.anchors);
      var nullifiers := BatchWriteNullifiers(mapNullifiers, cacheNullifiers);
      FlushNullifiers(mapNullifiers, cacheNullifiers, nullifiers, below.nullifiers);
      Assign(coins, anchors, nullifiers, hashBlockIn, hashAnchorIn);
    }

    method Assign(coins: map<Hash, CoinsEntry>, anchors: map<Key, AnchorEntry>, nullifiers: map<Key, NullifierEntry>,
                  block: Hash, best: Best)
      requires Valid()
      requires CoinsOk(coins, below.coins, held) && AnchorsOk(root, anchors, below.anchors) && NullifiersOk(nullifiers, below.nullifiers)
      modifies this`cacheCoins, this`cacheAnchors, this`cacheNullifiers, this`hashBlock, this`hashAnchor, this`view
      ensures Valid() && cacheCoins == coins && cacheAnchors == anchors && cacheNullifiers == nullifiers
      ensures hashBlock == block && hashAnchor == best
    {
      hide CoinsOk, AnchorsOk, NullifiersOk, CoinsClean, AnchorsRooted, OverCoins, OverAnchors, OverNullifiers, Injective, NeverNull, DiskView;
      cacheCoins, cacheAnchors, cacheNullifiers, hashBlock, hashAnchor := coins, anchors, nullifiers, block, best;
      view := View(OverCoins(coins, below.coins), OverAnchors(anchors, below.anchors), OverNullifiers(nullifiers, below.nullifiers),
                   OverHash(block, below.block), OverBest(best, below.best));
    }

    /** Empties the maps; the best hashes stay. */
    method Clear()
      requires BaseValid() && Injective(root) && NeverNull(root)
      requires CoinsClean(below.coins) && AnchorsRooted(root, below.anchors)
      modifies this`cacheCoins, this`cacheAnchors, this`cacheNullifiers, this`view
      ensures Valid() && cacheCoins == map[] && cacheAnchors == map[] && cacheNullifiers == map[]
      ensures view == below.(block := OverHash(hashBlock, below.block), best := OverBest(hashAnchor, below.best))
    {
      EmptyParts(root, below, held);
      cacheCoins, cacheAnchors, cacheNullifiers := map[], map[], map[];
      view := below.(block := OverHash(hashBlock, below.block), best := OverBest(hashAnchor, below.best));
    }

    /** A best hash has been set or looked up; a null one may also be all there is. */
    ghost predicate Settled(part: Part)
      reads this
    {
      match part
      case Block => hashBlock != NULL || view.block == NULL
      case Anchor(y) => hashAnchor.Of(y) != NULL || view.best.Of(y) == NULL
    }

    /** What Flush leaves in the base, told from the state before. */
    twostate predicate Flushed()
      reads this
    {
      && Unspent(below.coins) == old(Unspent(view.coins))
      && below.nullifiers == old(view.nullifiers)
      && (below.anchors == old(view.anchors) <==> base != null || old(EmptyRootsEntered(root, cacheAnchors)))
      && cacheCoins == map[] && cacheAnchors == map[] && cacheNullifiers == map[]
      && hashBlock == old(hashBlock) && hashAnchor == old(hashAnchor)
      && view == below.(block := OverHash(hashBlock, below.block), best := OverBest(hashAnchor, below.best))
    }

    method FlushToBase()
      requires Valid() && !hasModifier && base != null && !base.hasModifier
      modifies this, base
      ensures Valid() && Flushed() && !hasModifier && !base.hasModifier && base.below == old(base.below)
      ensures below.block == OverHash(hashBlock, base.below.block) && below.best == OverBest(hashAnchor, base.below.best)
    {
      assert CoinsOk(cacheCoins, base.view.coins, base.cacheCoins.Keys);
      base.BatchWrite(cacheCoins, hashBlock, hashAnchor, cacheAnchors, cacheNullifiers);
      base.ViewSound();
      below, held := base.view, base.cacheCoins.Keys;
      Clear();
    }

    method FlushToDisk()
      requires Valid() && !hasModifier && base == null
      modifies this
      ensures Valid() && Flushed() && !hasModifier
      ensures below.block == OverHash(hashBlock, old(below).block) && below.best == OverBest(hashAnchor, old(below).best)
    {
      hide CoinsPart, AnchorsPart, NullifiersPart, Injective, NeverNull, DiskView, Unspent, CoinsClean, AnchorsRooted;
      WriteDisk();
      Clear();
    }

    method WriteDisk()
      requires Valid() && base == null
      modifies this`disk, this`below, this`held
      ensures BaseValid() && CoinsClean(below.coins) && AnchorsRooted(root, below.anchors)
      ensures Unspent(below.coins) == Unspent(view.coins) && below.nullifiers == view.nullifiers
      ensures below.anchors == view.anchors <==> EmptyRootsEntered(root, cacheAnchors)
      ensures below.block == OverHash(hashBlock, old(below).block) && below.best == OverBest(hashAnchor, old(below).best)
    {
      hide Injective, NeverNull;
      FlushDisk(root, disk, cacheCoins, cacheAnchors, cacheNullifiers, hashBlock, hashAnchor, held, view);
      disk := DiskWritten(root, disk, cacheCoins, cacheAnchors, cacheNullifiers, hashBlock, hashAnchor);
      below, held := DiskView(root, disk), disk.coins.Keys;
    }

    /**
     Flushing is invisible: with the best hashes resolved, what the base shows afterwards is
     what this cache showed before, and this cache still shows it. Only the database has an
     exception: it cannot forget a popped empty tree.
     */
    method Flush()
      requires Valid() && !hasModifier && (base != null ==> !base.hasModifier)
      modifies this, base
      ensures Valid() && Flushed()
      ensures below.block == old(view).block <==>
                old(hashBlock) != NULL || base == null || base.below.block == old(below).block
      ensures forall y :: below.best.Of(y) == old(view).best.Of(y) <==>
                old(hashAnchor).Of(y) != NULL || base == null || base.below.best.Of(y) == old(below).best.Of(y)
      ensures (forall part :: old(Settled(part))) && (base == null ==> old(EmptyRootsEntered(root, cacheAnchors))) ==>
                ShownOf(below) == old(Shown()) && Shown() == old(Shown())
    {
      ghost var settled := forall part :: Settled(part);
      if base != null {
        base.HashesOver();
      }
      assert settled ==> Settled(Block) && Settled(Anchor(Sprout)) && Settled(Anchor(Sapling));
      if base != null {
        FlushToBase();
      } else {
        FlushToDisk();
      }
      forall y ensures below.best.Of(y) == old(view).best.Of(y) <==>
                old(hashAnchor).Of(y) != NULL || base == null || base.below.best.Of(y) == old(below).best.Of(y) {
      }
    }
  }

  //////////////////////////////////////////////////////////////////////////////
  // Every run of operations
  //////////////////////////////////////////////////////////////////////////////

  datatype Op =
    | Write(txid: Hash, coins: Coins)       // ModifyCoins, then the modifier's destructor
    | WriteNew(txid: Hash, coins: Coins)    // ModifyNewCoins, then the modifier's destructor
    | Push(y: ShieldedType, tree: Tree)
    | Pop(y: ShieldedType, rt: Hash)
    | Nullify(ks: seq<Key>, spent: bool)
    | BestBlock(h: Hash)
    | ReadCoins(txid: Hash)
    | ReadAnchor(y: ShieldedType, rt: Hash)
    | ReadNullifier(k: Key)
    | ReadHave(txid: Hash)
    | ReadInputs(prevouts: seq<(Hash, nat)>)
    | ReadBlock
    | ReadBest(y: ShieldedType)
  {
    predicate IsRead() {
      ReadCoins? || ReadAnchor? || ReadNullifier? || ReadHave? || ReadInputs? || ReadBlock? || ReadBest?
    }
  }

  function Effect(root: RootOf, v: View, op: Op): View {
    match op
    case Write(t, c) => WithCoins(v, t, c)
    case WriteNew(t, c) => WithCoins(v, t, c)
    case Push(y, tree) => Pushed(root, v, y, tree)
    case Pop(y, rt) => Popped(v, y, rt)
    case Nullify(ks, spent) => WithNullifiers(v, ks, spent)
    case BestBlock(h) => v.(block := h)
    case _ => v
  }

  /** What the operations ask of their caller, given what is shown and what the base shows. */
  ghost predicate Allowed(v: View, below: View, op: Op) {
    match op
    case WriteNew(t, c) => !Has(below.coins, t)
    case Pop(y, rt) => rt != NULL && CanPop(v, y, rt)
    case BestBlock(h) => h != NULL
    case _ => true
  }

  /** The operations that set or look up a best hash. */
  predicate Resolves(op: Op, part: Part) {
    match part
    case Block => op.BestBlock? || op.ReadBlock?
    case Anchor(y) => (op.Push? || op.Pop? || op.ReadBest?) && op.y == y
  }

  ghost predicate ResolvedBy(ops: seq<Op>, part: Part) {
    exists i :: 0 <= i < |ops| && Resolves(ops[i], part)
  }

  function EffectAll(root: RootOf, v: View, ops: seq<Op>): View
    decreases |ops|
  {
    if ops == [] then v else EffectAll(root, Effect(root, v, ops[0]), ops[1..])
  }

  ghost predicate AllAllowed(root: RootOf, v: View, below: View, ops: seq<Op>)
    decreases |ops|
  {
    ops != [] ==> Allowed(v, below, ops[0]) && AllAllowed(root, Effect(root, v, ops[0]), below, ops[1..])
  }

  method RunRead(c: CoinsViewCache, op: Op)
    requires c.Valid() && op.IsRead()
    modifies c.Repr
    ensures c.ReadOnly() && forall part :: Resolves(op, part) ==> c.Settled(part)
  {
    hide CoinsPart, AnchorsPart, NullifiersPart, Injective, NeverNull, DiskView;
    match op
    case ReadCoins(t) => var _, _ := c.GetCoins(t);
    case ReadAnchor(y, rt) => var _, _ := c.GetAnchorAt(y, rt);
    case ReadNullifier(k) => var _ := c.GetNullifier(k);
    case ReadHave(t) => var _ := c.HaveCoins(t);
    case ReadInputs(prevouts) => var _ := c.HaveInputs(prevouts);
    case ReadBlock => var _ := c.GetBestBlock();
    case ReadBest(y) => var _ := c.GetBestAnchor(y);
  }

  method RunWrite(c: CoinsViewCache, t: Hash, coins: Coins, isNew: bool)
    requires c.Valid() && !c.hasModifier && (isNew ==> !Has(c.below.coins, t))
    modifies c.Repr
    ensures c.Valid() && !c.hasModifier && c.BaseKept() && c.Shown() == WithCoins(old(c.Shown()), t, coins)
    ensures c.hashBlock == old(c.hashBlock) && c.hashAnchor == old(c.hashAnchor)
  {
    hide CoinsPart, AnchorsPart, NullifiersPart, Injective, NeverNull, DiskView;
    if isNew {
      c.ModifyNewCoins(t);
      WithCoinsTwice(old(c.Shown()), t, EmptyCoins, coins);
    } else {
      var _ := c.ModifyCoins(t);
    }
    c.EndModify(t, coins);
  }

  method RunOne(c: CoinsViewCache, op: Op)
    requires c.Valid() && !c.hasModifier && Allowed(c.Shown(), c.below, op)
    modifies c.Repr
    ensures c.Valid() && !c.hasModifier && c.BaseKept()
    ensures c.Shown() == Effect(c.root, old(c.Shown()), op)
    ensures forall part :: old(c.Settled(part)) || Resolves(op, part) ==> c.Settled(part)
  {
    hide CoinsPart, AnchorsPart, NullifiersPart, Injective, NeverNull, DiskView;
    match op
    case Write(t, coins) => RunWrite(c, t, coins, false);
    case WriteNew(t, coins) => RunWrite(c, t, coins, true);
    case Push(y, tree) => c.PushAnchor(y, tree);
    case Pop(y, rt) => var _ := c.PopAnchor(y, rt);
    case Nullify(ks, spent) => c.SetNullifiers(ks, spent);
    case BestBlock(h) => c.SetBestBlock(h);
    case _ => RunRead(c, op);
  }

  lemma WithCoinsTwice(v: View, t: Hash, c: Coins, d: Coins)
    ensures WithCoins(WithCoins(v, t, c), t, d) == WithCoins(v, t, d)
  {
    var a, b := WithCoins(WithCoins(v, t, c), t, d).coins, WithCoins(v, t, d).coins;
    forall u ensures Lookup(a, u) == Lookup(b, u) {}
    SameMap(a, b);
  }

  method Run(c: CoinsViewCache, ops: seq<Op>)
    requires c.Valid() && !c.hasModifier && AllAllowed(c.root, c.Shown(), c.below, ops)
    modifies c.Repr
    ensures c.Valid() && !c.hasModifier && c.BaseKept()
    ensures c.Shown() == EffectAll(c.root, old(c.Shown()), ops)
    ensures forall part :: old(c.Settled(part)) || ResolvedBy(ops, part) ==> c.Settled(part)
    decreases |ops|
  {
    if ops != [] {
      RunOne(c, ops[0]);
      forall part | ResolvedBy(ops, part) ensures Resolves(ops[0], part) || ResolvedBy(ops[1..], part) {
        FirstOrLater(ops, part);
      }
      Run(c, ops[1..]);
    }
  }

  lemma FirstOrLater(ops: seq<Op>, part: Part)
    requires ops != [] && ResolvedBy(ops, part)
    ensures Resolves(ops[0], part) || ResolvedBy(ops[1..], part)
  {
    var i :| 0 <= i < |ops| && Resolves(ops[i], part);
    if i > 0 {
      assert Resolves(ops[1..][i - 1], part);
    }
  }

  /** Any run on a cache over a cache, then Flush: the base shows exactly the effect of the run. */
  method RunAndFlush(c: CoinsViewCache, base: CoinsViewCache, ops: seq<Op>)
    requires c.Valid() && c.base == base && !c.hasModifier && !base.hasModifier
    requires AllAllowed(c.root, c.Shown(), c.below, ops)
    modifies c.Repr
    ensures c.Valid() && base.Valid()
    ensures var wanted := EffectAll(c.root, old(c.Shown()), ops);
      && base.Shown().coins == wanted.coins
      && base.Shown().anchors == wanted.anchors
      && base.Shown().nullifiers == wanted.nullifiers
      && ((forall part :: old(c.Settled(part)) || ResolvedBy(ops, part)) ==> base.Shown() == wanted && c.Shown() == wanted)
  {
    Run(c, ops);
    c.Flush();
  }

  //////////////////////////////////////////////////////////////////////////////
  // Where a promise fails
  //////////////////////////////////////////////////////////////////////////////

  /** Flushing into the database brings a popped empty-tree anchor back: before it is not shown, afterwards it is. */
  method FlushBringsBackEmptyAnchor(root: RootOf, disk: Disk, rt: Hash) returns (c: CoinsViewCache, ghost before: View)
    requires Injective(root) && NeverNull(root) && CoinsClean(disk.coins) && AnchorsRooted(root, disk.anchors)
    requires disk.best.sprout == NULL && rt != NULL && rt != root(Sprout, EmptyTree)
    ensures c.Valid() && before == Popped(ShownOf(DiskView(root, disk)), Sprout, rt)
    ensures (Sprout, root(Sprout, EmptyTree)) !in before.anchors
    ensures (Sprout, root(Sprout, EmptyTree)) in c.below.anchors && c.Shown() != before
  {
    c := new CoinsViewCache.OnDisk(root, disk);
    var empty := (Sprout, root(Sprout, EmptyTree));
    assert c.view.best.Of(Sprout) == empty.1 && empty in c.view.anchors;
    var _ := c.PopAnchor(Sprout, rt);
    before := c.Shown();
    c.Flush();
  }

  /** Connecting blocks with roots T, U and T again, and disconnecting the last one, loses the anchor T of the first. */
  lemma PopLosesOldAnchor(root: RootOf, y: ShieldedType, t: Tree, u: Tree)
    requires Injective(root) && NeverNull(root) && t != EmptyTree && u != t
    ensures var start := DiskView(root, Disk(map[], map[], {}, NULL, Best(NULL, NULL)));
      var twice := EffectAll(root, start, [Push(y, t), Push(y, u)]);
      var run := [Push(y, t), Push(y, u), Push(y, t), Pop(y, root(y, u))];
      && AllAllowed(root, start, start, run) && EffectAll(root, start, run).best == twice.best
      && (y, root(y, t)) in twice.anchors && (y, root(y, t)) !in EffectAll(root, start, run).anchors
  {
    var v0 := DiskView(root, Disk(map[], map[], {}, NULL, Best(NULL, NULL)));
    var v1 := Pushed(root, v0, y, t);
    var v2 := Pushed(root, v1, y, u);
    var v3 := Pushed(root, v2, y, t);
    assert v0.best.Of(y) == root(y, EmptyTree);
    assert v1.best.Of(y) == root(y, t) && v2.best.Of(y) == root(y, u) && v3.best.Of(y) == root(y, t);
    TwoOps(root, v0, Push(y, t), Push(y, u), []);
    TwoOps(root, v0, Push(y, t), Push(y, u), [Push(y, t), Pop(y, root(y, u))]);
    TwoOps(root, v2, Push(y, t), Pop(y, root(y, u)), []);
    var run := [Push(y, t), Push(y, u), Push(y, t), Pop(y, root(y, u))];
    assert run == [Push(y, t), Push(y, u)] + [Push(y, t), Pop(y, root(y, u))];
    TwoAllowed(root, v0, v0, Push(y, t), Push(y, u), [Push(y, t), Pop(y, root(y, u))]);
    TwoAllowed(root, v2, v0, Push(y, t), Pop(y, root(y, u)), []);
    assert [Push(y, t), Push(y, u)] + [] == [Push(y, t), Push(y, u)];
    assert [Push(y, t), Pop(y, root(y, u))] + [] == [Push(y, t), Pop(y, root(y, u))];
  }

  lemma TwoOps(root: RootOf, v: View, a: Op, b: Op, rest: seq<Op>)
    ensures EffectAll(root, v, [a, b] + rest) == EffectAll(root, Effect(root, Effect(root, v, a), b), rest)
  {
    assert ([a, b] + rest)[1..] == [b] + rest && ([b] + rest)[1..] == rest;
  }

  lemma TwoAllowed(root: RootOf, v: View, below: View, a: Op, b: Op, rest: seq<Op>)
    ensures AllAllowed(root, v, below, [a, b] + rest) <==>
      && Allowed(v, below, a) && Allowed(Effect(root, v, a), below, b)
      && AllAllowed(root, Effect(root, Effect(root, v, a), b), below, rest)
  {
    assert ([a, b] + rest)[1..] == [b] + rest && ([b] + rest)[1..] == rest;
  }
}
