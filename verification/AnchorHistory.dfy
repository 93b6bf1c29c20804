module AnchorHistory {
  // When the assert in PopAnchor can fire: connecting a block pushes the root of its tree, and
  // disconnecting it pops back to the root before.

  import opened CoinsLayer
  import opened CoinsCache

  /** The best anchors of the connected blocks, one after the other, for each pool. */
  datatype History = History(sprout: seq<Hash>, sapling: seq<Hash>) {
    function Of(y: ShieldedType): seq<Hash> { if y.Sprout? then sprout else sapling }

    function With(y: ShieldedType, h: seq<Hash>): (r: History)
      ensures r.Of(y) == h && forall z :: z != y ==> r.Of(z) == Of(z)
    {
      if y.Sprout? then this.(sprout := h) else this.(sapling := h)
    }
  }

  /** A root that comes back comes back at once: a block that leaves the tree as it is. */
  predicate Grouped(h: seq<Hash>) {
    forall i, k :: 0 <= i < k < |h| && h[i] == h[k] ==> h[k - 1] == h[k]
  }

  /** The last root is the best anchor, and all of them are anchors. */
  ghost predicate Entered(v: View, y: ShieldedType, h: seq<Hash>) {
    && h != [] && v.best.Of(y) == h[|h| - 1]
    && forall i :: 0 <= i < |h| ==> h[i] != NULL && (y, h[i]) in v.anchors
  }

  //////////////////////////////////////////////////////////////////////////////
  // Runs that push new roots only
  //////////////////////////////////////////////////////////////////////////////

  function After(root: RootOf, h: History, op: Op): History {
    match op
    case Push(y, tree) => h.With(y, h.Of(y) + [root(y, tree)])
    case Pop(y, rt) => if h.Of(y) == [] then h else h.With(y, h.Of(y)[..|h.Of(y)| - 1])
    case _ => h
  }

  function AfterAll(root: RootOf, h: History, ops: seq<Op>): History
    decreases |ops|
  {
    if ops == [] then h else AfterAll(root, After(root, h, ops[0]), ops[1..])
  }

  /** Pushes give the best anchor again or a root that is no anchor, pops go back to the anchor before; the rest as asked. */
  ghost predicate Connects(root: RootOf, v: View, below: View, h: History, op: Op) {
    match op
    case Push(y, tree) => v.best.Of(y) == root(y, tree) || (y, root(y, tree)) !in v.anchors
    case Pop(y, rt) => |h.Of(y)| >= 2 && rt == h.Of(y)[|h.Of(y)| - 2]
    case _ => Allowed(v, below, op)
  }

  ghost predicate ConnectsAll(root: RootOf, v: View, below: View, h: History, ops: seq<Op>)
    decreases |ops|
  {
    ops != [] ==>
      Connects(root, v, below, h, ops[0]) && ConnectsAll(root, Effect(root, v, ops[0]), below, After(root, h, ops[0]), ops[1..])
  }

  ghost predicate Stacked(v: View, y: ShieldedType, h: seq<Hash>) { Entered(v, y, h) && Grouped(h) }

  lemma PushStacked(root: RootOf, v: View, y: ShieldedType, tree: Tree, h: seq<Hash>)
    requires NeverNull(root) && Stacked(v, y, h) && (v.best.Of(y) == root(y, tree) || (y, root(y, tree)) !in v.anchors)
    ensures Stacked(Pushed(root, v, y, tree), y, h + [root(y, tree)])
  {
    var r := root(y, tree);
    var h' := h + [r];
    forall i, k | 0 <= i < k < |h'| && h'[i] == h'[k] ensures h'[k - 1] == h'[k] {
      if k == |h| {
        assert (y, h[i]) in v.anchors;
      }
    }
  }

  lemma PopStacked(v: View, y: ShieldedType, h: seq<Hash>)
    requires Stacked(v, y, h) && |h| >= 2
    ensures CanPop(v, y, h[|h| - 2]) && h[|h| - 2] != NULL && Stacked(Popped(v, y, h[|h| - 2]), y, h[..|h| - 1])
  {
    var n := |h| - 1;
    assert (y, h[n]) in v.anchors;
    forall i | 0 <= i < n ensures h[n - 1] != h[n] ==> h[i] != h[n] {}
  }

  lemma OtherStacked(root: RootOf, v: View, y: ShieldedType, h: seq<Hash>, op: Op)
    requires Stacked(v, y, h) && ((op.Push? || op.Pop?) ==> op.y != y)
    ensures Stacked(Effect(root, v, op), y, h)
  {
  }

  lemma ConnectsStacked(root: RootOf, v: View, below: View, h: History, op: Op)
    requires NeverNull(root) && (forall y :: Stacked(v, y, h.Of(y))) && Connects(root, v, below, h, op)
    ensures Allowed(v, below, op) && forall y :: Stacked(Effect(root, v, op), y, After(root, h, op).Of(y))
  {
    hide Stacked, NeverNull;
    forall y ensures Stacked(Effect(root, v, op), y, After(root, h, op).Of(y)) {
      assert Stacked(v, y, h.Of(y));
      if op.Push? && op.y == y {
        PushStacked(root, v, y, op.tree, h.Of(y));
      } else if op.Pop? && op.y == y {
        PopStacked(v, y, h.Of(y));
      } else {
        OtherStacked(root, v, y, h.Of(y), op);
      }
    }
    if op.Pop? {
      PopStacked(v, op.y, h.Of(op.y));
    }
  }

  /** The assert never fires in a run that pushes new roots only: all its operations are allowed, whatever comes between. */
  lemma {:induction false} NeverFires(root: RootOf, v: View, below: View, h: History, ops: seq<Op>)
    requires NeverNull(root) && (forall y :: Stacked(v, y, h.Of(y))) && ConnectsAll(root, v, below, h, ops)
    ensures AllAllowed(root, v, below, ops)
    ensures forall y :: Stacked(EffectAll(root, v, ops), y, AfterAll(root, h, ops).Of(y))
    decreases |ops|
  {
    hide Stacked, NeverNull, Connects, Allowed;
    if ops != [] {
      ConnectsStacked(root, v, below, h, ops[0]);
      NeverFires(root, Effect(root, v, ops[0]), below, After(root, h, ops[0]), ops[1..]);
    }
  }

  /** A new database has the empty trees for its first anchors. */
  lemma NewDatabase(root: RootOf)
    requires NeverNull(root)
    ensures var v := DiskView(root, Disk(map[], map[], {}, NULL, Best(NULL, NULL)));
      forall y :: Stacked(v, y, History([root(Sprout, EmptyTree)], [root(Sapling, EmptyTree)]).Of(y))
  {
  }

  //////////////////////////////////////////////////////////////////////////////
  // Disconnecting everything
  //////////////////////////////////////////////////////////////////////////////

  /** Back to the first root, one block after the other. */
  function Unwind(y: ShieldedType, h: seq<Hash>): (ops: seq<Op>)
    ensures h != [] ==> |ops| == |h| - 1
  {
    if |h| < 2 then [] else [Pop(y, h[|h| - 2])] + Unwind(y, h[..|h| - 1])
  }

  /** No assert fires on the way back, and the first root is still an anchor at the end. */
  ghost predicate Unwinds(root: RootOf, v: View, below: View, y: ShieldedType, h: seq<Hash>)
    requires h != []
  {
    AllAllowed(root, v, below, Unwind(y, h)) && (y, h[0]) in EffectAll(root, v, Unwind(y, h)).anchors
  }

  lemma UnwindNext(root: RootOf, v: View, below: View, y: ShieldedType, h: seq<Hash>)
    requires |h| >= 2 && h[|h| - 2] != NULL
    ensures Unwinds(root, v, below, y, h) <==>
      CanPop(v, y, h[|h| - 2]) && Unwinds(root, Popped(v, y, h[|h| - 2]), below, y, h[..|h| - 1])
  {
    var ops := Unwind(y, h);
    assert ops[1..] == Unwind(y, h[..|h| - 1]);
  }

  lemma UnwindFirst(root: RootOf, v: View, below: View, y: ShieldedType, h: seq<Hash>)
    requires |h| == 1
    ensures Unwinds(root, v, below, y, h) <==> (y, h[0]) in v.anchors
  {
  }

  /** A root that is to come and is no anchor is one too few. */
  lemma {:induction false} MissingFires(root: RootOf, v: View, below: View, y: ShieldedType, h: seq<Hash>, r: Hash)
    requires h != [] && v.best.Of(y) == h[|h| - 1] && (forall i :: 0 <= i < |h| ==> h[i] != NULL)
    requires r in h && (y, r) !in v.anchors
    ensures !Unwinds(root, v, below, y, h)
    decreases |h|
  {
    hide Unwinds;
    var n := |h| - 1;
    if n == 0 {
      UnwindFirst(root, v, below, y, h);
    } else {
      UnwindNext(root, v, below, y, h);
      if r in h[..n] {
        MissingFires(root, Popped(v, y, h[n - 1]), below, y, h[..n], r);
      } else {
        assert h[n] == r && h[n - 1] in h[..n];
      }
    }
  }

  lemma GroupedNext(h: seq<Hash>)
    requires |h| >= 2
    ensures Grouped(h) <==> Grouped(h[..|h| - 1]) && (h[|h| - 2] == h[|h| - 1] || h[|h| - 1] !in h[..|h| - 1])
  {
    var n := |h| - 1;
    if Grouped(h) && h[n] in h[..n] {
      var i :| 0 <= i < n && h[i] == h[n];
    }
    if Grouped(h[..n]) {
      forall i, k | 0 <= i < k < |h| && h[i] == h[k] && (h[n - 1] == h[n] || h[n] !in h[..n]) ensures h[k - 1] == h[k] {
        assert h[..n][i] == h[i];
        if k < n {
          assert h[..n][k] == h[k] && h[..n][k - 1] == h[k - 1];
        }
      }
    }
  }

  /** All blocks can be disconnected exactly if no root came back after a different one. */
  lemma {:induction false} UnwindsExactly(root: RootOf, v: View, below: View, y: ShieldedType, h: seq<Hash>)
    requires Entered(v, y, h)
    ensures Unwinds(root, v, below, y, h) <==> Grouped(h)
    decreases |h|
  {
    hide Unwinds, Grouped;
    var n := |h| - 1;
    if n == 0 {
      UnwindFirst(root, v, below, y, h);
      SingleGrouped(h);
    } else {
      UnwindNext(root, v, below, y, h);
      GroupedNext(h);
      assert (y, h[n]) in v.anchors;
      var v' := Popped(v, y, h[n - 1]);
      if h[n - 1] != h[n] && h[n] in h[..n] {
        MissingFires(root, v', below, y, h[..n], h[n]);
      } else {
        UnwindsExactly(root, v', below, y, h[..n]);
      }
    }
  }

  lemma SingleGrouped(h: seq<Hash>)
    requires |h| == 1
    ensures Grouped(h)
  {
  }

  /** Connecting blocks with roots T, U and T again and disconnecting all of them fires the assert at the last one. */
  lemma RepushFires(root: RootOf, y: ShieldedType, t: Tree, u: Tree)
    requires Injective(root) && NeverNull(root) && t != EmptyTree && u != EmptyTree && u != t
    ensures var start := DiskView(root, Disk(map[], map[], {}, NULL, Best(NULL, NULL)));
      var top := EffectAll(root, start, [Push(y, t), Push(y, u), Push(y, t)]);
      var h := [root(y, EmptyTree), root(y, t), root(y, u), root(y, t)];
      && AllAllowed(root, start, start, [Push(y, t), Push(y, u), Push(y, t)]) && Entered(top, y, h)
      && AllAllowed(root, top, start, Unwind(y, h)[..2]) && !AllAllowed(root, top, start, Unwind(y, h))
  {
    var e, a, b := root(y, EmptyTree), root(y, t), root(y, u);
    var v0 := DiskView(root, Disk(map[], map[], {}, NULL, Best(NULL, NULL)));
    var v1 := Pushed(root, v0, y, t);
    var v2 := Pushed(root, v1, y, u);
    var v3 := Pushed(root, v2, y, t);
    assert v0.best.Of(y) == e && e != a && e != b && a != b;
    ThreePushes(root, v0, y, t, u, t);
    var v4 := Popped(v3, y, b);
    var v5 := Popped(v4, y, a);
    assert v3.best.Of(y) == a && v4.best.Of(y) == b && v5.best.Of(y) == a && (y, a) !in v5.anchors && (y, b) in v4.anchors;
    UnwindThree(y, e, a, b);
    TwoAllowed(root, v3, v0, Pop(y, b), Pop(y, a), [Pop(y, e)]);
    TwoAllowed(root, v3, v0, Pop(y, b), Pop(y, a), []);
  }

  lemma ThreePushes(root: RootOf, v: View, y: ShieldedType, t: Tree, u: Tree, w: Tree)
    ensures var ops := [Push(y, t), Push(y, u), Push(y, w)];
      && EffectAll(root, v, ops) == Pushed(root, Pushed(root, Pushed(root, v, y, t), y, u), y, w) && AllAllowed(root, v, v, ops)
  {
    var ops := [Push(y, t), Push(y, u), Push(y, w)];
    assert ops == [Push(y, t), Push(y, u)] + [Push(y, w)];
    TwoOps(root, v, Push(y, t), Push(y, u), [Push(y, w)]);
    TwoAllowed(root, v, v, Push(y, t), Push(y, u), [Push(y, w)]);
  }

  lemma UnwindThree(y: ShieldedType, e: Hash, a: Hash, b: Hash)
    ensures var ops := Unwind(y, [e, a, b, a]);
      ops == [Pop(y, b), Pop(y, a)] + [Pop(y, e)] && ops[..2] == [Pop(y, b), Pop(y, a)] + []
  {
    assert [e, a, b, a][..3] == [e, a, b] && [e, a, b][..2] == [e, a];
    assert Unwind(y, [e, a, b, a]) == [Pop(y, b)] + Unwind(y, [e, a, b]);
    assert Unwind(y, [e, a, b]) == [Pop(y, a)] + Unwind(y, [e, a]);
    assert Unwind(y, [e, a]) == [Pop(y, e)] + [];
  }
}
