module AddrRehash {
  // Which entries of a stream are kept by loading it, whatever wrote it.

  import opened AddrTables
  import opened AddrStore

  //////////////////////////////////////////////////////////////////////////////
  // The new table when the stream's positions cannot be used
  //////////////////////////////////////////////////////////////////////////////

  /** No earlier entry of the new table has the slot that this one has for its own source. */
  ghost predicate FirstNew(h: Hasher, key: Key, recs: seq<Record>, k: int)
    requires 0 <= k < |recs|
  {
    forall j :: 0 <= j < k ==> SourceSlot(h, key, recs[j]) != SourceSlot(h, key, recs[k])
  }

  /** The entry is as written, and counts the one slot it got if it came first. */
  ghost predicate NewEntry(h: Hasher, key: Key, recs: seq<Record>, infos: Infos, k: int)
    requires 0 <= k < |recs|
  {
    && k in infos && !infos[k].fInTried
    && infos[k].addr == recs[k].addr && infos[k].source == recs[k].source && infos[k].nTime == recs[k].nTime
    && infos[k].services == recs[k].services && infos[k].nAttempts == recs[k].nAttempts
    && infos[k].nLastSuccess == recs[k].nLastSuccess && infos[k].nLastTry == 0
    && infos[k].nRefCount == if FirstNew(h, key, recs, k) then 1 else 0
  }

  /** Each slot is held by the first entry that has it for its source, and no other slot is held. */
  ghost predicate FirstHolds(h: Hasher, key: Key, recs: seq<Record>, news: map<Slot, int>) {
    && (forall k :: 0 <= k < |recs| ==> SourceSlot(h, key, recs[k]) in news)
    && (forall s :: s in news ==>
          0 <= news[s] < |recs| && FirstNew(h, key, recs, news[s]) && SourceSlot(h, key, recs[news[s]]) == s)
  }

  ghost predicate Rehashed(h: Hasher, key: Key, recs: seq<Record>, st: State) {
    && (forall k :: 0 <= k < |recs| ==> NewEntry(h, key, recs, st.infos, k))
    && FirstHolds(h, key, recs, st.news)
    && st.nIdCount >= |recs|
  }

  lemma FirstBefore(h: Hasher, key: Key, recs: seq<Record>, n: int, k: int)
    requires 0 <= k < n <= |recs|
    ensures FirstNew(h, key, recs[..n], k) <==> FirstNew(h, key, recs, k)
  {
    assert recs[..n][k] == recs[k];
    if FirstNew(h, key, recs[..n], k) {
      forall j | 0 <= j < k ensures SourceSlot(h, key, recs[j]) != SourceSlot(h, key, recs[k]) {
        assert recs[..n][j] == recs[j];
      }
    }
  }

  lemma FirstIsFree(h: Hasher, key: Key, recs: seq<Record>, news: map<Slot, int>, n: int)
    requires n == |recs| - 1 && n >= 0 && FirstHolds(h, key, recs[..n], news)
    ensures SourceSlot(h, key, recs[n]) !in news <==> FirstNew(h, key, recs, n)
  {
    var s := SourceSlot(h, key, recs[n]);
    if s in news {
      assert recs[..n][news[s]] == recs[news[s]];
    } else {
      forall j | 0 <= j < n ensures SourceSlot(h, key, recs[j]) != s {
        assert recs[..n][j] == recs[j];
      }
    }
  }

  lemma HoldsNext(h: Hasher, key: Key, recs: seq<Record>, before: map<Slot, int>, after: map<Slot, int>, n: int)
    requires n == |recs| - 1 && n >= 0 && FirstHolds(h, key, recs[..n], before)
    requires after == if FirstNew(h, key, recs, n) then before[SourceSlot(h, key, recs[n]) := n] else before
    ensures FirstHolds(h, key, recs, after)
  {
    FirstIsFree(h, key, recs, before, n);
    forall k | 0 <= k < |recs| ensures SourceSlot(h, key, recs[k]) in after {
      assert k < n ==> recs[..n][k] == recs[k];
    }
    forall s | s in after
      ensures 0 <= after[s] < |recs| && FirstNew(h, key, recs, after[s]) && SourceSlot(h, key, recs[after[s]]) == s
    {
      if after[s] != n {
        FirstBefore(h, key, recs, n, after[s]);
      }
    }
  }

  lemma EntriesNext(h: Hasher, key: Key, recs: seq<Record>, before: Infos, after: Infos, n: int)
    requires n == |recs| - 1 && n >= 0 && forall k :: 0 <= k < n ==> NewEntry(h, key, recs[..n], before, k)
    requires NewEntry(h, key, recs, after, n) && forall k :: 0 <= k < n && k in before ==> k in after && after[k] == before[k]
    ensures forall k :: 0 <= k < |recs| ==> NewEntry(h, key, recs, after, k)
  {
    forall k | 0 <= k < |recs| ensures NewEntry(h, key, recs, after, k) {
      if k < n {
        assert NewEntry(h, key, recs[..n], before, k);
        FirstBefore(h, key, recs, n, k);
      }
    }
  }

  lemma {:induction false} LoadRecentRehashes(h: Hasher, key: Key, recs: seq<Record>, nNew: nat)
    ensures var st := LoadRecent(h, key, Blank(nNew), recs, false); Rehashed(h, key, recs, st) && st.nIdCount == |recs|
  {
    if recs != [] {
      var n := |recs| - 1;
      LoadRecentRehashes(h, key, recs[..n], nNew);
      hide Rehashed, LoadedNew;
      RehashedNext(h, key, recs, LoadRecent(h, key, Blank(nNew), recs[..n], false), n);
    } else {
      hide SourceSlot;
    }
  }

  lemma RehashedNext(h: Hasher, key: Key, recs: seq<Record>, st: State, n: int)
    requires n == |recs| - 1 && n >= 0 && Rehashed(h, key, recs[..n], st) && st.nIdCount == n
    ensures var after := LoadedNew(h, key, st, recs[n], false); Rehashed(h, key, recs, after) && after.nIdCount == n + 1
  {
    hide FirstHolds, NewEntry, SourceSlot, FirstNew;
    var after := LoadedNew(h, key, st, recs[n], false);
    FirstIsFree(h, key, recs, st.news, n);
    HoldsNext(h, key, recs, st.news, after.news, n);
    NewAdded(h, key, recs, st, n);
    EntriesNext(h, key, recs, st.infos, after.infos, n);
  }

  lemma NewAdded(h: Hasher, key: Key, recs: seq<Record>, st: State, n: int)
    requires 0 <= n < |recs| && st.nIdCount == n && (SourceSlot(h, key, recs[n]) !in st.news <==> FirstNew(h, key, recs, n))
    ensures NewEntry(h, key, recs, LoadedNew(h, key, st, recs[n], false).infos, n)
  {
  }

  //////////////////////////////////////////////////////////////////////////////
  // The tried table, from any stream
  //////////////////////////////////////////////////////////////////////////////

  /** No earlier entry of the tried table has the same slot. */
  ghost predicate FirstTried(h: Hasher, key: Key, recs: seq<Record>, k: int)
    requires 0 <= k < |recs|
  {
    forall j :: 0 <= j < k ==> TriedSlot(h, key, recs[j].addr) != TriedSlot(h, key, recs[k].addr)
  }

  ghost predicate TriedEntry(infos: Infos, id: int, rec: Record) {
    && id in infos && infos[id].fInTried
    && infos[id].addr == rec.addr && infos[id].source == rec.source && infos[id].nTime == rec.nTime
    && infos[id].services == rec.services && infos[id].nAttempts == rec.nAttempts
    && infos[id].nLastSuccess == rec.nLastSuccess && infos[id].nLastTry == 0
  }

  ghost predicate Wanted(h: Hasher, key: Key, recs: seq<Record>, s: Slot) {
    exists k :: 0 <= k < |recs| && TriedSlot(h, key, recs[k].addr) == s
  }

  /** Each record's slot holds the first record that has it; no other slot is held, and the count is that of the slots. */
  ghost predicate Settled(h: Hasher, key: Key, recs: seq<Record>, st: State, low: int) {
    && (forall k :: 0 <= k < |recs| ==> TriedSlot(h, key, recs[k].addr) in st.tried)
    && (forall k :: 0 <= k < |recs| && FirstTried(h, key, recs, k) && TriedSlot(h, key, recs[k].addr) in st.tried ==>
          TriedEntry(st.infos, st.tried[TriedSlot(h, key, recs[k].addr)], recs[k]))
    && (forall s :: s in st.tried ==> low <= st.tried[s] < st.nIdCount && Wanted(h, key, recs, s))
    && st.nTried == |st.tried|
  }

  lemma WantedNext(h: Hasher, key: Key, recs: seq<Record>, s: Slot, n: int)
    requires n == |recs| - 1 && n >= 0
    ensures Wanted(h, key, recs, s) <==> Wanted(h, key, recs[..n], s) || s == TriedSlot(h, key, recs[n].addr)
    ensures s == TriedSlot(h, key, recs[n].addr) ==> (Wanted(h, key, recs[..n], s) <==> !FirstTried(h, key, recs, n))
  {
    hide TriedSlot;
    assert forall k :: 0 <= k < n ==> recs[..n][k] == recs[k];
    if Wanted(h, key, recs[..n], s) {
      var k :| 0 <= k < n && TriedSlot(h, key, recs[..n][k].addr) == s;
      assert TriedSlot(h, key, recs[k].addr) == s;
    }
    if Wanted(h, key, recs, s) && s != TriedSlot(h, key, recs[n].addr) {
      var k :| 0 <= k < |recs| && TriedSlot(h, key, recs[k].addr) == s;
      assert TriedSlot(h, key, recs[..n][k].addr) == s;
    }
    if !FirstTried(h, key, recs, n) && s == TriedSlot(h, key, recs[n].addr) {
      var k :| 0 <= k < n && TriedSlot(h, key, recs[k].addr) == s;
      assert TriedSlot(h, key, recs[..n][k].addr) == s;
    }
  }

  lemma FirstTriedBefore(h: Hasher, key: Key, recs: seq<Record>, n: int, k: int)
    requires 0 <= k < n <= |recs|
    ensures FirstTried(h, key, recs[..n], k) <==> FirstTried(h, key, recs, k)
  {
    assert recs[..n][k] == recs[k];
    if FirstTried(h, key, recs[..n], k) {
      forall j | 0 <= j < k ensures TriedSlot(h, key, recs[j].addr) != TriedSlot(h, key, recs[k].addr) {
        assert recs[..n][j] == recs[j];
      }
    }
  }

  lemma WantedHeld(h: Hasher, key: Key, recs: seq<Record>, st: State, low: int, s: Slot)
    requires Settled(h, key, recs, st, low)
    ensures Wanted(h, key, recs, s) <==> s in st.tried
  {
    hide TriedSlot, TriedEntry, FirstTried;
  }

  lemma SettledNext(h: Hasher, key: Key, recs: seq<Record>, st: State, low: int, n: int)
    requires n == |recs| - 1 && n >= 0 && Settled(h, key, recs[..n], st, low) && low <= st.nIdCount
    ensures Settled(h, key, recs, LoadedTried(h, key, st, recs[n]), low)
  {
    hide TriedSlot, Wanted, FirstTried;
    var after := LoadedTried(h, key, st, recs[n]);
    forall s ensures s in after.tried <==> Wanted(h, key, recs, s) {
      WantedHeld(h, key, recs[..n], st, low, s);
      WantedNext(h, key, recs, s, n);
    }
    forall k | 0 <= k < |recs| ensures TriedSlot(h, key, recs[k].addr) in after.tried {
      assert k < n ==> recs[..n][k] == recs[k];
    }
    forall k | 0 <= k < |recs| && FirstTried(h, key, recs, k)
      ensures TriedEntry(after.infos, after.tried[TriedSlot(h, key, recs[k].addr)], recs[k])
    {
      if k < n {
        FirstTriedBefore(h, key, recs, n, k);
        assert recs[..n][k] == recs[k];
      } else {
        WantedHeld(h, key, recs[..n], st, low, TriedSlot(h, key, recs[n].addr));
        WantedNext(h, key, recs, TriedSlot(h, key, recs[n].addr), n);
      }
    }
  }

  /** The tried entries, and what loading them leaves of the new ones. */
  lemma {:induction false} LoadSettledSettles(h: Hasher, key: Key, st: State, recs: seq<Record>)
    requires st.tried == map[] && st.nTried == 0
    ensures var after := LoadSettled(h, key, st, recs);
      && Settled(h, key, recs, after, st.nIdCount) && after.nIdCount >= st.nIdCount && after.news == st.news && after.nNew == st.nNew
      && (forall id :: id in st.infos && id < st.nIdCount ==> id in after.infos && after.infos[id] == st.infos[id])
  {
    if recs != [] {
      var n := |recs| - 1;
      LoadSettledSettles(h, key, st, recs[..n]);
      hide Settled;
      SettledNext(h, key, recs, LoadSettled(h, key, st, recs[..n]), st.nIdCount, n);
    }
  }

  /** Positions place only new entries. */
  ghost predicate SameTried(a: State, b: State, low: int) {
    && b.tried == a.tried && b.nTried == a.nTried && b.nIdCount == a.nIdCount && b.nNew == a.nNew && b.infos.Keys == a.infos.Keys
    && forall id :: id in a.infos && id >= low ==> id in b.infos && b.infos[id] == a.infos[id]
  }

  lemma {:induction false} LoadBucketSame(h: Hasher, key: Key, st: State, bucket: nat, list: seq<int>, usable: bool)
    ensures SameTried(st, LoadBucket(h, key, st, bucket, list, usable), st.nNew)
    ensures !usable ==> LoadBucket(h, key, st, bucket, list, usable) == st
  {
    if list != [] {
      LoadBucketSame(h, key, st, bucket, list[..|list| - 1], usable);
    }
  }

  lemma {:induction false} LoadBucketsSame(h: Hasher, key: Key, st: State, buckets: seq<seq<int>>, usable: bool)
    ensures SameTried(st, LoadBuckets(h, key, st, buckets, usable), st.nNew)
    ensures !usable ==> LoadBuckets(h, key, st, buckets, usable) == st
  {
    if buckets != [] {
      var b := |buckets| - 1;
      LoadBucketsSame(h, key, st, buckets[..b], usable);
      LoadBucketSame(h, key, LoadBuckets(h, key, st, buckets[..b], usable), b, buckets[b], usable);
    }
  }

  lemma {:induction false} PrunedSlots(st: State, n: nat)
    ensures var after := Pruned(st, n);
      after.news == st.news && after.tried == st.tried && after.nTried == st.nTried && after.nIdCount == st.nIdCount
  {
    if n > 0 {
      PrunedSlots(st, n - 1);
    }
  }

  /**
   The tried table after loading, whatever is in the stream: each record's slot holds the first of the
   records that have it, with all that was written of it, and nothing else is held.
   */
  lemma TriedKept(h: Hasher, s: Saved)
    requires Framed(s)
    ensures Settled(h, s.nKey, s.settled, Load(h, s), s.nNew)
  {
    var a := LoadRecent(h, s.nKey, Blank(s.nNew), s.recent, Usable(s));
    LoadRecentKeys(h, s.nKey, s.recent, Usable(s), s.nNew);
    var b := LoadSettled(h, s.nKey, a, s.settled);
    LoadSettledSettles(h, s.nKey, a, s.settled);
    LoadBucketsSame(h, s.nKey, b, s.buckets, Usable(s));
    var u := Unpruned(h, s);
    UnprunedLoading(h, s);
    PrunedSlots(u, u.nIdCount);
    PrunedLeaves(u, u.nIdCount);
    assert Settled(h, s.nKey, s.settled, u, s.nNew);
    StaysSettled(h, s.nKey, s.settled, u, Load(h, s), s.nNew);
  }

  lemma StaysSettled(h: Hasher, key: Key, recs: seq<Record>, u: State, after: State, low: int)
    requires Settled(h, key, recs, u, low) && u.nIdCount >= 0 && LeftBelow(u, after, u.nIdCount)
    requires after.tried == u.tried && after.nTried == u.nTried && after.nIdCount == u.nIdCount
    ensures Settled(h, key, recs, after, low)
  {
    hide TriedSlot;
    forall k | 0 <= k < |recs| && FirstTried(h, key, recs, k)
      ensures TriedEntry(after.infos, after.tried[TriedSlot(h, key, recs[k].addr)], recs[k])
    {
      var id := u.tried[TriedSlot(h, key, recs[k].addr)];
      assert TriedEntry(u.infos, id, recs[k]);
      assert !OrphanBelow(u.infos, u.nIdCount, id);
      assert Stays(u.infos, after.infos, id);
    }
  }

  /**
   The new table after loading a stream of another version or with another number of buckets: an entry is
   kept exactly if no earlier one has the slot of its source, and then holds that slot and no other.
   */
  lemma NewKept(h: Hasher, s: Saved, k: nat)
    requires Framed(s) && (s.nVersion != 1 || s.nUBuckets != 1024 + 1073741824) && k < s.nNew
    ensures k in Load(h, s).infos <==> FirstNew(h, s.nKey, s.recent, k)
    ensures FirstNew(h, s.nKey, s.recent, k) ==> NewEntry(h, s.nKey, s.recent, Load(h, s).infos, k)
    ensures FirstHolds(h, s.nKey, s.recent, Load(h, s).news)
  {
    UsableExactly(s);
    var a := LoadRecent(h, s.nKey, Blank(s.nNew), s.recent, false);
    LoadRecentKeys(h, s.nKey, s.recent, false, s.nNew);
    LoadRecentRehashes(h, s.nKey, s.recent, s.nNew);
    hide FirstHolds, FirstNew, SourceSlot;
    var b := LoadSettled(h, s.nKey, a, s.settled);
    LoadSettledSettles(h, s.nKey, a, s.settled);
    LoadBucketsSame(h, s.nKey, b, s.buckets, false);
    var u := Unpruned(h, s);
    assert u == b;
    UnprunedLoading(h, s);
    PrunedSlots(u, u.nIdCount);
    PrunedLeaves(u, u.nIdCount);
    assert NewEntry(h, s.nKey, s.recent, a.infos, k);
    assert OrphanBelow(u.infos, u.nIdCount, k) <==> !FirstNew(h, s.nKey, s.recent, k);
    assert k in Load(h, s).infos ==> Stays(u.infos, Load(h, s).infos, k);
  }
}
