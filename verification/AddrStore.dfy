module AddrStore {
  // Saving the address manager to a stream and loading it into a new one.

  import opened AddrTables
  import M = AddrMan

  //////////////////////////////////////////////////////////////////////////////
  // What is saved
  //////////////////////////////////////////////////////////////////////////////

  /** The part of an entry that is not memory-only. */
  datatype Record = Record(addr: Service, services: set<nat>, nTime: int, source: NetAddr, nLastSuccess: int, nAttempts: int)

  function Write(info: AddrInfo): Record {
    Record(info.addr, info.services, info.nTime, info.source, info.nLastSuccess, info.nAttempts)
  }

  function Read(rec: Record): AddrInfo {
    AddrInfo(rec.addr, rec.services, rec.nTime, rec.source, rec.nLastSuccess, 0, rec.nAttempts, 0, false, -1)
  }

  /** The stream: each list is as long as the count before it says. */
  datatype Saved = Saved(
    nVersion: nat, nKeySize: nat, nKey: Key, nNew: nat, nTried: nat, nUBuckets: int,
    recent: seq<Record>, settled: seq<Record>, buckets: seq<seq<int>>)

  const BIT30 := 0x4000_0000

  /** Exclusive or with 2^30. */
  function FlipBit30(n: int): int {
    if (n / BIT30) % 2 == 0 then n + BIT30 else n - BIT30
  }

  function UBuckets(s: Saved): int {
    if s.nVersion != 0 then FlipBit30(s.nUBuckets) else s.nUBuckets
  }

  predicate Usable(s: Saved) {
    s.nVersion == 1 && UBuckets(s) == NEW_BUCKET_COUNT
  }

  /** Positions are used exactly from a stream of version 1 that says 1024 buckets, bit 30 being flipped. */
  lemma UsableExactly(s: Saved)
    ensures Usable(s) <==> s.nVersion == 1 && s.nUBuckets == 1024 + 1073741824
  {
  }

  predicate Framed(s: Saved) {
    && |s.recent| == s.nNew && |s.settled| == s.nTried
    && |s.buckets| == if UBuckets(s) < 0 then 0 else UBuckets(s)
  }

  predicate Picked(info: AddrInfo, settled: bool) {
    if settled then info.fInTried else info.nRefCount != 0
  }

  /** The ids below n of one table, in order. */
  function Ids(infos: Infos, n: nat, settled: bool): (r: seq<int>)
    ensures forall i :: 0 <= i < |r| ==> r[i] in infos && 0 <= r[i] < n && Picked(infos[r[i]], settled)
  {
    if n == 0 then []
    else Ids(infos, n - 1, settled) + if n - 1 in infos && Picked(infos[n - 1], settled) then [n - 1] else []
  }

  function Rank(infos: Infos, id: int, settled: bool): (r: nat)
    requires id >= 0
  {
    |Ids(infos, id, settled)|
  }

  lemma {:induction false} IdsPrefix(infos: Infos, m: nat, n: nat, settled: bool)
    requires m <= n
    ensures Ids(infos, m, settled) <= Ids(infos, n, settled)
  {
    if m < n {
      IdsPrefix(infos, m, n - 1, settled);
    }
  }

  /** The rank of an id is its place in the list. */
  lemma IdsAt(infos: Infos, n: nat, settled: bool, id: int)
    requires id in infos && 0 <= id < n && Picked(infos[id], settled)
    ensures Rank(infos, id, settled) < |Ids(infos, n, settled)|
    ensures Ids(infos, n, settled)[Rank(infos, id, settled)] == id
  {
    IdsPrefix(infos, id + 1, n, settled);
  }

  lemma {:induction false} RankOf(infos: Infos, n: nat, settled: bool, i: nat)
    requires i < |Ids(infos, n, settled)|
    ensures Rank(infos, Ids(infos, n, settled)[i], settled) == i
  {
    if i < |Ids(infos, n - 1, settled)| {
      RankOf(infos, n - 1, settled, i);
    }
  }

  ghost function IdSet(infos: Infos, n: nat, settled: bool): set<int> {
    set id | id in infos && 0 <= id < n && Picked(infos[id], settled)
  }

  lemma {:induction false} IdsCount(infos: Infos, n: nat, settled: bool)
    ensures |Ids(infos, n, settled)| == |IdSet(infos, n, settled)|
  {
    if n == 0 {
      assert IdSet(infos, 0, settled) == {};
    } else {
      IdsCount(infos, n - 1, settled);
      if n - 1 in infos && Picked(infos[n - 1], settled) {
        assert IdSet(infos, n, settled) == IdSet(infos, n - 1, settled) + {n - 1};
      } else {
        assert IdSet(infos, n, settled) == IdSet(infos, n - 1, settled);
      }
    }
  }

  /** Between operations the two lists hold exactly the entries of the two tables. */
  lemma Listed(h: Hasher, key: Key, st: State)
    requires Consistent(h, key, st, 0, {}) && st.nIdCount >= 0
    ensures |Ids(st.infos, st.nIdCount, false)| == st.nNew && |Ids(st.infos, st.nIdCount, true)| == st.nTried
    ensures forall id :: id in st.infos ==> (Picked(st.infos[id], false) <==> !st.infos[id].fInTried)
  {
    forall id | id in st.infos ensures Picked(st.infos[id], false) <==> !st.infos[id].fInTried {
      if st.infos[id].fInTried {
        NoSlots(h, key, st.infos, st.news, id);
      }
    }
    assert IdSet(st.infos, st.nIdCount, false) == NewIds(st.infos);
    assert IdSet(st.infos, st.nIdCount, true) == TriedIds(st.infos);
    IdsCount(st.infos, st.nIdCount, false);
    IdsCount(st.infos, st.nIdCount, true);
  }

  function Records(infos: Infos, ids: seq<int>): (r: seq<Record>)
    requires forall i :: 0 <= i < |ids| ==> ids[i] in infos
    ensures |r| == |ids| && forall i :: 0 <= i < |r| ==> r[i] == Write(infos[ids[i]])
  {
    seq(|ids|, i requires 0 <= i < |ids| => Write(infos[ids[i]]))
  }

  /** The ranks of the entries in the first p positions of a bucket. */
  function BucketRanks(infos: Infos, news: map<Slot, int>, b: nat, p: nat): (r: seq<int>)
    requires forall s :: s in news ==> news[s] >= 0
  {
    if p == 0 then []
    else BucketRanks(infos, news, b, p - 1) + if (b, p - 1) in news then [Rank(infos, news[(b, p - 1)], false)] else []
  }

  function Stored(key: Key, st: State): (s: Saved)
    requires forall s :: s in st.news ==> st.news[s] >= 0
    requires st.nIdCount >= 0 && st.nNew >= 0 && st.nTried >= 0
  {
    Saved(1, 32, key, st.nNew, st.nTried, FlipBit30(NEW_BUCKET_COUNT),
          Records(st.infos, Ids(st.infos, st.nIdCount, false)), Records(st.infos, Ids(st.infos, st.nIdCount, true)),
          seq(NEW_BUCKET_COUNT, b requires 0 <= b < NEW_BUCKET_COUNT => BucketRanks(st.infos, st.news, b, BUCKET_SIZE)))
  }

  //////////////////////////////////////////////////////////////////////////////
  // Loading, as a function of the stream
  //////////////////////////////////////////////////////////////////////////////

  function Blank(nNew: nat): State {
    State(map[], map[], [], map[], map[], 0, nNew, 0)
  }

  /** What holds all through loading, whatever is in the stream. */
  ghost predicate Loading(st: State) {
    && RandomIndex(st.infos, st.vRandom)
    && st.nIdCount >= 0 && forall id :: id in st.infos ==> 0 <= id < st.nIdCount
  }

  function SourceSlot(h: Hasher, key: Key, rec: Record): Slot {
    NewSlot(h, key, NewBucket(h, key, rec.addr, rec.source), rec.addr)
  }

  /** One entry of the new table; without usable positions it gets a slot from its own source. */
  function LoadedNew(h: Hasher, key: Key, st: State, rec: Record, usable: bool): State {
    var c := Created(st, Read(rec));
    if !usable && SourceSlot(h, key, rec) !in c.news then SlotSet(c, SourceSlot(h, key, rec), st.nIdCount) else c
  }

  function LoadRecent(h: Hasher, key: Key, st: State, recs: seq<Record>, usable: bool): State {
    if recs == [] then st
    else LoadedNew(h, key, LoadRecent(h, key, st, recs[..|recs| - 1], usable), recs[|recs| - 1], usable)
  }

  /** One entry of the tried table, lost if its slot is taken. */
  function LoadedTried(h: Hasher, key: Key, st: State, rec: Record): State {
    if TriedSlot(h, key, rec.addr) in st.tried then st
    else TriedEntered(h, key, Created(st, Read(rec)), st.nIdCount)
  }

  function LoadSettled(h: Hasher, key: Key, st: State, recs: seq<Record>): State {
    if recs == [] then st else LoadedTried(h, key, LoadSettled(h, key, st, recs[..|recs| - 1]), recs[|recs| - 1])
  }

  /** One position of the new table. */
  function LoadedSlot(h: Hasher, key: Key, st: State, bucket: nat, nIndex: int, usable: bool): State {
    if nIndex in st.infos && 0 <= nIndex < st.nNew && usable
       && NewSlot(h, key, bucket, st.infos[nIndex].addr) !in st.news
       && st.infos[nIndex].nRefCount < NEW_BUCKETS_PER_ADDRESS
    then SlotSet(st, NewSlot(h, key, bucket, st.infos[nIndex].addr), nIndex)
    else st
  }

  function LoadBucket(h: Hasher, key: Key, st: State, bucket: nat, list: seq<int>, usable: bool): State {
    if list == [] then st
    else LoadedSlot(h, key, LoadBucket(h, key, st, bucket, list[..|list| - 1], usable), bucket, list[|list| - 1], usable)
  }

  function LoadBuckets(h: Hasher, key: Key, st: State, buckets: seq<seq<int>>, usable: bool): State {
    if buckets == [] then st
    else
      var b := |buckets| - 1;
      LoadBucket(h, key, LoadBuckets(h, key, st, buckets[..b], usable), b, buckets[b], usable)
  }

  predicate IsOrphan(infos: Infos, id: int) {
    id in infos && !infos[id].fInTried && infos[id].nRefCount == 0
  }

  ghost function PrunedOne(st: State, id: int): State {
    if IsOrphan(st.infos, id) && RandomIndex(st.infos, st.vRandom) then Deleted(st, id) else st
  }

  lemma SwappedLoading(st: State, i: nat, j: nat)
    requires Loading(st) && i < |st.vRandom| && j < |st.vRandom|
    ensures st.vRandom[i] in st.infos && st.vRandom[j] in st.infos
    ensures var w := SwappedState(st, i, j); Loading(w) && |w.vRandom| == |st.vRandom| && w.vRandom[j] == st.vRandom[i]
  {
    if i != j {
      Swapped(st.infos, st.vRandom, i, j);
    }
  }

  lemma PoppedLoading(w: State, id: int, ip: NetAddr)
    requires Loading(w) && w.vRandom != [] && w.vRandom[|w.vRandom| - 1] == id
    ensures Loading(Popped(w, id, ip))
  {
    PoppedLast(w.infos, w.vRandom);
  }

  lemma PrunedOneLoading(st: State, id: int)
    requires Loading(st)
    ensures Loading(PrunedOne(st, id))
  {
    if IsOrphan(st.infos, id) {
      var i, j := st.infos[id].nRandomPos, |st.vRandom| - 1;
      SwappedLoading(st, i, j);
      hide SwappedState, Popped;
      PoppedLoading(SwappedState(st, i, j), id, st.infos[id].addr.ip);
    }
  }

  /** Entries below n that are in neither table are dropped. */
  ghost function Pruned(st: State, n: nat): State {
    if n == 0 then st else PrunedOne(Pruned(st, n - 1), n - 1)
  }

  //////////////////////////////////////////////////////////////////////////////
  // Loading any framed stream restores consistency, but for the index by address
  //////////////////////////////////////////////////////////////////////////////

  ghost function Ips(recs: seq<Record>): set<NetAddr> {
    set i | 0 <= i < |recs| :: recs[i].addr.ip
  }

  ghost predicate Distinct(recs: seq<Record>) {
    forall i, j :: 0 <= i < j < |recs| ==> recs[i].addr.ip != recs[j].addr.ip
  }

  /** Both tables right so far, with any entry possibly in neither of them yet. */
  ghost predicate Building(h: Hasher, key: Key, st: State, lag: int) {
    st.nIdCount >= 0 && Unindexed(h, key, st, lag, st.infos.Keys)
  }

  lemma AnyOrphans(h: Hasher, key: Key, st: State, lag: int, orphans: set<int>)
    requires Unindexed(h, key, st, lag, orphans) && st.nIdCount >= 0
    ensures Building(h, key, st, lag)
  {
  }

  lemma LoadedNewBuilds(h: Hasher, key: Key, st: State, lag: int, rec: Record, usable: bool)
    requires Building(h, key, st, lag)
    ensures Building(h, key, LoadedNew(h, key, st, rec, usable), lag + 1)
  {
    hide Unindexed;
    var id, c := st.nIdCount, Created(st, Read(rec));
    CreatedUnindexed(h, key, st, lag, st.infos.Keys, Read(rec));
    AnyOrphans(h, key, c, lag + 1, st.infos.Keys + {id});
    var s := SourceSlot(h, key, rec);
    if !usable && s !in c.news {
      SlotSetUnindexed(h, key, c, lag + 1, c.infos.Keys, s, id);
      AnyOrphans(h, key, SlotSet(c, s, id), lag + 1, c.infos.Keys - {id});
    }
  }

  /** The entries are those below n, none of them in the tried table. */
  ghost predicate FirstOnly(st: State, n: nat) {
    && (forall id :: id in st.infos ==> 0 <= id < n && !st.infos[id].fInTried)
    && (forall id :: 0 <= id < n ==> id in st.infos)
  }

  lemma LoadedNewAdds(h: Hasher, key: Key, st: State, rec: Record, usable: bool)
    requires st.nIdCount >= 0 && FirstOnly(st, st.nIdCount)
    ensures var after := LoadedNew(h, key, st, rec, usable);
      && after.nIdCount == st.nIdCount + 1 && after.nNew == st.nNew
      && FirstOnly(after, st.nIdCount + 1) && after.nTried == st.nTried && after.tried == st.tried
  {
  }

  lemma {:induction false} LoadRecentBuilds(h: Hasher, key: Key, recs: seq<Record>, usable: bool, nNew: nat)
    ensures var st := LoadRecent(h, key, Blank(nNew), recs, usable);
      && Building(h, key, st, |recs| - nNew) && st.nIdCount == |recs| && st.nNew == nNew
      && FirstOnly(st, |recs|)
  {
    hide Building, LoadedNew;
    if recs == [] {
      BlankBuilds(h, key, nNew);
    } else {
      var n := |recs| - 1;
      LoadRecentBuilds(h, key, recs[..n], usable, nNew);
      var st := LoadRecent(h, key, Blank(nNew), recs[..n], usable);
      LoadedNewBuilds(h, key, st, n - nNew, recs[n], usable);
      LoadedNewAdds(h, key, st, recs[n], usable);
    }
  }

  lemma BlankBuilds(h: Hasher, key: Key, nNew: nat)
    ensures Building(h, key, Blank(nNew), 0 - nNew)
  {
    assert NewIds(map[]) == {} && TriedIds(map[]) == {};
  }

  lemma LoadedTriedBuilds(h: Hasher, key: Key, st: State, lag: int, rec: Record)
    requires Building(h, key, st, lag)
    ensures Building(h, key, LoadedTried(h, key, st, rec), lag)
  {
    hide Unindexed;
    if TriedSlot(h, key, rec.addr) !in st.tried {
      var id, c := st.nIdCount, Created(st, Read(rec));
      CreatedUnindexed(h, key, st, lag, st.infos.Keys, Read(rec));
      TriedEnteredUnindexed(h, key, c, lag + 1, st.infos.Keys + {id}, id);
      AnyOrphans(h, key, TriedEntered(h, key, c, id), lag, st.infos.Keys + {id} - {id});
    }
  }

  lemma {:induction false} LoadSettledBuilds(h: Hasher, key: Key, st: State, lag: int, recs: seq<Record>)
    requires Building(h, key, st, lag)
    ensures var after := LoadSettled(h, key, st, recs);
      && Building(h, key, after, lag) && after.nNew == st.nNew
      && st.infos.Keys <= after.infos.Keys
      && (forall id :: id in st.infos ==> after.infos[id].fInTried == st.infos[id].fInTried)
  {
    hide Unindexed;
    if recs != [] {
      var n := |recs| - 1;
      LoadSettledBuilds(h, key, st, lag, recs[..n]);
      var before := LoadSettled(h, key, st, recs[..n]);
      LoadedTriedBuilds(h, key, before, lag, recs[n]);
      IdsBelow(h, key, before, lag, before.infos.Keys);
    }
  }

  /** The entries of the new table come first. */
  ghost predicate NewFirst(st: State) {
    forall id :: 0 <= id < st.nNew ==> id in st.infos && !st.infos[id].fInTried
  }

  lemma LoadedSlotBuilds(h: Hasher, key: Key, st: State, lag: int, bucket: nat, nIndex: int, usable: bool)
    requires Building(h, key, st, lag) && NewFirst(st) && (usable ==> bucket < NEW_BUCKET_COUNT)
    ensures var after := LoadedSlot(h, key, st, bucket, nIndex, usable); Building(h, key, after, lag) && NewFirst(after)
  {
    hide Unindexed;
    var after := LoadedSlot(h, key, st, bucket, nIndex, usable);
    if after != st {
      SlotSetUnindexed(h, key, st, lag, st.infos.Keys, NewSlot(h, key, bucket, st.infos[nIndex].addr), nIndex);
      AnyOrphans(h, key, after, lag, st.infos.Keys - {nIndex});
    }
  }

  lemma {:induction false} LoadBucketBuilds(h: Hasher, key: Key, st: State, lag: int, bucket: nat, list: seq<int>, usable: bool)
    requires Building(h, key, st, lag) && NewFirst(st) && (usable ==> bucket < NEW_BUCKET_COUNT)
    ensures var after := LoadBucket(h, key, st, bucket, list, usable); Building(h, key, after, lag) && NewFirst(after)
  {
    hide Unindexed;
    if list != [] {
      var n := |list| - 1;
      LoadBucketBuilds(h, key, st, lag, bucket, list[..n], usable);
      LoadedSlotBuilds(h, key, LoadBucket(h, key, st, bucket, list[..n], usable), lag, bucket, list[n], usable);
    }
  }

  lemma {:induction false} LoadBucketsBuilds(h: Hasher, key: Key, st: State, lag: int, buckets: seq<seq<int>>, usable: bool)
    requires Building(h, key, st, lag) && NewFirst(st) && (usable ==> |buckets| <= NEW_BUCKET_COUNT)
    ensures var after := LoadBuckets(h, key, st, buckets, usable); Building(h, key, after, lag) && NewFirst(after)
  {
    hide Unindexed;
    if buckets != [] {
      var b := |buckets| - 1;
      LoadBucketsBuilds(h, key, st, lag, buckets[..b], usable);
      LoadBucketBuilds(h, key, LoadBuckets(h, key, st, buckets[..b], usable), lag, b, buckets[b], usable);
    }
  }

  ghost function IdsFrom(infos: Infos, n: nat): set<int> { set id | id in infos && id >= n }

  lemma PrunedOneKeeps(h: Hasher, key: Key, st: State, a: set<int>, b: set<int>, id: int)
    requires Unindexed(h, key, st, 0, a) && a - {id} <= b
    ensures Unindexed(h, key, PrunedOne(st, id), 0, b)
  {
    RandomOfUnindexed(h, key, st, 0, a);
    if IsOrphan(st.infos, id) {
      DeletedUnindexed(h, key, st, 0, a, id);
      MoreOrphans(h, key, Deleted(st, id), a - {id}, b);
    }
  }

  lemma MoreOrphans(h: Hasher, key: Key, st: State, a: set<int>, b: set<int>)
    requires Unindexed(h, key, st, 0, a) && a <= b
    ensures Unindexed(h, key, st, 0, b)
  {
  }

  lemma {:induction false} PrunedKeeps(h: Hasher, key: Key, st: State, n: nat)
    requires Building(h, key, st, 0)
    ensures Unindexed(h, key, Pruned(st, n), 0, IdsFrom(st.infos, n))
  {
    hide Unindexed, PrunedOne;
    if n == 0 {
      IdsBelow(h, key, st, 0, st.infos.Keys);
      assert IdsFrom(st.infos, 0) == st.infos.Keys;
    } else {
      PrunedKeeps(h, key, st, n - 1);
      PrunedOneKeeps(h, key, Pruned(st, n - 1), IdsFrom(st.infos, n - 1), IdsFrom(st.infos, n), n - 1);
    }
  }

  lemma {:induction false} PrunedNothing(st: State, n: nat)
    requires forall id :: 0 <= id < n ==> !IsOrphan(st.infos, id)
    ensures Pruned(st, n) == st
  {
    if n > 0 {
      PrunedNothing(st, n - 1);
    }
  }

  lemma LoadedLoading(h: Hasher, key: Key, st: State, rec: Record, usable: bool)
    requires Loading(st)
    ensures Loading(LoadedNew(h, key, st, rec, usable)) && Loading(LoadedTried(h, key, st, rec))
  {
    var id, info := st.nIdCount, Read(rec).(nRandomPos := |st.vRandom|);
    Appended(st.infos, st.vRandom, id, info);
    Appended(st.infos, st.vRandom, id, info.(nRefCount := 1));
    Appended(st.infos, st.vRandom, id, info.(fInTried := true));
    assert st.infos[id := info][id := info.(nRefCount := 1)] == st.infos[id := info.(nRefCount := 1)];
    assert st.infos[id := info][id := info.(fInTried := true)] == st.infos[id := info.(fInTried := true)];
  }

  lemma {:induction false} LoadRecentLoading(h: Hasher, key: Key, st: State, recs: seq<Record>, usable: bool)
    requires Loading(st)
    ensures Loading(LoadRecent(h, key, st, recs, usable))
  {
    hide LoadedNew;
    if recs != [] {
      LoadRecentLoading(h, key, st, recs[..|recs| - 1], usable);
      LoadedLoading(h, key, LoadRecent(h, key, st, recs[..|recs| - 1], usable), recs[|recs| - 1], usable);
    }
  }

  lemma {:induction false} LoadSettledLoading(h: Hasher, key: Key, st: State, recs: seq<Record>)
    requires Loading(st)
    ensures Loading(LoadSettled(h, key, st, recs))
  {
    hide LoadedTried;
    if recs != [] {
      LoadSettledLoading(h, key, st, recs[..|recs| - 1]);
      LoadedLoading(h, key, LoadSettled(h, key, st, recs[..|recs| - 1]), recs[|recs| - 1], true);
    }
  }

  lemma LoadedSlotLoading(h: Hasher, key: Key, st: State, bucket: nat, nIndex: int, usable: bool)
    requires Loading(st)
    ensures Loading(LoadedSlot(h, key, st, bucket, nIndex, usable))
  {
    var after := LoadedSlot(h, key, st, bucket, nIndex, usable);
    if after != st {
      RandomKept(st.infos, st.vRandom, nIndex, after.infos[nIndex]);
    }
  }

  lemma {:induction false} LoadBucketLoading(h: Hasher, key: Key, st: State, bucket: nat, list: seq<int>, usable: bool)
    requires Loading(st)
    ensures Loading(LoadBucket(h, key, st, bucket, list, usable))
  {
    hide LoadedSlot;
    if list != [] {
      var n := |list| - 1;
      LoadBucketLoading(h, key, st, bucket, list[..n], usable);
      LoadedSlotLoading(h, key, LoadBucket(h, key, st, bucket, list[..n], usable), bucket, list[n], usable);
    }
  }

  lemma {:induction false} LoadBucketsLoading(h: Hasher, key: Key, st: State, buckets: seq<seq<int>>, usable: bool)
    requires Loading(st)
    ensures Loading(LoadBuckets(h, key, st, buckets, usable))
  {
    if buckets != [] {
      var b := |buckets| - 1;
      LoadBucketsLoading(h, key, st, buckets[..b], usable);
      LoadBucketLoading(h, key, LoadBuckets(h, key, st, buckets[..b], usable), b, buckets[b], usable);
    }
  }

  /** The state before entries in neither table are dropped. */
  function Unpruned(h: Hasher, s: Saved): State {
    var a := LoadRecent(h, s.nKey, Blank(s.nNew), s.recent, Usable(s));
    LoadBuckets(h, s.nKey, LoadSettled(h, s.nKey, a, s.settled), s.buckets, Usable(s))
  }

  lemma UnprunedLoading(h: Hasher, s: Saved)
    ensures Loading(Unpruned(h, s))
  {
    var a := LoadRecent(h, s.nKey, Blank(s.nNew), s.recent, Usable(s));
    LoadRecentLoading(h, s.nKey, Blank(s.nNew), s.recent, Usable(s));
    LoadSettledLoading(h, s.nKey, a, s.settled);
    LoadBucketsLoading(h, s.nKey, LoadSettled(h, s.nKey, a, s.settled), s.buckets, Usable(s));
  }

  ghost function Load(h: Hasher, s: Saved): State {
    UnprunedLoading(h, s);
    Pruned(Unpruned(h, s), Unpruned(h, s).nIdCount)
  }

  lemma UnprunedBuilds(h: Hasher, s: Saved)
    requires Framed(s)
    ensures Building(h, s.nKey, Unpruned(h, s), 0)
  {
    hide Building, LoadRecent, LoadSettled, LoadBuckets;
    LoadRecentBuilds(h, s.nKey, s.recent, Usable(s), s.nNew);
    var a := LoadRecent(h, s.nKey, Blank(s.nNew), s.recent, Usable(s));
    LoadSettledBuilds(h, s.nKey, a, 0, s.settled);
    LoadBucketsBuilds(h, s.nKey, LoadSettled(h, s.nKey, a, s.settled), 0, s.buckets, Usable(s));
  }

  /** Whatever is in a framed stream, everything but the index by address is consistent. */
  lemma LoadUnindexed(h: Hasher, s: Saved)
    requires Framed(s)
    ensures Unindexed(h, s.nKey, Load(h, s), 0, {})
  {
    hide Unindexed;
    var u := Unpruned(h, s);
    UnprunedBuilds(h, s);
    IdsBelow(h, s.nKey, u, 0, u.infos.Keys);
    PrunedKeeps(h, s.nKey, u, u.nIdCount);
    assert IdsFrom(u.infos, u.nIdCount) == {};
  }

  //////////////////////////////////////////////////////////////////////////////
  // The index by address
  //////////////////////////////////////////////////////////////////////////////

  /** Each address leads to the last entry that has it. */
  ghost predicate LastWins(st: State) {
    && (forall id :: id in st.infos ==> id < st.nIdCount && st.infos[id].addr.ip in st.addrs && id <= st.addrs[st.infos[id].addr.ip])
    && (forall ip :: ip in st.addrs ==> st.addrs[ip] in st.infos && st.infos[st.addrs[ip]].addr.ip == ip)
  }

  /** Two states with the same addresses. */
  ghost predicate SameAddresses(a: State, b: State) {
    && a.infos.Keys == b.infos.Keys && a.addrs == b.addrs && a.nIdCount == b.nIdCount
    && forall id :: id in a.infos ==> b.infos[id].addr == a.infos[id].addr
  }

  lemma SameLast(a: State, b: State)
    requires LastWins(a) && SameAddresses(a, b)
    ensures LastWins(b)
  {
  }

  lemma CreatedLast(st: State, info: AddrInfo)
    requires LastWins(st)
    ensures LastWins(Created(st, info))
  {
  }

  lemma LoadedNewLast(h: Hasher, key: Key, st: State, rec: Record, usable: bool)
    requires LastWins(st)
    ensures LastWins(LoadedNew(h, key, st, rec, usable))
  {
    hide LastWins;
    CreatedLast(st, Read(rec));
    SameLast(Created(st, Read(rec)), LoadedNew(h, key, st, rec, usable));
  }

  lemma LoadedTriedLast(h: Hasher, key: Key, st: State, rec: Record)
    requires LastWins(st)
    ensures LastWins(LoadedTried(h, key, st, rec))
  {
    hide LastWins;
    CreatedLast(st, Read(rec));
    if TriedSlot(h, key, rec.addr) !in st.tried {
      SameLast(Created(st, Read(rec)), LoadedTried(h, key, st, rec));
    }
  }

  lemma {:induction false} LoadRecentLast(h: Hasher, key: Key, st: State, recs: seq<Record>, usable: bool)
    requires LastWins(st)
    ensures LastWins(LoadRecent(h, key, st, recs, usable))
  {
    hide LastWins, LoadedNew;
    if recs != [] {
      LoadRecentLast(h, key, st, recs[..|recs| - 1], usable);
      LoadedNewLast(h, key, LoadRecent(h, key, st, recs[..|recs| - 1], usable), recs[|recs| - 1], usable);
    }
  }

  lemma {:induction false} LoadSettledLast(h: Hasher, key: Key, st: State, recs: seq<Record>)
    requires LastWins(st)
    ensures LastWins(LoadSettled(h, key, st, recs))
  {
    hide LastWins, LoadedTried;
    if recs != [] {
      LoadSettledLast(h, key, st, recs[..|recs| - 1]);
      LoadedTriedLast(h, key, LoadSettled(h, key, st, recs[..|recs| - 1]), recs[|recs| - 1]);
    }
  }

  lemma {:induction false} LoadBucketAddresses(h: Hasher, key: Key, st: State, bucket: nat, list: seq<int>, usable: bool)
    ensures SameAddresses(st, LoadBucket(h, key, st, bucket, list, usable))
  {
    if list != [] {
      LoadBucketAddresses(h, key, st, bucket, list[..|list| - 1], usable);
    }
  }

  lemma {:induction false} LoadBucketsAddresses(h: Hasher, key: Key, st: State, buckets: seq<seq<int>>, usable: bool)
    ensures SameAddresses(st, LoadBuckets(h, key, st, buckets, usable))
  {
    hide LoadBucket;
    if buckets != [] {
      var b := |buckets| - 1;
      LoadBucketsAddresses(h, key, st, buckets[..b], usable);
      LoadBucketAddresses(h, key, LoadBuckets(h, key, st, buckets[..b], usable), b, buckets[b], usable);
    }
  }

  lemma UnprunedLast(h: Hasher, s: Saved)
    ensures LastWins(Unpruned(h, s))
  {
    hide LoadRecent, LoadSettled, LoadBuckets;
    assert LastWins(Blank(s.nNew));
    hide LastWins, SameAddresses;
    var a := LoadRecent(h, s.nKey, Blank(s.nNew), s.recent, Usable(s));
    LoadRecentLast(h, s.nKey, Blank(s.nNew), s.recent, Usable(s));
    LoadSettledLast(h, s.nKey, a, s.settled);
    var b := LoadSettled(h, s.nKey, a, s.settled);
    LoadBucketsAddresses(h, s.nKey, b, s.buckets, Usable(s));
    SameLast(b, Unpruned(h, s));
  }

  ghost predicate OrphanBelow(infos: Infos, n: nat, id: int) { IsOrphan(infos, id) && id < n }

  /** What dropping the unplaced entries below n leaves of the entries and of the addresses. */
  ghost predicate LeftBelow(st: State, after: State, n: nat) {
    && (forall id :: id in after.infos <==> id in st.infos && !OrphanBelow(st.infos, n, id))
    && (forall id :: id in after.infos ==> Stays(st.infos, after.infos, id))
    && (forall ip :: ip in after.addrs <==> ip in st.addrs && !exists id :: OrphanBelow(st.infos, n, id) && st.infos[id].addr.ip == ip)
    && (forall ip :: ip in after.addrs ==> after.addrs[ip] == st.addrs[ip])
  }

  lemma {:induction false} PrunedLeaves(st: State, n: nat)
    requires Loading(st)
    ensures Loading(Pruned(st, n)) && LeftBelow(st, Pruned(st, n), n)
  {
    hide Loading, PrunedOne;
    if n == 0 {
      LeftAtStart(st);
    } else {
      PrunedLeaves(st, n - 1);
      PrunedOneLoading(Pruned(st, n - 1), n - 1);
      LeftNext(st, Pruned(st, n - 1), n - 1);
    }
  }

  lemma LeftAtStart(st: State)
    requires Loading(st)
    ensures LeftBelow(st, st, 0)
  {
  }

  lemma LeftNext(st: State, mid: State, n: nat)
    requires Loading(mid) && LeftBelow(st, mid, n)
    ensures LeftBelow(st, PrunedOne(mid, n), n + 1)
  {
    hide Deleted, RandomIndex;
    var after := PrunedOne(mid, n);
    assert IsOrphan(mid.infos, n) <==> IsOrphan(st.infos, n) by {
      assert n in mid.infos ==> Stays(st.infos, mid.infos, n);
    }
    if IsOrphan(mid.infos, n) {
      DeletedShape(mid, n);
      assert Stays(st.infos, mid.infos, n);
      forall id | id in after.infos ensures Stays(st.infos, after.infos, id) {
        assert Stays(st.infos, mid.infos, id) && Stays(mid.infos, after.infos, id);
      }
      assert OrphanBelow(st.infos, n + 1, n);
    }
    forall id ensures OrphanBelow(st.infos, n + 1, id) <==> OrphanBelow(st.infos, n, id) || (id == n && IsOrphan(st.infos, n)) {
    }
    forall ip ensures ip in after.addrs <==> ip in st.addrs && !exists id :: OrphanBelow(st.infos, n + 1, id) && st.infos[id].addr.ip == ip {
      if exists id :: OrphanBelow(st.infos, n, id) && st.infos[id].addr.ip == ip {
        var id :| OrphanBelow(st.infos, n, id) && st.infos[id].addr.ip == ip;
        assert OrphanBelow(st.infos, n + 1, id);
      }
    }
  }

  /** No entry that gets a place has its address in common with another. */
  ghost predicate Unshared(st: State) {
    forall a, b :: a in st.infos && b in st.infos && a != b && st.infos[a].addr.ip == st.infos[b].addr.ip ==>
      IsOrphan(st.infos, a) && IsOrphan(st.infos, b)
  }

  lemma IndexExactly(u: State, after: State)
    requires Loading(u) && LastWins(u) && LeftBelow(u, after, u.nIdCount)
    ensures AddrIndex(after.infos, after.addrs) <==> Unshared(u)
  {
    hide Loading, LastWins, LeftBelow, Unshared, AddrIndex;
    if Unshared(u) {
      UnsharedIndex(u, after);
    }
    if AddrIndex(after.infos, after.addrs) {
      IndexUnshared(u, after);
    }
  }

  lemma UnsharedIndex(u: State, after: State)
    requires Loading(u) && LastWins(u) && LeftBelow(u, after, u.nIdCount) && Unshared(u)
    ensures AddrIndex(after.infos, after.addrs)
  {
    assert forall id :: OrphanBelow(u.infos, u.nIdCount, id) <==> IsOrphan(u.infos, id);
    forall id | id in after.infos ensures after.infos[id].addr.ip in after.addrs && after.addrs[after.infos[id].addr.ip] == id {
      assert Stays(u.infos, after.infos, id);
      assert u.addrs[u.infos[id].addr.ip] in u.infos;
    }
    forall ip | ip in after.addrs ensures after.addrs[ip] in after.infos && after.infos[after.addrs[ip]].addr.ip == ip {
      var id := u.addrs[ip];
      assert !OrphanBelow(u.infos, u.nIdCount, id);
      assert Stays(u.infos, after.infos, id);
    }
  }

  lemma IndexUnshared(u: State, after: State)
    requires Loading(u) && LeftBelow(u, after, u.nIdCount) && AddrIndex(after.infos, after.addrs)
    ensures Unshared(u)
  {
    forall a, b | a in u.infos && b in u.infos && a != b && u.infos[a].addr.ip == u.infos[b].addr.ip
      ensures IsOrphan(u.infos, a) && IsOrphan(u.infos, b)
    {
      assert a in after.infos ==> Stays(u.infos, after.infos, a);
      assert b in after.infos ==> Stays(u.infos, after.infos, b);
      assert OrphanBelow(u.infos, u.nIdCount, a) <==> a !in after.infos;
      assert OrphanBelow(u.infos, u.nIdCount, b) <==> b !in after.infos;
    }
  }

  /**
   Whatever is in the stream - stale positions, other table sizes, collisions, repeated addresses - what
   is loaded is consistent exactly if no entry that gets a place has its address in common with another.
   */
  lemma LoadConsistent(h: Hasher, s: Saved)
    requires Framed(s)
    ensures Consistent(h, s.nKey, Load(h, s), 0, {}) <==> Unshared(Unpruned(h, s))
  {
    hide Unindexed, Unshared, LastWins, LeftBelow;
    LoadUnindexed(h, s);
    UnprunedLoading(h, s);
    UnprunedLast(h, s);
    PrunedLeaves(Unpruned(h, s), Unpruned(h, s).nIdCount);
    IndexExactly(Unpruned(h, s), Load(h, s));
  }

  lemma PartsDistinct(recent: seq<Record>, settled: seq<Record>)
    requires Distinct(recent + settled)
    ensures Distinct(recent) && Distinct(settled) && Ips(recent) !! Ips(settled)
  {
    var all := recent + settled;
    assert forall i :: 0 <= i < |recent| ==> recent[i] == all[i];
    assert forall i :: 0 <= i < |settled| ==> settled[i] == all[|recent| + i];
  }

  /** All entries have different addresses, which are among ips. */
  ghost predicate Sole(st: State, ips: set<NetAddr>) {
    && (forall id :: id in st.infos ==> st.infos[id].addr.ip in ips)
    && forall a, b :: a in st.infos && b in st.infos && a != b ==> st.infos[a].addr.ip != st.infos[b].addr.ip
  }

  lemma SoleNext(h: Hasher, key: Key, st: State, ips: set<NetAddr>, rec: Record, usable: bool)
    requires Sole(st, ips) && rec.addr.ip !in ips
    ensures Sole(LoadedNew(h, key, st, rec, usable), ips + {rec.addr.ip})
    ensures Sole(LoadedTried(h, key, st, rec), ips + {rec.addr.ip})
  {
  }

  lemma {:induction false} SoleRecent(h: Hasher, key: Key, nNew: nat, recs: seq<Record>, usable: bool)
    requires Distinct(recs)
    ensures Sole(LoadRecent(h, key, Blank(nNew), recs, usable), Ips(recs))
  {
    hide LoadedNew;
    if recs != [] {
      var n := |recs| - 1;
      SoleRecent(h, key, nNew, recs[..n], usable);
      assert recs[n].addr.ip !in Ips(recs[..n]);
      assert Ips(recs) == Ips(recs[..n]) + {recs[n].addr.ip};
      SoleNext(h, key, LoadRecent(h, key, Blank(nNew), recs[..n], usable), Ips(recs[..n]), recs[n], usable);
    }
  }

  lemma {:induction false} SoleSettled(h: Hasher, key: Key, st: State, ips: set<NetAddr>, recs: seq<Record>)
    requires Sole(st, ips) && Distinct(recs) && ips !! Ips(recs)
    ensures Sole(LoadSettled(h, key, st, recs), ips + Ips(recs))
  {
    hide LoadedTried;
    if recs != [] {
      var n := |recs| - 1;
      assert recs[n].addr.ip !in Ips(recs[..n]);
      assert Ips(recs) == Ips(recs[..n]) + {recs[n].addr.ip};
      SoleSettled(h, key, st, ips, recs[..n]);
      SoleNext(h, key, LoadSettled(h, key, st, recs[..n]), ips + Ips(recs[..n]), recs[n], true);
      assert ips + Ips(recs) == ips + Ips(recs[..n]) + {recs[n].addr.ip};
    }
  }

  /** Streams that repeat no address are among them. */
  lemma DistinctUnshared(h: Hasher, s: Saved)
    requires Distinct(s.recent + s.settled)
    ensures Unshared(Unpruned(h, s))
  {
    hide LoadRecent, LoadSettled, LoadBuckets;
    var a := LoadRecent(h, s.nKey, Blank(s.nNew), s.recent, Usable(s));
    PartsDistinct(s.recent, s.settled);
    SoleRecent(h, s.nKey, s.nNew, s.recent, Usable(s));
    SoleSettled(h, s.nKey, a, Ips(s.recent), s.settled);
    LoadBucketsAddresses(h, s.nKey, LoadSettled(h, s.nKey, a, s.settled), s.buckets, Usable(s));
  }

  //////////////////////////////////////////////////////////////////////////////
  // Loading what was saved loses nothing
  //////////////////////////////////////////////////////////////////////////////

  /** The id an entry has after saving and loading. */
  function New(st: State, id: int): (r: int)
    requires id in st.infos && id >= 0
  {
    if st.infos[id].fInTried then st.nNew + Rank(st.infos, id, true) else Rank(st.infos, id, false)
  }

  lemma NewInList(h: Hasher, key: Key, st: State, id: int)
    requires Consistent(h, key, st, 0, {}) && id in st.infos
    ensures 0 <= id < st.nIdCount
    ensures var t := st.infos[id].fInTried; Rank(st.infos, id, t) < |Ids(st.infos, st.nIdCount, t)|
                                            && Ids(st.infos, st.nIdCount, t)[Rank(st.infos, id, t)] == id
  {
    Listed(h, key, st);
    IdsAt(st.infos, st.nIdCount, st.infos[id].fInTried, id);
  }

  /** Renumbering is one to one. */
  lemma NewInjective(h: Hasher, key: Key, st: State, a: int, b: int)
    requires Consistent(h, key, st, 0, {}) && a in st.infos && b in st.infos && a >= 0 && b >= 0
    ensures New(st, a) == New(st, b) ==> a == b
    ensures 0 <= New(st, a) < st.nNew + st.nTried && (New(st, a) < st.nNew <==> !st.infos[a].fInTried)
  {
    hide Consistent;
    NewInList(h, key, st, a);
    NewInList(h, key, st, b);
    Listed(h, key, st);
  }

  /** Renumbering reaches every id below the number of entries. */
  lemma NewOnto(h: Hasher, key: Key, st: State, k: int) returns (id: int)
    requires Consistent(h, key, st, 0, {}) && st.nIdCount >= 0 && 0 <= k < st.nNew + st.nTried
    ensures id in st.infos && id >= 0 && New(st, id) == k
  {
    hide Consistent;
    Listed(h, key, st);
    var t := k >= st.nNew;
    var i := if t then k - st.nNew else k;
    id := Ids(st.infos, st.nIdCount, t)[i];
    RankOf(st.infos, st.nIdCount, t, i);
  }

  ghost predicate RecentAre(a: State, recs: seq<Record>, nNew: nat) {
    && a.nIdCount == |a.vRandom| == |recs| && a.nNew == nNew && a.nTried == 0 && a.news == map[] && a.tried == map[]
    && (forall k :: k in a.infos <==> 0 <= k < |recs|)
    && (forall k :: 0 <= k < |recs| ==> a.infos[k] == Read(recs[k]).(nRandomPos := k))
  }

  lemma {:induction false} RecentIs(h: Hasher, key: Key, recs: seq<Record>, nNew: nat)
    ensures RecentAre(LoadRecent(h, key, Blank(nNew), recs, true), recs, nNew)
  {
    if recs != [] {
      RecentIs(h, key, recs[..|recs| - 1], nNew);
    }
  }

  ghost function TriedSlots(h: Hasher, key: Key, recs: seq<Record>): (r: seq<Slot>)
    ensures |r| == |recs| && forall i :: 0 <= i < |recs| ==> r[i] == TriedSlot(h, key, recs[i].addr)
  {
    seq(|recs|, i requires 0 <= i < |recs| => TriedSlot(h, key, recs[i].addr))
  }

  ghost predicate AllDiffer(slots: seq<Slot>) {
    forall i, j :: 0 <= i < j < |slots| ==> slots[i] != slots[j]
  }

  /** The tried table holds exactly the slots listed, numbered from base. */
  ghost predicate TriedIs(tried: map<Slot, int>, slots: seq<Slot>, base: nat) {
    && (forall j :: 0 <= j < |slots| ==> slots[j] in tried && tried[slots[j]] == base + j)
    && (forall t :: t in tried ==> base <= tried[t] < base + |slots| && slots[tried[t] - base] == t)
  }

  ghost predicate SettledAre(before: State, after: State, recs: seq<Record>) {
    var n := before.nIdCount;
    && n >= 0 && after.nIdCount == |after.vRandom| == n + |recs| && after.nTried == before.nTried + |recs|
    && after.nNew == before.nNew && after.news == before.news
    && (forall k :: k in after.infos <==> 0 <= k < n + |recs|)
    && (forall k :: 0 <= k < n && k in before.infos ==> after.infos[k] == before.infos[k])
    && (forall k :: n <= k < n + |recs| ==> after.infos[k] == Read(recs[k - n]).(nRandomPos := k, fInTried := true))
  }

  lemma TriedStep(tried: map<Slot, int>, slots: seq<Slot>, base: nat)
    requires slots != [] && AllDiffer(slots) && TriedIs(tried, slots[..|slots| - 1], base)
    ensures slots[|slots| - 1] !in tried && TriedIs(tried[slots[|slots| - 1] := base + |slots| - 1], slots, base)
  {
    var n := |slots| - 1;
    assert forall j :: 0 <= j < n ==> slots[..n][j] == slots[j];
  }

  lemma SettledStep(h: Hasher, key: Key, before: State, mid: State, recs: seq<Record>)
    requires recs != [] && SettledAre(before, mid, recs[..|recs| - 1])
    requires TriedSlot(h, key, recs[|recs| - 1].addr) !in mid.tried
    ensures var after := LoadedTried(h, key, mid, recs[|recs| - 1]);
      && SettledAre(before, after, recs)
      && after.tried == mid.tried[TriedSlot(h, key, recs[|recs| - 1].addr) := before.nIdCount + |recs| - 1]
  {
    hide TriedSlot;
  }

  lemma NoneSettled(st: State)
    requires st.nIdCount == |st.vRandom| && st.tried == map[] && forall k :: k in st.infos <==> 0 <= k < st.nIdCount
    ensures SettledAre(st, st, []) && TriedIs(st.tried, [], st.nIdCount)
  {
  }

  lemma {:induction false} SettledIs(h: Hasher, key: Key, st: State, recs: seq<Record>)
    requires st.nIdCount == |st.vRandom| && st.tried == map[] && AllDiffer(TriedSlots(h, key, recs))
    requires forall k :: k in st.infos <==> 0 <= k < st.nIdCount
    ensures var after := LoadSettled(h, key, st, recs);
      SettledAre(st, after, recs) && TriedIs(after.tried, TriedSlots(h, key, recs), st.nIdCount)
  {
    hide LoadedTried, SettledAre, TriedIs, TriedSlot;
    if recs == [] {
      NoneSettled(st);
    } else {
      var n := |recs| - 1;
      assert TriedSlots(h, key, recs[..n]) == TriedSlots(h, key, recs)[..n];
      SettledIs(h, key, st, recs[..n]);
      TriedStep(LoadSettled(h, key, st, recs[..n]).tried, TriedSlots(h, key, recs), st.nIdCount);
      SettledStep(h, key, st, LoadSettled(h, key, st, recs[..n]), recs);
    }
  }

  ghost predicate Before(s: Slot, b: nat, p: nat) { s.0 < b || (s.0 == b && s.1 < p) }

  /** The new table holds what it held when it was saved, as far as the given position. */
  ghost predicate NewsUpTo(st: State, after: State, b: nat, p: nat) {
    && (forall s :: s in after.news <==> s in st.news && Before(s, b, p))
    && (forall s :: s in after.news ==> st.news[s] in st.infos && st.news[s] >= 0 && after.news[s] == New(st, st.news[s]))
  }

  /** The entry saved, with the memory-only fields it gets on loading, except how often it is counted. */
  function Restored(st: State, id: int, nRefCount: int): AddrInfo
    requires id in st.infos && id >= 0
  {
    st.infos[id].(nLastTry := 0, nRandomPos := New(st, id), nRefCount := nRefCount)
  }

  ghost predicate EntriesOf(st: State, after: State) {
    && (forall id :: id in st.infos ==>
          id >= 0 && New(st, id) in after.infos
          && after.infos[New(st, id)] == Restored(st, id, after.infos[New(st, id)].nRefCount))
    && (forall k :: k in after.infos ==> 0 <= k < st.nNew + st.nTried)
    && after.nNew == st.nNew
  }

  lemma SlotsWithin(h: Hasher, key: Key, st: State, after: State, b: nat, p: nat, id: int)
    requires Consistent(h, key, st, 0, {}) && NewsUpTo(st, after, b, p) && id in st.infos && id >= 0
    ensures SlotsOf(after.news, New(st, id)) <= SlotsOf(st.news, id) - {(b, p)}
  {
    hide Consistent, New;
    forall s | s in SlotsOf(after.news, New(st, id)) ensures s in SlotsOf(st.news, id) && s != (b, p) {
      NewInjective(h, key, st, st.news[s], id);
    }
  }

  lemma Fewer<T>(a: set<T>, b: set<T>)
    requires a <= b
    ensures |a| <= |b|
  {
    assert b == a + (b - a);
  }

  lemma CountOf(h: Hasher, key: Key, st: State, lag: int, orphans: set<int>, id: int)
    requires Consistent(h, key, st, lag, orphans) && id in st.infos
    ensures st.infos[id].nRefCount == |SlotsOf(st.news, id)| <= NEW_BUCKETS_PER_ADDRESS
  {
    assert CountOk(st.infos, st.news, id);
  }

  lemma CountBuilding(h: Hasher, key: Key, st: State, lag: int, id: int)
    requires Building(h, key, st, lag) && id in st.infos
    ensures st.infos[id].nRefCount == |SlotsOf(st.news, id)| <= NEW_BUCKETS_PER_ADDRESS
  {
    assert CountOk(st.infos, st.news, id);
  }

  lemma SlotFacts(h: Hasher, key: Key, st: State, lag: int, orphans: set<int>, s: Slot)
    requires Consistent(h, key, st, lag, orphans) && s in st.news
    ensures var id := st.news[s];
      && id in st.infos && id >= 0 && !st.infos[id].fInTried && s.0 < NEW_BUCKET_COUNT && s.1 < BUCKET_SIZE
      && NewSlot(h, key, s.0, st.infos[id].addr) == s
  {
    assert NewSlotOk(h, key, st.infos, s, st.news[s]);
  }

  /** The slot is free in the table being loaded, and its entry is not yet counted eight times. */
  lemma SlotFree(h: Hasher, key: Key, st: State, after: State, b: nat, p: nat)
    requires Consistent(h, key, st, 0, {}) && Building(h, key, after, 0) && EntriesOf(st, after) && NewsUpTo(st, after, b, p)
    requires (b, p) in st.news
    ensures var id := st.news[(b, p)];
      && id in st.infos && id >= 0 && !st.infos[id].fInTried && b < NEW_BUCKET_COUNT
      && LoadedSlot(h, key, after, b, New(st, id), true) == SlotSet(after, (b, p), New(st, id))
  {
    hide Consistent, New, SlotsOf;
    var id := st.news[(b, p)];
    SlotFacts(h, key, st, 0, {}, (b, p));
    NewInjective(h, key, st, id, id);
    CountOf(h, key, st, 0, {}, id);
    CountBuilding(h, key, after, 0, New(st, id));
    SlotsWithin(h, key, st, after, b, p, id);
    Fewer(SlotsOf(after.news, New(st, id)), SlotsOf(st.news, id) - {(b, p)});
    InSlots(st.news, (b, p));
  }

  lemma InSlots(news: map<Slot, int>, s: Slot)
    requires s in news
    ensures s in SlotsOf(news, news[s])
  {
  }

  lemma EntriesKept(st: State, after: State, s: Slot, x: int)
    requires EntriesOf(st, after) && x in after.infos
    ensures EntriesOf(st, SlotSet(after, s, x))
  {
    hide New;
    var next := SlotSet(after, s, x);
    forall o | o in st.infos
      ensures New(st, o) in next.infos && next.infos[New(st, o)] == Restored(st, o, next.infos[New(st, o)].nRefCount)
    {
      assert after.infos[New(st, o)] == Restored(st, o, after.infos[New(st, o)].nRefCount);
    }
  }

  lemma NewsStep(st: State, after: State, b: nat, p: nat)
    requires NewsUpTo(st, after, b, p)
    requires (b, p) in st.news ==> st.news[(b, p)] in st.infos && st.news[(b, p)] >= 0 && New(st, st.news[(b, p)]) in after.infos
    ensures (b, p) in st.news ==> NewsUpTo(st, SlotSet(after, (b, p), New(st, st.news[(b, p)])), b, p + 1)
    ensures (b, p) !in st.news ==> NewsUpTo(st, after, b, p + 1)
  {
    hide New;
    forall s ensures Before(s, b, p + 1) <==> Before(s, b, p) || s == (b, p) {
    }
  }

  ghost predicate Placed(h: Hasher, key: Key, st: State, after: State, b: nat, p: nat) {
    Building(h, key, after, 0) && NewFirst(after) && EntriesOf(st, after) && NewsUpTo(st, after, b, p)
  }

  lemma PlaceOne(h: Hasher, key: Key, st: State, after: State, b: nat, p: nat)
    requires Consistent(h, key, st, 0, {}) && Placed(h, key, st, after, b, p) && (b, p) in st.news
    ensures st.news[(b, p)] in st.infos && st.news[(b, p)] >= 0
    ensures var next := LoadedSlot(h, key, after, b, Rank(st.infos, st.news[(b, p)], false), true);
      Placed(h, key, st, next, b, p + 1) && next.tried == after.tried && next.nTried == after.nTried
  {
    SlotFree(h, key, st, after, b, p);
    var id := st.news[(b, p)];
    LoadedSlotBuilds(h, key, after, 0, b, New(st, id), true);
    hide Consistent, EntriesOf, NewsUpTo, Building, LoadedSlot;
    EntriesKept(st, after, (b, p), New(st, id));
    NewsStep(st, after, b, p);
  }

  lemma {:induction false} BucketPlaced(h: Hasher, key: Key, st: State, start: State, b: nat, p: nat)
    requires Consistent(h, key, st, 0, {}) && Placed(h, key, st, start, b, 0)
    requires forall s :: s in st.news ==> st.news[s] >= 0
    ensures var after := LoadBucket(h, key, start, b, BucketRanks(st.infos, st.news, b, p), true);
      Placed(h, key, st, after, b, p) && after.tried == start.tried && after.nTried == start.nTried
  {
    hide Consistent, EntriesOf, NewsUpTo, Building, LoadedSlot;
    if p > 0 {
      BucketPlaced(h, key, st, start, b, p - 1);
      var ranks := BucketRanks(st.infos, st.news, b, p - 1);
      var mid := LoadBucket(h, key, start, b, ranks, true);
      if (b, p - 1) in st.news {
        PlaceOne(h, key, st, mid, b, p - 1);
        var x := Rank(st.infos, st.news[(b, p - 1)], false);
        assert (ranks + [x])[..|ranks|] == ranks;
      } else {
        NewsStep(st, mid, b, p - 1);
        assert ranks + [] == ranks;
      }
    }
  }

  lemma NextBucket(h: Hasher, key: Key, st: State, after: State, b: nat)
    requires Consistent(h, key, st, 0, {}) && NewsUpTo(st, after, b, BUCKET_SIZE)
    ensures NewsUpTo(st, after, b + 1, 0)
  {
    hide Consistent, New;
    forall s | s in st.news ensures Before(s, b + 1, 0) <==> Before(s, b, BUCKET_SIZE) {
      SlotFacts(h, key, st, 0, {}, s);
    }
  }

  lemma {:induction false} BucketsPlaced(h: Hasher, key: Key, st: State, start: State, b: nat)
    requires Consistent(h, key, st, 0, {}) && Placed(h, key, st, start, 0, 0) && b <= NEW_BUCKET_COUNT
    requires st.nIdCount >= 0 && st.nNew >= 0 && st.nTried >= 0
    requires forall s :: s in st.news ==> st.news[s] >= 0
    ensures var after := LoadBuckets(h, key, start, Stored(key, st).buckets[..b], true);
      Placed(h, key, st, after, b, 0) && after.tried == start.tried && after.nTried == start.nTried
  {
    hide Consistent, EntriesOf, NewsUpTo, Building, LoadedSlot, LoadBucket;
    if b > 0 {
      BucketsPlaced(h, key, st, start, b - 1);
      var all := Stored(key, st).buckets;
      assert all[..b][..b - 1] == all[..b - 1] && all[..b][b - 1] == BucketRanks(st.infos, st.news, b - 1, BUCKET_SIZE);
      var mid := LoadBuckets(h, key, start, all[..b - 1], true);
      BucketPlaced(h, key, st, mid, b - 1, BUCKET_SIZE);
      NextBucket(h, key, st, LoadBucket(h, key, mid, b - 1, all[b - 1], true), b - 1);
    }
  }

  lemma StoredOk(h: Hasher, key: Key, st: State)
    requires Consistent(h, key, st, 0, {}) && st.nIdCount >= 0
    ensures st.nNew >= 0 && st.nTried >= 0 && forall s :: s in st.news ==> st.news[s] >= 0
    ensures Framed(Stored(key, st)) && Usable(Stored(key, st)) && Stored(key, st).nKey == key
  {
    hide Consistent;
    Listed(h, key, st);
    IdsNatural(h, key, st, 0, {});
  }

  /** Different ids give different list places. */
  lemma IdsDiffer(infos: Infos, n: nat, settled: bool, i: nat, j: nat)
    requires i < |Ids(infos, n, settled)| && j < |Ids(infos, n, settled)| && i != j
    ensures Ids(infos, n, settled)[i] != Ids(infos, n, settled)[j]
  {
    RankOf(infos, n, settled, i);
    RankOf(infos, n, settled, j);
  }

  lemma SavedTriedSlots(h: Hasher, key: Key, st: State)
    requires Consistent(h, key, st, 0, {}) && st.nIdCount >= 0
    ensures AllDiffer(TriedSlots(h, key, Records(st.infos, Ids(st.infos, st.nIdCount, true))))
  {
    var ids := Ids(st.infos, st.nIdCount, true);
    var slots := TriedSlots(h, key, Records(st.infos, ids));
    forall i, j | 0 <= i < j < |ids| ensures slots[i] != slots[j] {
      IdsDiffer(st.infos, st.nIdCount, true, i, j);
      assert InItsSlot(h, key, st.infos, st.tried, ids[i]) && InItsSlot(h, key, st.infos, st.tried, ids[j]);
    }
  }

  lemma ListsDiffer(h: Hasher, key: Key, st: State, i: nat, j: nat)
    requires Consistent(h, key, st, 0, {}) && st.nIdCount >= 0
    requires i < j < |Ids(st.infos, st.nIdCount, false) + Ids(st.infos, st.nIdCount, true)|
    ensures var ids := Ids(st.infos, st.nIdCount, false) + Ids(st.infos, st.nIdCount, true); ids[i] != ids[j]
  {
    hide Consistent;
    Listed(h, key, st);
    var n := |Ids(st.infos, st.nIdCount, false)|;
    if j < n {
      IdsDiffer(st.infos, st.nIdCount, false, i, j);
    } else if i >= n {
      IdsDiffer(st.infos, st.nIdCount, true, i - n, j - n);
    }
  }

  lemma SavedAddresses(h: Hasher, key: Key, st: State)
    requires Consistent(h, key, st, 0, {}) && st.nIdCount >= 0
    ensures Distinct(Records(st.infos, Ids(st.infos, st.nIdCount, false)) + Records(st.infos, Ids(st.infos, st.nIdCount, true)))
  {
    hide Consistent;
    AddrOf(h, key, st, 0, {});
    var a, b := Ids(st.infos, st.nIdCount, false), Ids(st.infos, st.nIdCount, true);
    var all, ids := Records(st.infos, a) + Records(st.infos, b), a + b;
    forall i, j | 0 <= i < j < |all| ensures all[i].addr.ip != all[j].addr.ip {
      ListsDiffer(h, key, st, i, j);
      assert all[i] == Write(st.infos[ids[i]]) && all[j] == Write(st.infos[ids[j]]);
      assert st.addrs[st.infos[ids[i]].addr.ip] == ids[i] && st.addrs[st.infos[ids[j]].addr.ip] == ids[j];
    }
  }

  //////////////////////////////////////////////////////////////////////////////

  /** An entry comes back as it was written, but for what is memory-only. */
  lemma WrittenBack(info: AddrInfo)
    ensures Read(Write(info)) == info.(nLastTry := 0, nRefCount := 0, fInTried := false, nRandomPos := -1)
  {
  }

  /** The k-th entry is that of the k-th id of the new table, or further on of the tried one. */
  ghost predicate EntryAt(st: State, mid: State, k: int)
    requires st.nIdCount >= 0 && |Ids(st.infos, st.nIdCount, false)| == st.nNew && |Ids(st.infos, st.nIdCount, true)| == st.nTried
    requires 0 <= k < st.nNew + st.nTried && k in mid.infos
  {
    if k < st.nNew then mid.infos[k] == Read(Write(st.infos[Ids(st.infos, st.nIdCount, false)[k]])).(nRandomPos := k)
    else mid.infos[k] == Read(Write(st.infos[Ids(st.infos, st.nIdCount, true)[k - st.nNew]])).(nRandomPos := k, fInTried := true)
  }

  lemma EntryBack(h: Hasher, key: Key, st: State, mid: State, id: int)
    requires Consistent(h, key, st, 0, {}) && st.nIdCount >= 0 && id in st.infos
    requires |Ids(st.infos, st.nIdCount, false)| == st.nNew && |Ids(st.infos, st.nIdCount, true)| == st.nTried
    requires forall k :: 0 <= k < st.nNew + st.nTried ==> k in mid.infos && EntryAt(st, mid, k)
    ensures id >= 0 && New(st, id) in mid.infos && mid.infos[New(st, id)] == Restored(st, id, 0)
  {
    hide Consistent, Ids, Write, Read, Rank;
    NewInList(h, key, st, id);
    NewInjective(h, key, st, id, id);
    WrittenBack(st.infos[id]);
    assert EntryAt(st, mid, New(st, id));
  }

  lemma EntryNew(st: State, mid: State, k: int)
    requires st.nIdCount >= 0 && |Ids(st.infos, st.nIdCount, false)| == st.nNew && |Ids(st.infos, st.nIdCount, true)| == st.nTried
    requires 0 <= k < st.nNew + st.nTried && k in mid.infos && EntryAt(st, mid, k)
    ensures mid.infos[k].nRefCount == 0
  {
    hide Ids, Write, Read;
    var settled := k >= st.nNew;
    WrittenBack(st.infos[Ids(st.infos, st.nIdCount, settled)[if settled then k - st.nNew else k]]);
  }

  lemma FirstEntries(h: Hasher, key: Key, st: State, mid: State)
    requires Consistent(h, key, st, 0, {}) && st.nIdCount >= 0
    requires |Ids(st.infos, st.nIdCount, false)| == st.nNew == mid.nNew && |Ids(st.infos, st.nIdCount, true)| == st.nTried
    requires forall k :: k in mid.infos <==> 0 <= k < st.nNew + st.nTried
    requires forall k :: 0 <= k < st.nNew + st.nTried ==> EntryAt(st, mid, k)
    ensures EntriesOf(st, mid) && forall k :: k in mid.infos ==> mid.infos[k].nRefCount == 0
  {
    hide Consistent, Ids, New, Restored, EntryAt;
    forall id | id in st.infos
      ensures id >= 0 && New(st, id) in mid.infos && mid.infos[New(st, id)] == Restored(st, id, mid.infos[New(st, id)].nRefCount)
    {
      EntryBack(h, key, st, mid, id);
      EntryNew(st, mid, New(st, id));
    }
    forall k | k in mid.infos ensures mid.infos[k].nRefCount == 0 {
      EntryNew(st, mid, k);
    }
  }

  lemma WrittenEntries(h: Hasher, key: Key, st: State, mid: State)
    requires Consistent(h, key, st, 0, {}) && st.nIdCount >= 0
    requires |Ids(st.infos, st.nIdCount, false)| == st.nNew == mid.nNew && |Ids(st.infos, st.nIdCount, true)| == st.nTried
    requires forall k :: k in mid.infos <==> 0 <= k < st.nNew + st.nTried
    requires var recent := Records(st.infos, Ids(st.infos, st.nIdCount, false));
      forall k :: 0 <= k < st.nNew ==> mid.infos[k] == Read(recent[k]).(nRandomPos := k)
    requires var settled := Records(st.infos, Ids(st.infos, st.nIdCount, true));
      forall k :: st.nNew <= k < st.nNew + st.nTried ==> mid.infos[k] == Read(settled[k - st.nNew]).(nRandomPos := k, fInTried := true)
    ensures EntriesOf(st, mid) && forall k :: k in mid.infos ==> mid.infos[k].nRefCount == 0
  {
    hide Consistent, Ids, Write, Read, EntriesOf;
    var recent, settled := Records(st.infos, Ids(st.infos, st.nIdCount, false)), Records(st.infos, Ids(st.infos, st.nIdCount, true));
    forall k | 0 <= k < st.nNew + st.nTried ensures EntryAt(st, mid, k) {
      assert k < st.nNew ==> recent[k] == Write(st.infos[Ids(st.infos, st.nIdCount, false)[k]]);
      assert k >= st.nNew ==> settled[k - st.nNew] == Write(st.infos[Ids(st.infos, st.nIdCount, true)[k - st.nNew]]);
    }
    FirstEntries(h, key, st, mid);
  }

  /** The tried table is what it was when it was saved, renumbered. */
  ghost predicate TriedRestored(st: State, after: State) {
    && (forall t :: t in after.tried <==> t in st.tried)
    && (forall t :: t in st.tried ==> st.tried[t] in st.infos && st.tried[t] >= 0 && after.tried[t] == New(st, st.tried[t]))
  }

  lemma TriedBack(h: Hasher, key: Key, st: State, after: State)
    requires Consistent(h, key, st, 0, {}) && st.nIdCount >= 0 && st.nNew >= 0
    requires TriedIs(after.tried, TriedSlots(h, key, Records(st.infos, Ids(st.infos, st.nIdCount, true))), st.nNew)
    ensures TriedRestored(st, after)
  {
    var ids := Ids(st.infos, st.nIdCount, true);
    var slots := TriedSlots(h, key, Records(st.infos, ids));
    forall t | t in st.tried
      ensures t in after.tried && st.tried[t] in st.infos && st.tried[t] >= 0 && after.tried[t] == New(st, st.tried[t])
    {
      var id := st.tried[t];
      assert TriedSlotOk(h, key, st.infos, t, id);
      NewInList(h, key, st, id);
      assert slots[Rank(st.infos, id, true)] == t;
    }
    forall t | t in after.tried ensures t in st.tried {
      var id := ids[after.tried[t] - st.nNew];
      assert InItsSlot(h, key, st.infos, st.tried, id);
    }
  }

  lemma BothBack(h: Hasher, key: Key, st: State, a: State, mid: State)
    requires Consistent(h, key, st, 0, {}) && st.nIdCount >= 0 && st.nNew >= 0
    requires |Ids(st.infos, st.nIdCount, false)| == st.nNew && |Ids(st.infos, st.nIdCount, true)| == st.nTried
    requires RecentAre(a, Records(st.infos, Ids(st.infos, st.nIdCount, false)), st.nNew)
    requires SettledAre(a, mid, Records(st.infos, Ids(st.infos, st.nIdCount, true)))
    ensures EntriesOf(st, mid) && mid.nTried == st.nTried && mid.news == map[]
  {
    hide Consistent, EntriesOf, Read, Write, Ids;
    WrittenEntries(h, key, st, mid);
  }

  /** All entries are back and both tables filled, except for the positions in the new one. */
  lemma EntriesBack(h: Hasher, key: Key, st: State)
    requires Consistent(h, key, st, 0, {}) && st.nIdCount >= 0 && st.nNew >= 0
    ensures var a := LoadRecent(h, key, Blank(st.nNew), Records(st.infos, Ids(st.infos, st.nIdCount, false)), true);
      var mid := LoadSettled(h, key, a, Records(st.infos, Ids(st.infos, st.nIdCount, true)));
      EntriesOf(st, mid) && TriedRestored(st, mid) && mid.nTried == st.nTried && mid.news == map[]
  {
    hide Consistent, LoadRecent, LoadSettled, EntriesOf, TriedRestored, TriedIs, TriedSlot, Read, Write, SettledAre, Ids;
    var recent, settled := Records(st.infos, Ids(st.infos, st.nIdCount, false)), Records(st.infos, Ids(st.infos, st.nIdCount, true));
    var a := LoadRecent(h, key, Blank(st.nNew), recent, true);
    var mid := LoadSettled(h, key, a, settled);
    Listed(h, key, st);
    RecentIs(h, key, recent, st.nNew);
    SavedTriedSlots(h, key, st);
    SettledIs(h, key, a, settled);
    BothBack(h, key, st, a, mid);
    TriedBack(h, key, st, mid);
  }

  lemma MidPlaced(h: Hasher, key: Key, st: State)
    requires Consistent(h, key, st, 0, {}) && st.nIdCount >= 0 && st.nNew >= 0
    ensures var a := LoadRecent(h, key, Blank(st.nNew), Records(st.infos, Ids(st.infos, st.nIdCount, false)), true);
      var mid := LoadSettled(h, key, a, Records(st.infos, Ids(st.infos, st.nIdCount, true)));
      Placed(h, key, st, mid, 0, 0) && TriedRestored(st, mid) && mid.nTried == st.nTried
  {
    hide Consistent, LoadRecent, LoadSettled, EntriesOf, TriedRestored, Building;
    var recent, settled := Records(st.infos, Ids(st.infos, st.nIdCount, false)), Records(st.infos, Ids(st.infos, st.nIdCount, true));
    var a := LoadRecent(h, key, Blank(st.nNew), recent, true);
    Listed(h, key, st);
    EntriesBack(h, key, st);
    SavedAddresses(h, key, st);
    PartsDistinct(recent, settled);
    LoadRecentBuilds(h, key, recent, true, st.nNew);
    LoadSettledBuilds(h, key, a, 0, settled);
  }

  /** The loaded state is the saved one, renumbered; only the memory-only times and the random order are new. */
  ghost predicate Restores(st: State, after: State) {
    && after.nNew == st.nNew && after.nTried == st.nTried
    && (forall k :: k in after.infos ==> 0 <= k < st.nNew + st.nTried)
    && (forall id :: id in st.infos ==>
          id >= 0 && New(st, id) in after.infos
          && after.infos[New(st, id)] == st.infos[id].(nLastTry := 0, nRandomPos := New(st, id)))
    && (forall s :: s in after.news <==> s in st.news)
    && (forall s :: s in st.news ==> st.news[s] in st.infos && st.news[s] >= 0 && after.news[s] == New(st, st.news[s]))
    && TriedRestored(st, after)
  }

  lemma CountBack(h: Hasher, key: Key, st: State, after: State, id: int)
    requires Consistent(h, key, st, 0, {}) && Placed(h, key, st, after, NEW_BUCKET_COUNT, 0) && id in st.infos && id >= 0
    ensures New(st, id) in after.infos && after.infos[New(st, id)].nRefCount == st.infos[id].nRefCount
  {
    hide Consistent, New;
    CountOf(h, key, st, 0, {}, id);
    CountBuilding(h, key, after, 0, New(st, id));
    SlotsWithin(h, key, st, after, NEW_BUCKET_COUNT, 0, id);
    forall s | s in SlotsOf(st.news, id) ensures s in SlotsOf(after.news, New(st, id)) {
      SlotFacts(h, key, st, 0, {}, s);
    }
    assert SlotsOf(after.news, New(st, id)) == SlotsOf(st.news, id);
  }

  lemma PlacedRestores(h: Hasher, key: Key, st: State, after: State)
    requires Consistent(h, key, st, 0, {}) && Placed(h, key, st, after, NEW_BUCKET_COUNT, 0)
    requires TriedRestored(st, after) && after.nTried == st.nTried
    ensures Restores(st, after)
  {
    hide Consistent, New, Building;
    forall id | id in st.infos ensures after.infos[New(st, id)] == st.infos[id].(nLastTry := 0, nRandomPos := New(st, id)) {
      CountBack(h, key, st, after, id);
    }
    forall s | s in st.news
      ensures s in after.news && st.news[s] in st.infos && st.news[s] >= 0 && after.news[s] == New(st, st.news[s])
    {
      SlotFacts(h, key, st, 0, {}, s);
    }
  }

  lemma NoOrphans(h: Hasher, key: Key, st: State, after: State, k: int)
    requires Consistent(h, key, st, 0, {}) && st.nIdCount >= 0 && Restores(st, after)
    ensures !IsOrphan(after.infos, k)
  {
    hide Consistent;
    if k in after.infos {
      var id := NewOnto(h, key, st, k);
      CountRange(h, key, st, 0, {}, id);
    }
  }

  lemma SavedConsistent(h: Hasher, key: Key, st: State)
    requires Consistent(h, key, st, 0, {}) && st.nIdCount >= 0 && st.nNew >= 0 && st.nTried >= 0
    requires (forall s :: s in st.news ==> st.news[s] >= 0) && Framed(Stored(key, st))
    ensures Consistent(h, key, Load(h, Stored(key, st)), 0, {})
  {
    hide Consistent, Load, Unpruned, Unshared;
    SavedAddresses(h, key, st);
    DistinctUnshared(h, Stored(key, st));
    LoadConsistent(h, Stored(key, st));
  }

  /** Saving and loading into a new address manager loses nothing, and gives a consistent one. */
  lemma RoundTrip(h: Hasher, key: Key, st: State)
    requires Consistent(h, key, st, 0, {}) && st.nIdCount >= 0
    ensures st.nNew >= 0 && st.nTried >= 0 && forall s :: s in st.news ==> st.news[s] >= 0
    ensures var after := Load(h, Stored(key, st)); Restores(st, after) && Consistent(h, key, after, 0, {})
  {
    hide Consistent, LoadRecent, LoadSettled, Restores, TriedRestored, Placed;
    StoredOk(h, key, st);
    var s := Stored(key, st);
    SavedConsistent(h, key, st);
    MidPlaced(h, key, st);
    var a := LoadRecent(h, key, Blank(st.nNew), s.recent, true);
    var mid := LoadSettled(h, key, a, s.settled);
    BucketsPlaced(h, key, st, mid, NEW_BUCKET_COUNT);
    assert s.buckets[..NEW_BUCKET_COUNT] == s.buckets;
    var u := Unpruned(h, s);
    RestoredThrough(st, mid, u);
    PlacedRestores(h, key, st, u);
    forall k ensures !IsOrphan(u.infos, k) {
      NoOrphans(h, key, st, u, k);
    }
    UnprunedLoading(h, s);
    PrunedNothing(u, u.nIdCount);
  }

  lemma RestoredThrough(st: State, mid: State, after: State)
    requires TriedRestored(st, mid) && after.tried == mid.tried
    ensures TriedRestored(st, after)
  {
  }

  //////////////////////////////////////////////////////////////////////////////
  // The table-size limits
  //////////////////////////////////////////////////////////////////////////////

  ghost predicate Holds(m: map<Slot, int>, slots: set<Slot>, id: int) {
    exists s :: s in slots && s in m && m[s] == id
  }

  lemma Member<T>(ids: set<T>) returns (id: T)
    requires ids != {}
    ensures id in ids
  {
    id :| id in ids;
  }

  lemma {:induction false} OneSlotEach(ids: set<int>, slots: set<Slot>, m: map<Slot, int>)
    requires forall id :: id in ids ==> Holds(m, slots, id)
    ensures |ids| <= |slots|
    decreases |ids|
  {
    if ids != {} {
      var id := Member(ids);
      var s :| s in slots && s in m && m[s] == id;
      forall o | o in ids - {id} ensures Holds(m, slots - {s}, o) {
        var q :| q in slots && q in m && m[q] == o;
        assert q in slots - {s};
      }
      OneSlotEach(ids - {id}, slots - {s}, m);
    }
  }

  lemma {:induction false} RowBound(slots: set<Slot>, row: nat, cols: nat)
    requires forall s :: s in slots ==> s.0 == row && s.1 < cols
    ensures |slots| <= cols
  {
    if cols > 0 {
      RowBound(slots - {(row, cols - 1)}, row, cols - 1);
      assert slots <= (slots - {(row, cols - 1)}) + {(row, cols - 1)};
      Fewer(slots, (slots - {(row, cols - 1)}) + {(row, cols - 1)});
    } else {
      assert slots == {};
    }
  }

  lemma {:induction false} GridBound(slots: set<Slot>, rows: nat)
    requires forall s :: s in slots ==> s.0 < rows && s.1 < BUCKET_SIZE
    ensures |slots| <= rows * BUCKET_SIZE
  {
    if rows > 0 {
      var last := set s | s in slots && s.0 == rows - 1;
      RowBound(last, rows - 1, BUCKET_SIZE);
      GridBound(slots - last, rows - 1);
      assert |slots| == |slots - last| + |last| by { assert slots == (slots - last) + last; }
    } else {
      assert slots == {};
    }
  }

  /** What is saved never exceeds the limits that loading imposes. */
  lemma WithinLimits(h: Hasher, key: Key, st: State)
    requires Consistent(h, key, st, 0, {})
    ensures 0 <= st.nNew <= NEW_BUCKET_COUNT * BUCKET_SIZE && 0 <= st.nTried <= TRIED_BUCKET_COUNT * BUCKET_SIZE
  {
    forall id | id in NewIds(st.infos) ensures Holds(st.news, st.news.Keys, id) {
      var s := SomeSlot(h, key, st.infos, st.news, id);
    }
    OneSlotEach(NewIds(st.infos), st.news.Keys, st.news);
    forall s | s in st.news.Keys ensures s.0 < NEW_BUCKET_COUNT && s.1 < BUCKET_SIZE {
      assert NewSlotOk(h, key, st.infos, s, st.news[s]);
    }
    GridBound(st.news.Keys, NEW_BUCKET_COUNT);
    forall id | id in TriedIds(st.infos) ensures Holds(st.tried, st.tried.Keys, id) {
      assert InItsSlot(h, key, st.infos, st.tried, id);
    }
    OneSlotEach(TriedIds(st.infos), st.tried.Keys, st.tried);
    forall s | s in st.tried.Keys ensures s.0 < TRIED_BUCKET_COUNT && s.1 < BUCKET_SIZE {
      assert TriedSlotOk(h, key, st.infos, s, st.tried[s]);
    }
    GridBound(st.tried.Keys, TRIED_BUCKET_COUNT);
  }

  //////////////////////////////////////////////////////////////////////////////
  // The code that saves
  //////////////////////////////////////////////////////////////////////////////

  /** One pass over the entries of one table, in the order of their ids. */
  method SerializeNew(m: M.AddrMan) returns (recent: seq<Record>, mapUnkIds: map<int, int>)
    requires m.Valid()
    ensures recent == Records(m.mapInfo, Ids(m.mapInfo, m.nIdCount, false))
    ensures forall id :: id in m.mapInfo ==> id >= 0 && id in mapUnkIds && mapUnkIds[id] == Rank(m.mapInfo, id, false)
  {
    hide Consistent;
    Listed(m.h, m.nKey, m.St());
    IdsNatural(m.h, m.nKey, m.St(), 0, {});
    recent, mapUnkIds := [], map[];
    var nIds := 0;
    for id := 0 to m.nIdCount
      invariant nIds == |recent| && recent == Records(m.mapInfo, Ids(m.mapInfo, id, false))
      invariant forall o :: o in m.mapInfo && o < id ==> o in mapUnkIds && mapUnkIds[o] == Rank(m.mapInfo, o, false)
    {
      if id in m.mapInfo {
        mapUnkIds := mapUnkIds[id := nIds];
        var info := m.mapInfo[id];
        if info.nRefCount != 0 {
          IdsAt(m.mapInfo, m.nIdCount, false, id);
          assert nIds != m.nNew;
          recent := recent + [Write(info)];
          nIds := nIds + 1;
        }
      }
    }
  }

  method SerializeTried(m: M.AddrMan) returns (settled: seq<Record>)
    requires m.Valid()
    ensures settled == Records(m.mapInfo, Ids(m.mapInfo, m.nIdCount, true))
  {
    hide Consistent;
    Listed(m.h, m.nKey, m.St());
    settled := [];
    var nIds := 0;
    for id := 0 to m.nIdCount
      invariant nIds == |settled| && settled == Records(m.mapInfo, Ids(m.mapInfo, id, true))
    {
      if id in m.mapInfo {
        var info := m.mapInfo[id];
        if info.fInTried {
          IdsAt(m.mapInfo, m.nIdCount, true, id);
          assert nIds != m.nTried;
          settled := settled + [Write(info)];
          nIds := nIds + 1;
        }
      }
    }
  }

  method SerializeBucket(m: M.AddrMan, bucket: nat, mapUnkIds: map<int, int>) returns (nSize: int, list: seq<int>)
    requires m.Valid() && bucket < NEW_BUCKET_COUNT
    requires forall id :: id in m.mapInfo ==> id >= 0 && id in mapUnkIds && mapUnkIds[id] == Rank(m.mapInfo, id, false)
    ensures forall s :: s in m.news ==> m.news[s] >= 0
    ensures list == BucketRanks(m.mapInfo, m.news, bucket, BUCKET_SIZE) && nSize == |list|
  {
    hide Consistent, M.AddrMan.Arrays, Rank, BucketRanks;
    IdsNatural(m.h, m.nKey, m.St(), 0, {});
    nSize := BucketSize(m, bucket);
    list := [];
    RanksEmpty(m.mapInfo, m.news, bucket);
    for i := 0 to BUCKET_SIZE
      invariant list == BucketRanks(m.mapInfo, m.news, bucket, i)
    {
      NewCell(m, bucket, i);
      RanksNext(m.mapInfo, m.news, bucket, i);
      if m.vvNew[bucket, i] != -1 {
        SlotFacts(m.h, m.nKey, m.St(), 0, {}, (bucket, i));
        list := list + [mapUnkIds[m.vvNew[bucket, i]]];
      }
    }
  }

  method BucketSize(m: M.AddrMan, bucket: nat) returns (nSize: int)
    requires m.Valid() && bucket < NEW_BUCKET_COUNT
    ensures forall s :: s in m.news ==> m.news[s] >= 0
    ensures nSize == |BucketRanks(m.mapInfo, m.news, bucket, BUCKET_SIZE)|
  {
    hide Consistent, M.AddrMan.Arrays, Rank, BucketRanks;
    IdsNatural(m.h, m.nKey, m.St(), 0, {});
    nSize := 0;
    RanksEmpty(m.mapInfo, m.news, bucket);
    for i := 0 to BUCKET_SIZE
      invariant nSize == |BucketRanks(m.mapInfo, m.news, bucket, i)|
    {
      NewCell(m, bucket, i);
      RanksNext(m.mapInfo, m.news, bucket, i);
      if m.vvNew[bucket, i] != -1 {
        nSize := nSize + 1;
      }
    }
  }

  lemma RanksEmpty(infos: Infos, news: map<Slot, int>, b: nat)
    requires forall s :: s in news ==> news[s] >= 0
    ensures BucketRanks(infos, news, b, 0) == []
  {
  }

  lemma RanksNext(infos: Infos, news: map<Slot, int>, b: nat, p: nat)
    requires forall s :: s in news ==> news[s] >= 0
    ensures BucketRanks(infos, news, b, p + 1)
            == if (b, p) in news then BucketRanks(infos, news, b, p) + [Rank(infos, news[(b, p)], false)] else BucketRanks(infos, news, b, p)
  {
  }

  lemma NewCell(m: M.AddrMan, b: nat, p: nat)
    requires m.Arrays() && b < NEW_BUCKET_COUNT && p < BUCKET_SIZE
    ensures m.vvNew.Length0 == NEW_BUCKET_COUNT && m.vvNew.Length1 == BUCKET_SIZE && m.vvNew[b, p] == Cell(m.news, (b, p))
  {
  }

  method Serialize(m: M.AddrMan) returns (s: Saved)
    requires m.Valid()
    ensures m.nNew >= 0 && m.nTried >= 0 && forall q :: q in m.news ==> m.news[q] >= 0
    ensures s == Stored(m.nKey, m.St()) && Framed(s)
    ensures s.nVersion == 1 && s.nKeySize == 32 && s.nKey == m.nKey && s.nNew == m.nNew == |s.recent| && s.nTried == m.nTried == |s.settled|
    ensures s.nUBuckets == 1024 + 1073741824 && |s.buckets| == 1024
  {
    hide Consistent;
    StoredOk(m.h, m.nKey, m.St());
    var recent, mapUnkIds := SerializeNew(m);
    var settled := SerializeTried(m);
    var buckets: seq<seq<int>> := [];
    for bucket := 0 to NEW_BUCKET_COUNT
      invariant |buckets| == bucket
      invariant forall b :: 0 <= b < bucket ==> buckets[b] == BucketRanks(m.mapInfo, m.news, b, BUCKET_SIZE)
    {
      var nSize, list := SerializeBucket(m, bucket, mapUnkIds);
      buckets := buckets + [list];
    }
    s := Saved(1, 32, m.nKey, m.nNew, m.nTried, FlipBit30(NEW_BUCKET_COUNT), recent, settled, buckets);
    assert s.buckets == Stored(m.nKey, m.St()).buckets;
  }

  //////////////////////////////////////////////////////////////////////////////
  // The code that loads
  //////////////////////////////////////////////////////////////////////////////

  datatype Outcome = Loaded(nLost: int, nLostUnk: int) | IncorrectKeySize | NewExceedsLimit | TriedExceedsLimit

  ghost function View(m: M.AddrMan, nTried: int, nIdCount: int): State
    reads m
  {
    m.St().(nTried := nTried, nIdCount := nIdCount)
  }

  /** Empties the tables; the maps keep what they hold. */
  method Clear(m: M.AddrMan, key: Key)
    requires m.Arrays()
    modifies m, m.vvNew, m.vvTried
    ensures m.Arrays() && m.nKey == key
    ensures m.St() == State(old(m.mapInfo), old(m.mapAddr), [], map[], map[], 0, 0, 0)
  {
    m.vRandom := [];
    m.nKey := key;
    forall b, p | 0 <= b < NEW_BUCKET_COUNT && 0 <= p < BUCKET_SIZE {
      m.vvNew[b, p] := -1;
    }
    forall b, p | 0 <= b < TRIED_BUCKET_COUNT && 0 <= p < BUCKET_SIZE {
      m.vvTried[b, p] := -1;
    }
    m.news, m.tried := map[], map[];
    m.nIdCount, m.nTried, m.nNew := 0, 0, 0;
  }

  ghost predicate Natural(m: map<Slot, int>) { forall s :: s in m ==> m[s] >= 0 }

  method UnserializeNew(m: M.AddrMan, n: nat, rec: Record, usable: bool, ghost t: int)
    requires m.Arrays() && Natural(m.news)
    modifies m`mapInfo, m`mapAddr, m`vRandom, m`news, m.vvNew
    ensures m.Arrays() && Natural(m.news)
    ensures View(m, t, n + 1) == LoadedNew(m.h, m.nKey, old(View(m, t, n)), rec, usable)
  {
    var info := Read(rec).(nRandomPos := |m.vRandom|);
    m.mapInfo := m.mapInfo[n := info];
    m.mapAddr := m.mapAddr[info.addr.ip := n];
    m.vRandom := m.vRandom + [n];
    if !usable {
      var nUBucket := NewBucket(m.h, m.nKey, info.addr, info.source);
      var nUBucketPos := Position(m.h, m.nKey, true, nUBucket, info.addr);
      if m.vvNew[nUBucket, nUBucketPos] == -1 {
        m.WriteNew((nUBucket, nUBucketPos), n);
        m.mapInfo := m.mapInfo[n := info.(nRefCount := info.nRefCount + 1)];
      }
    }
  }

  method UnserializeTried(m: M.AddrMan, rec: Record, ghost t: int) returns (lost: bool)
    requires m.Arrays() && Natural(m.tried) && m.nIdCount >= 0
    modifies m`mapInfo, m`mapAddr, m`vRandom, m`tried, m`nIdCount, m.vvTried
    ensures m.Arrays() && Natural(m.tried) && m.nIdCount >= 0
    ensures View(m, if lost then t else t + 1, m.nIdCount) == LoadedTried(m.h, m.nKey, old(View(m, t, m.nIdCount)), rec)
  {
    hide TriedBucket, Position;
    var info := Read(rec);
    var nKBucket := TriedBucket(m.h, m.nKey, info.addr);
    var nKBucketPos := Position(m.h, m.nKey, false, nKBucket, info.addr);
    lost := m.vvTried[nKBucket, nKBucketPos] != -1;
    if !lost {
      info := info.(nRandomPos := |m.vRandom|, fInTried := true);
      m.vRandom := m.vRandom + [m.nIdCount];
      m.mapInfo := m.mapInfo[m.nIdCount := info];
      m.mapAddr := m.mapAddr[info.addr.ip := m.nIdCount];
      m.WriteTried((nKBucket, nKBucketPos), m.nIdCount);
      m.nIdCount := m.nIdCount + 1;
    }
  }

  method UnserializePosition(m: M.AddrMan, bucket: nat, nIndex: int, usable: bool)
    requires m.Arrays() && Natural(m.news) && (usable ==> bucket < NEW_BUCKET_COUNT)
    requires forall k :: 0 <= k < m.nNew ==> k in m.mapInfo
    modifies m`mapInfo, m`news, m.vvNew
    ensures m.Arrays() && Natural(m.news) && forall k :: 0 <= k < m.nNew ==> k in m.mapInfo
    ensures m.St() == LoadedSlot(m.h, m.nKey, old(m.St()), bucket, nIndex, usable)
  {
    if nIndex >= 0 && nIndex < m.nNew {
      var info := m.mapInfo[nIndex];
      var nUBucketPos := Position(m.h, m.nKey, true, bucket, info.addr);
      if usable && m.vvNew[bucket, nUBucketPos] == -1 && info.nRefCount < NEW_BUCKETS_PER_ADDRESS {
        m.mapInfo := m.mapInfo[nIndex := info.(nRefCount := info.nRefCount + 1)];
        m.WriteNew((bucket, nUBucketPos), nIndex);
      }
    }
  }

  lemma {:induction false} LoadRecentKeys(h: Hasher, key: Key, recs: seq<Record>, usable: bool, nNew: nat)
    ensures var st := LoadRecent(h, key, Blank(nNew), recs, usable);
      FirstOnly(st, |recs|) && st.nIdCount == |recs| && st.nNew == nNew && st.nTried == 0 && st.tried == map[]
  {
    hide LoadedNew;
    if recs != [] {
      LoadRecentKeys(h, key, recs[..|recs| - 1], usable, nNew);
      LoadedNewAdds(h, key, LoadRecent(h, key, Blank(nNew), recs[..|recs| - 1], usable), recs[|recs| - 1], usable);
    }
  }

  lemma {:induction false} LoadSettledKeys(h: Hasher, key: Key, st: State, recs: seq<Record>)
    ensures var after := LoadSettled(h, key, st, recs);
      st.infos.Keys <= after.infos.Keys && after.nNew == st.nNew && after.news == st.news
  {
    if recs != [] {
      LoadSettledKeys(h, key, st, recs[..|recs| - 1]);
    }
  }

  lemma {:induction false} PrunedTried(st: State, n: nat)
    ensures Pruned(st, n).nTried == st.nTried && Pruned(st, n).nIdCount == st.nIdCount
  {
    if n > 0 {
      PrunedTried(st, n - 1);
    }
  }

  method UnserializeAllNew(m: M.AddrMan, recs: seq<Record>, usable: bool)
    requires m.Arrays() && m.nNew >= 0 && View(m, 0, 0) == Blank(m.nNew)
    modifies m`mapInfo, m`mapAddr, m`vRandom, m`news, m.vvNew
    ensures m.Arrays() && Natural(m.news)
    ensures View(m, 0, |recs|) == LoadRecent(m.h, m.nKey, Blank(m.nNew), recs, usable)
  {
    hide LoadedNew, M.AddrMan.Arrays;
    for n := 0 to |recs|
      invariant m.Arrays() && Natural(m.news)
      invariant View(m, 0, n) == LoadRecent(m.h, m.nKey, Blank(m.nNew), recs[..n], usable)
    {
      UnserializeNew(m, n, recs[n], usable, 0);
      assert recs[..n + 1][..n] == recs[..n];
    }
    assert recs[..|recs|] == recs;
  }

  method UnserializeAllTried(m: M.AddrMan, recs: seq<Record>) returns (nLost: int)
    requires m.Arrays() && Natural(m.tried) && m.nIdCount >= 0
    modifies m`mapInfo, m`mapAddr, m`vRandom, m`tried, m`nIdCount, m.vvTried
    ensures m.Arrays() && Natural(m.tried) && m.nIdCount >= 0
    ensures View(m, |recs| - nLost, m.nIdCount) == LoadSettled(m.h, m.nKey, old(View(m, 0, m.nIdCount)), recs)
  {
    hide LoadedTried, M.AddrMan.Arrays;
    nLost := 0;
    for n := 0 to |recs|
      invariant m.Arrays() && Natural(m.tried) && m.nIdCount >= 0
      invariant View(m, n - nLost, m.nIdCount) == LoadSettled(m.h, m.nKey, old(View(m, 0, m.nIdCount)), recs[..n])
    {
      var lost := UnserializeTried(m, recs[n], n - nLost);
      if lost {
        nLost := nLost + 1;
      }
      assert recs[..n + 1][..n] == recs[..n];
    }
    assert recs[..|recs|] == recs;
  }

  method UnserializeBucket(m: M.AddrMan, bucket: nat, list: seq<int>, usable: bool)
    requires m.Arrays() && Natural(m.news) && (usable ==> bucket < NEW_BUCKET_COUNT)
    requires forall k :: 0 <= k < m.nNew ==> k in m.mapInfo
    modifies m`mapInfo, m`news, m.vvNew
    ensures m.Arrays() && Natural(m.news) && forall k :: 0 <= k < m.nNew ==> k in m.mapInfo
    ensures m.St() == LoadBucket(m.h, m.nKey, old(m.St()), bucket, list, usable)
  {
    hide LoadedSlot, M.AddrMan.Arrays;
    for n := 0 to |list|
      invariant m.Arrays() && Natural(m.news) && forall k :: 0 <= k < m.nNew ==> k in m.mapInfo
      invariant m.St() == LoadBucket(m.h, m.nKey, old(m.St()), bucket, list[..n], usable)
    {
      UnserializePosition(m, bucket, list[n], usable);
      assert list[..n + 1][..n] == list[..n];
    }
    assert list[..|list|] == list;
  }

  method UnserializeBuckets(m: M.AddrMan, buckets: seq<seq<int>>, usable: bool)
    requires m.Arrays() && Natural(m.news) && (usable ==> |buckets| <= NEW_BUCKET_COUNT)
    requires forall k :: 0 <= k < m.nNew ==> k in m.mapInfo
    modifies m`mapInfo, m`news, m.vvNew
    ensures m.Arrays() && m.St() == LoadBuckets(m.h, m.nKey, old(m.St()), buckets, usable)
  {
    hide LoadBucket, M.AddrMan.Arrays;
    for b := 0 to |buckets|
      invariant m.Arrays() && Natural(m.news) && forall k :: 0 <= k < m.nNew ==> k in m.mapInfo
      invariant m.St() == LoadBuckets(m.h, m.nKey, old(m.St()), buckets[..b], usable)
    {
      UnserializeBucket(m, b, buckets[b], usable);
      assert buckets[..b + 1][..b] == buckets[..b];
    }
    assert buckets[..|buckets|] == buckets;
  }

  /** Drops the entries that ended up in neither table. */
  method Prune(m: M.AddrMan) returns (nLostUnk: int)
    requires m.Arrays() && Loading(m.St())
    modifies m`mapInfo, m`mapAddr, m`vRandom, m`nNew
    ensures m.Arrays() && m.St() == Pruned(old(m.St()), old(m.nIdCount)) && nLostUnk == old(m.nNew) - m.nNew
  {
    hide Deleted, RandomIndex, Cell;
    nLostUnk := 0;
    for id := 0 to m.nIdCount
      invariant m.Arrays() && m.St() == Pruned(old(m.St()), id) && nLostUnk == old(m.nNew) - m.nNew
      invariant Loading(m.St())
    {
      PrunedOneLoading(m.St(), id);
      if id in m.mapInfo && !m.mapInfo[id].fInTried && m.mapInfo[id].nRefCount == 0 {
        DeletedCount(m.St(), id);
        m.Delete(id);
        nLostUnk := nLostUnk + 1;
      }
    }
  }

  lemma DeletedCount(st: State, id: int)
    requires Loading(st) && id in st.infos
    ensures Deleted(st, id).nNew == st.nNew - 1
  {
  }

  ghost predicate Accepted(s: Saved) {
    && s.nKeySize == 32
    && s.nNew <= NEW_BUCKET_COUNT * BUCKET_SIZE && s.nTried <= TRIED_BUCKET_COUNT * BUCKET_SIZE
  }

  /** Loads a stream into a new address manager. */
  method Unserialize(m: M.AddrMan, s: Saved, nRandomKey: Key) returns (r: Outcome)
    requires m.Arrays() && m.mapInfo == map[] && m.mapAddr == map[] && Framed(s)
    modifies m, m.vvNew, m.vvTried
    ensures r.Loaded? <==> Accepted(s)
    ensures r.Loaded? ==> m.Arrays() && m.nKey == s.nKey && m.St() == Load(m.h, s)
    ensures r.Loaded? ==> r.nLost == s.nTried - m.nTried && r.nLostUnk == s.nNew - m.nNew
  {
    hide LoadRecent, LoadSettled, LoadBuckets, Pruned;
    Clear(m, nRandomKey);
    if s.nKeySize != 32 {
      return IncorrectKeySize;
    }
    m.nKey, m.nNew, m.nTried := s.nKey, s.nNew, s.nTried;
    if m.nNew > NEW_BUCKET_COUNT * BUCKET_SIZE {
      return NewExceedsLimit;
    }
    if m.nTried > TRIED_BUCKET_COUNT * BUCKET_SIZE {
      return TriedExceedsLimit;
    }
    UnserializeAllNew(m, s.recent, Usable(s));
    LoadRecentKeys(m.h, m.nKey, s.recent, Usable(s), s.nNew);
    m.nIdCount := m.nNew;
    ghost var a := LoadRecent(m.h, m.nKey, Blank(s.nNew), s.recent, Usable(s));
    var nLost := UnserializeAllTried(m, s.settled);
    LoadSettledKeys(m.h, m.nKey, a, s.settled);
    m.nTried := m.nTried - nLost;
    assert m.St() == LoadSettled(m.h, m.nKey, a, s.settled);
    UnserializeBuckets(m, s.buckets, Usable(s));
    assert m.St() == Unpruned(m.h, s);
    UnprunedLoading(m.h, s);
    PrunedTried(m.St(), m.nIdCount);
    var nLostUnk := Prune(m);
    r := Loaded(nLost, nLostUnk);
  }

  /** Saving an address manager and loading it into a new one. */
  method Reload(m: M.AddrMan, nRandomKey: Key) returns (copy: M.AddrMan, r: Outcome)
    requires m.Valid()
    ensures copy.Valid() && copy.h == m.h && copy.nKey == m.nKey
    ensures r == Loaded(0, 0) && Restores(m.St(), copy.St())
  {
    hide Consistent, Restores, Load, Stored;
    var s := Serialize(m);
    WithinLimits(m.h, m.nKey, m.St());
    StoredHeader(m.nKey, m.St());
    RoundTrip(m.h, m.nKey, m.St());
    copy := new M.AddrMan(m.h, nRandomKey);
    r := Unserialize(copy, s, nRandomKey);
    LoadCounts(m.St(), copy.St());
    assert copy.nIdCount >= 0 by { LoadIds(m.h, s); }
  }

  lemma StoredHeader(key: Key, st: State)
    requires forall s :: s in st.news ==> st.news[s] >= 0
    requires st.nIdCount >= 0 && st.nNew >= 0 && st.nTried >= 0
    ensures var s := Stored(key, st); s.nKeySize == 32 && s.nNew == st.nNew && s.nTried == st.nTried && s.nKey == key
  {
  }

  lemma LoadCounts(st: State, after: State)
    requires Restores(st, after)
    ensures after.nNew == st.nNew && after.nTried == st.nTried
  {
  }

  lemma LoadIds(h: Hasher, s: Saved)
    ensures Load(h, s).nIdCount >= 0
  {
    UnprunedLoading(h, s);
    PrunedTried(Unpruned(h, s), Unpruned(h, s).nIdCount);
  }
}
