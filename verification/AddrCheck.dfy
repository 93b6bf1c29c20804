module AddrCheck {
  // The address manager's own consistency check, and what it decides.

  import opened AddrTables
  import M = AddrMan
  import S = AddrStore

  //////////////////////////////////////////////////////////////////////////////
  // What is checked
  //////////////////////////////////////////////////////////////////////////////

  /** What looking up a missing address gives. */
  function Found(addrs: map<NetAddr, int>, ip: NetAddr): int { if ip in addrs then addrs[ip] else 0 }

  predicate EntryOk(st: State, id: int)
    requires id in st.infos
  {
    var info := st.infos[id];
    && (if info.fInTried then info.nLastSuccess != 0 && info.nRefCount == 0 else 0 < info.nRefCount <= NEW_BUCKETS_PER_ADDRESS)
    && Found(st.addrs, info.addr.ip) == id
    && 0 <= info.nRandomPos < |st.vRandom| && st.vRandom[info.nRandomPos] == id
    && info.nLastTry >= 0 && info.nLastSuccess >= 0
  }

  /** Everything the check looks at is as it should be. */
  ghost predicate Checked(h: Hasher, key: Key, st: State) {
    && |st.vRandom| == st.nTried + st.nNew
    && (forall id :: id in st.infos ==> EntryOk(st, id))
    && st.nTried == |TriedIds(st.infos)| && st.nNew == |NewIds(st.infos)|
    && (forall s :: s in st.tried ==> TriedSlotOk(h, key, st.infos, s, st.tried[s]))
    && (forall id :: id in TriedIds(st.infos) ==> S.Holds(st.tried, st.tried.Keys, id))
    && (forall s :: s in st.news ==> NewSlotOk(h, key, st.infos, s, st.news[s]))
    && (forall id :: id in NewIds(st.infos) ==> st.infos[id].nRefCount == |SlotsOf(st.news, id)|)
    && key != 0
  }

  ghost predicate TimesOk(infos: Infos) {
    forall id :: id in infos ==>
      infos[id].nLastTry >= 0 && infos[id].nLastSuccess >= 0 && (infos[id].fInTried ==> infos[id].nLastSuccess != 0)
  }

  /** A consistent state passes. */
  lemma ConsistentPasses(h: Hasher, key: Key, st: State)
    requires Consistent(h, key, st, 0, {}) && TimesOk(st.infos) && key != 0
    ensures Checked(h, key, st)
  {
    RandomCount(st.infos, st.vRandom);
    assert st.infos.Keys == NewIds(st.infos) + TriedIds(st.infos);
    forall id | id in st.infos ensures EntryOk(st, id) && (!st.infos[id].fInTried ==> st.infos[id].nRefCount == |SlotsOf(st.news, id)|) {
      CountRange(h, key, st, 0, {}, id);
      S.CountOf(h, key, st, 0, {}, id);
      if st.infos[id].fInTried {
        NoSlots(h, key, st.infos, st.news, id);
      }
    }
    forall id | id in TriedIds(st.infos) ensures S.Holds(st.tried, st.tried.Keys, id) {
      assert InItsSlot(h, key, st.infos, st.tried, id);
    }
  }

  /** Ids in places that all differ fill the places if there are as many: the random order is a permutation. */
  lemma {:induction false} PlacesFilled(infos: Infos, vRandom: seq<int>)
    requires |vRandom| == |infos.Keys|
    requires forall id :: id in infos ==> 0 <= infos[id].nRandomPos < |vRandom| && vRandom[infos[id].nRandomPos] == id
    ensures RandomIndex(infos, vRandom)
    decreases |vRandom|
  {
    if vRandom != [] {
      var n := |vRandom| - 1;
      var last := vRandom[n];
      if last in infos && infos[last].nRandomPos == n {
        var rest := infos - {last};
        assert rest.Keys == infos.Keys - {last};
        forall id | id in rest ensures 0 <= rest[id].nRandomPos < n && vRandom[..n][rest[id].nRandomPos] == id {
          assert vRandom[infos[id].nRandomPos] == id;
        }
        PlacesFilled(rest, vRandom[..n]);
        forall i | 0 <= i < |vRandom| ensures vRandom[i] in infos && infos[vRandom[i]].nRandomPos == i {
          if i < n {
            assert vRandom[..n][i] == vRandom[i];
          }
        }
      } else {
        forall id | id in infos ensures infos[id].nRandomPos < n {
          assert vRandom[infos[id].nRandomPos] == id;
        }
        TooMany(infos, vRandom[..n]);
      }
    }
  }

  lemma {:induction false} TooMany(infos: Infos, vRandom: seq<int>)
    requires forall id :: id in infos ==> 0 <= infos[id].nRandomPos < |vRandom| && vRandom[infos[id].nRandomPos] == id
    ensures |infos.Keys| <= |vRandom|
    decreases |vRandom|
  {
    if vRandom == [] {
      assert forall id :: id !in infos;
      assert infos == map[];
    } else {
      var n := |vRandom| - 1;
      var rest := infos - {vRandom[n]};
      forall id | id in rest ensures 0 <= rest[id].nRandomPos < n && vRandom[..n][rest[id].nRandomPos] == id {
        assert vRandom[infos[id].nRandomPos] == id;
      }
      TooMany(rest, vRandom[..n]);
      assert infos.Keys <= rest.Keys + {vRandom[n]};
      S.Fewer(infos.Keys, rest.Keys + {vRandom[n]});
    }
  }

  /** What the check does not look at: addresses of no entry, the address of entry 0, and the next id. */
  ghost predicate Unseen(st: State) {
    && (forall ip :: ip in st.addrs ==> st.addrs[ip] in st.infos && st.infos[st.addrs[ip]].addr.ip == ip)
    && (0 in st.infos ==> st.infos[0].addr.ip in st.addrs)
    && forall id :: id in st.infos ==> 0 <= id < st.nIdCount
  }

  /** A state passes and what the check does not see is in order, exactly if the state is consistent. */
  lemma CheckDecides(h: Hasher, key: Key, st: State)
    ensures Checked(h, key, st) && Unseen(st) <==> Consistent(h, key, st, 0, {}) && TimesOk(st.infos) && key != 0
  {
    hide Checked, Consistent;
    if Checked(h, key, st) && Unseen(st) {
      PassesConsistent(h, key, st);
    }
    if Consistent(h, key, st, 0, {}) && TimesOk(st.infos) && key != 0 {
      ConsistentPasses(h, key, st);
      ConsistentUnseen(h, key, st);
    }
  }

  lemma ConsistentUnseen(h: Hasher, key: Key, st: State)
    requires Consistent(h, key, st, 0, {})
    ensures Unseen(st)
  {
  }

  /** The check passes an address that no entry has. */
  lemma StaleAddressPasses(h: Hasher, key: Key, ip: NetAddr)
    requires key != 0
    ensures var st := State(map[], map[ip := 5], [], map[], map[], 0, 0, 0);
      Checked(h, key, st) && !Consistent(h, key, st, 0, {})
  {
    var st := State(map[], map[ip := 5], [], map[], map[], 0, 0, 0);
    assert TriedIds(st.infos) == {} && NewIds(st.infos) == {};
    assert ip in st.addrs && st.addrs[ip] !in st.infos;
  }

  /** The check passes an entry 0 whose address is not known: a lookup that finds nothing gives 0. */
  lemma UnknownZeroPasses(h: Hasher, key: Key, a: Service)
    requires key != 0
    ensures var info := AddrInfo(a, {}, 0, 0, 1, 0, 0, 0, true, 0);
      var st := State(map[0 := info], map[], [0], map[], map[TriedSlot(h, key, a) := 0], 1, 0, 1);
      Checked(h, key, st) && !Consistent(h, key, st, 0, {})
  {
    var info := AddrInfo(a, {}, 0, 0, 1, 0, 0, 0, true, 0);
    var st := State(map[0 := info], map[], [0], map[], map[TriedSlot(h, key, a) := 0], 1, 0, 1);
    assert TriedIds(st.infos) == {0} && NewIds(st.infos) == {};
    assert TriedSlot(h, key, a) in st.tried.Keys && st.tried[TriedSlot(h, key, a)] == 0;
    assert 0 in st.infos && st.infos[0].addr.ip !in st.addrs;
  }

  lemma PassesConsistent(h: Hasher, key: Key, st: State)
    requires Checked(h, key, st) && Unseen(st)
    ensures Consistent(h, key, st, 0, {}) && TimesOk(st.infos) && key != 0
  {
    hide AddrIndex, Slots, Counted;
    CheckedTables(h, key, st);
    CheckedCounts(h, key, st);
  }

  lemma CheckedTables(h: Hasher, key: Key, st: State)
    requires Checked(h, key, st) && Unseen(st)
    ensures Tables(h, key, st.infos, st.addrs, st.news, st.tried)
  {
    hide EntryOk, NewSlotOk, TriedSlotOk, CountOk, InItsSlot, SlotsOf, TriedIds, NewIds, S.Holds, AddrIndex, Unseen;
    AddressesIn(st);
    forall id | id in st.infos ensures CountOk(st.infos, st.news, id) && InItsSlot(h, key, st.infos, st.tried, id) {
      TablesIn(h, key, st, id);
    }
  }

  lemma CheckedCounts(h: Hasher, key: Key, st: State)
    requires Checked(h, key, st) && Unseen(st)
    ensures Counted(st, 0, {}) && TimesOk(st.infos)
  {
    hide EntryOk, Checked, NewIds, TriedIds, RandomIndex;
    CheckedNumbers(h, key, st);
    PlacesIn(st);
    PlacesFilled(st.infos, st.vRandom);
    forall id | id in st.infos ensures EntrySound(st, id) {
      EntryIn(st, id);
    }
  }

  lemma CheckedNumbers(h: Hasher, key: Key, st: State)
    requires Checked(h, key, st)
    ensures forall id :: id in st.infos ==> EntryOk(st, id)
    ensures st.nTried == |TriedIds(st.infos)| && st.nNew == |NewIds(st.infos)| && |st.vRandom| == |st.infos.Keys|
  {
    hide EntryOk, NewSlotOk, TriedSlotOk, SlotsOf, S.Holds;
    assert st.infos.Keys == NewIds(st.infos) + TriedIds(st.infos);
  }

  lemma EntryIn(st: State, id: int)
    requires id in st.infos && EntryOk(st, id)
    ensures EntrySound(st, id)
  {
  }

  predicate EntrySound(st: State, id: int)
    requires id in st.infos
  {
    var info := st.infos[id];
    && (if info.fInTried then info.nLastSuccess != 0 else info.nRefCount != 0)
    && info.nLastTry >= 0 && info.nLastSuccess >= 0
  }

  lemma PlacesIn(st: State)
    requires forall id :: id in st.infos ==> EntryOk(st, id)
    ensures forall id :: id in st.infos ==> 0 <= st.infos[id].nRandomPos < |st.vRandom| && st.vRandom[st.infos[id].nRandomPos] == id
  {
  }

  lemma AddressesIn(st: State)
    requires Unseen(st) && forall id :: id in st.infos ==> EntryOk(st, id)
    ensures AddrIndex(st.infos, st.addrs)
  {
  }

  lemma TablesIn(h: Hasher, key: Key, st: State, id: int)
    requires Checked(h, key, st) && id in st.infos && EntryOk(st, id)
    ensures CountOk(st.infos, st.news, id) && InItsSlot(h, key, st.infos, st.tried, id)
  {
    if st.infos[id].fInTried {
      assert SlotsOf(st.news, id) == {} by {
        forall s | s in st.news ensures st.news[s] != id {
          assert NewSlotOk(h, key, st.infos, s, st.news[s]);
        }
      }
      assert id in TriedIds(st.infos);
      var s :| s in st.tried.Keys && s in st.tried && st.tried[s] == id;
      assert TriedSlotOk(h, key, st.infos, s, st.tried[s]);
    } else {
      assert id in NewIds(st.infos);
    }
  }

  //////////////////////////////////////////////////////////////////////////////
  // What is loaded passes
  //////////////////////////////////////////////////////////////////////////////

  /** Whatever the stream: what is loaded passes, unseen parts included, exactly under this condition. */
  lemma LoadPassesExactly(h: Hasher, s: S.Saved)
    requires S.Framed(s)
    ensures var st := S.Load(h, s);
      Checked(h, s.nKey, st) && Unseen(st) <==> S.Unshared(S.Unpruned(h, s)) && TimesOk(st.infos) && s.nKey != 0
  {
    hide Checked, Unseen, Consistent, TimesOk, S.Unshared;
    S.LoadConsistent(h, s);
    CheckDecides(h, s.nKey, S.Load(h, s));
  }

  /** Times of success that the check admits. */
  predicate TimesGood(s: S.Saved) {
    && (forall i :: 0 <= i < |s.recent| ==> s.recent[i].nLastSuccess >= 0)
    && (forall i :: 0 <= i < |s.settled| ==> s.settled[i].nLastSuccess > 0)
  }

  /** A stream with a key, no address twice and admissible times gives a manager that passes. */
  lemma LoadPasses(h: Hasher, s: S.Saved)
    requires S.Framed(s) && S.Distinct(s.recent + s.settled) && TimesGood(s) && s.nKey != 0
    ensures Checked(h, s.nKey, S.Load(h, s)) && Consistent(h, s.nKey, S.Load(h, s), 0, {})
  {
    hide Checked, Unseen, Consistent, S.Unshared, S.Unpruned;
    S.DistinctUnshared(h, s);
    S.LoadConsistent(h, s);
    LoadTimes(h, s);
    LoadPassesExactly(h, s);
  }

  lemma {:induction false} RecentTimes(h: Hasher, key: Key, nNew: nat, recs: seq<S.Record>, usable: bool)
    requires forall i :: 0 <= i < |recs| ==> recs[i].nLastSuccess >= 0
    ensures TimesOk(S.LoadRecent(h, key, S.Blank(nNew), recs, usable).infos)
  {
    if recs != [] {
      RecentTimes(h, key, nNew, recs[..|recs| - 1], usable);
    }
  }

  lemma {:induction false} SettledTimes(h: Hasher, key: Key, st: State, recs: seq<S.Record>)
    requires TimesOk(st.infos) && forall i :: 0 <= i < |recs| ==> recs[i].nLastSuccess > 0
    ensures TimesOk(S.LoadSettled(h, key, st, recs).infos)
  {
    if recs != [] {
      SettledTimes(h, key, st, recs[..|recs| - 1]);
    }
  }

  lemma {:induction false} BucketTimes(h: Hasher, key: Key, st: State, bucket: nat, list: seq<int>, usable: bool)
    requires TimesOk(st.infos)
    ensures TimesOk(S.LoadBucket(h, key, st, bucket, list, usable).infos)
  {
    if list != [] {
      BucketTimes(h, key, st, bucket, list[..|list| - 1], usable);
    }
  }

  lemma {:induction false} BucketsTimes(h: Hasher, key: Key, st: State, buckets: seq<seq<int>>, usable: bool)
    requires TimesOk(st.infos)
    ensures TimesOk(S.LoadBuckets(h, key, st, buckets, usable).infos)
  {
    hide TimesOk;
    if buckets != [] {
      var b := |buckets| - 1;
      BucketsTimes(h, key, st, buckets[..b], usable);
      BucketTimes(h, key, S.LoadBuckets(h, key, st, buckets[..b], usable), b, buckets[b], usable);
    }
  }

  lemma LoadTimes(h: Hasher, s: S.Saved)
    requires TimesGood(s)
    ensures TimesOk(S.Load(h, s).infos)
  {
    hide TimesOk;
    var a := S.LoadRecent(h, s.nKey, S.Blank(s.nNew), s.recent, S.Usable(s));
    RecentTimes(h, s.nKey, s.nNew, s.recent, S.Usable(s));
    SettledTimes(h, s.nKey, a, s.settled);
    BucketsTimes(h, s.nKey, S.LoadSettled(h, s.nKey, a, s.settled), s.buckets, S.Usable(s));
    S.UnprunedLoading(h, s);
    var u := S.Unpruned(h, s);
    S.PrunedLeaves(u, u.nIdCount);
    LeftTimes(u, S.Load(h, s));
  }

  lemma LeftTimes(u: State, after: State)
    requires TimesOk(u.infos) && u.nIdCount >= 0 && S.LeftBelow(u, after, u.nIdCount)
    ensures TimesOk(after.infos)
  {
    forall id | id in after.infos ensures id in u.infos && Stays(u.infos, after.infos, id) {
    }
  }

  /** A stream with the same address in both tables, which loads into a manager that does not pass. */
  lemma RepeatedAddressFails(h: Hasher, key: Key, rec: S.Record)
    ensures var s := S.Saved(0, 32, key, 1, 1, 0, [rec], [rec], []);
      && S.Framed(s) && !Consistent(h, key, S.Load(h, s), 0, {}) && !Checked(h, key, S.Load(h, s))
  {
    var s := S.Saved(0, 32, key, 1, 1, 0, [rec], [rec], []);
    var u := S.Unpruned(h, s);
    RepeatedLoads(h, key, rec);
    S.UnprunedLoading(h, s);
    S.PrunedNothing(u, u.nIdCount);
    S.LoadConsistent(h, s);
    assert !S.IsOrphan(u.infos, 0);
    assert !EntryOk(S.Load(h, s), 0);
  }

  lemma RepeatedLoads(h: Hasher, key: Key, rec: S.Record)
    ensures var u := S.Unpruned(h, S.Saved(0, 32, key, 1, 1, 0, [rec], [rec], []));
      && 0 in u.infos && 1 in u.infos && u.nIdCount == 2 && (forall id :: id in u.infos ==> id == 0 || id == 1)
      && u.infos[0].addr == u.infos[1].addr == rec.addr && u.infos[0].nRefCount == 1 && u.infos[1].fInTried
      && u.addrs == map[rec.addr.ip := 1]
  {
    var a := S.LoadRecent(h, key, S.Blank(1), [rec], false);
    assert [rec][..0] == [];
    assert S.LoadRecent(h, key, S.Blank(1), [], false) == S.Blank(1);
    assert a == S.LoadedNew(h, key, S.Blank(1), rec, false);
    assert S.LoadSettled(h, key, a, []) == a;
    assert S.LoadSettled(h, key, a, [rec]) == S.LoadedTried(h, key, a, rec);
  }

  //////////////////////////////////////////////////////////////////////////////
  // The entries
  //////////////////////////////////////////////////////////////////////////////

  /** What the codes about an entry say of it. */
  ghost predicate EntryFault(st: State, id: int, code: int) {
    && id in st.infos
    && var info := st.infos[id];
      if code == -1 then info.fInTried && info.nLastSuccess == 0
      else if code == -2 then info.fInTried && info.nRefCount != 0
      else if code == -3 then !info.fInTried && (info.nRefCount < 0 || info.nRefCount > 8)
      else if code == -4 then !info.fInTried && info.nRefCount == 0
      else if code == -5 then info.addr.ip !in st.addrs || st.addrs[info.addr.ip] != id
      else if code == -14 then info.nRandomPos < 0 || info.nRandomPos >= |st.vRandom| || st.vRandom[info.nRandomPos] != id
      else if code == -6 then info.nLastTry < 0
      else code == -8 && info.nLastSuccess < 0
  }

  method CheckEntry(m: M.AddrMan, n: int) returns (code: int)
    requires n in m.mapInfo
    ensures code == 0 <==> EntryOk(m.St(), n)
    ensures code != 0 ==> EntryFault(m.St(), n, code)
  {
    var info := m.mapInfo[n];
    if info.fInTried {
      if info.nLastSuccess == 0 {
        return -1;
      }
      if info.nRefCount != 0 {
        return -2;
      }
    } else {
      if info.nRefCount < 0 || info.nRefCount > NEW_BUCKETS_PER_ADDRESS {
        return -3;
      }
      if info.nRefCount == 0 {
        return -4;
      }
    }
    if Found(m.mapAddr, info.addr.ip) != n {
      return -5;
    }
    if info.nRandomPos < 0 || info.nRandomPos >= |m.vRandom| || m.vRandom[info.nRandomPos] != n {
      return -14;
    }
    if info.nLastTry < 0 {
      return -6;
    }
    if info.nLastSuccess < 0 {
      return -8;
    }
    return 0;
  }

  ghost function Counts(infos: Infos, done: set<int>): map<int, int> {
    map id | id in infos && id in done && !infos[id].fInTried :: infos[id].nRefCount
  }

  method CheckEntries(m: M.AddrMan) returns (code: int, setTried: set<int>, mapNew: map<int, int>)
    ensures code == 0 <==> forall id :: id in m.mapInfo ==> EntryOk(m.St(), id)
    ensures code == 0 ==> setTried == TriedIds(m.mapInfo) && mapNew == Counts(m.mapInfo, m.mapInfo.Keys)
    ensures code != 0 ==> exists id :: EntryFault(m.St(), id, code)
  {
    setTried, mapNew := {}, map[];
    var todo := m.mapInfo.Keys;
    while todo != {}
      invariant todo <= m.mapInfo.Keys
      invariant forall id :: id in m.mapInfo && id !in todo ==> EntryOk(m.St(), id)
      invariant setTried == TriedIds(m.mapInfo) - todo
      invariant mapNew == Counts(m.mapInfo, m.mapInfo.Keys - todo)
      decreases |todo|
    {
      var n := Pick(todo);
      code := CheckEntry(m, n);
      if code != 0 {
        return;
      }
      todo := todo - {n};
      if m.mapInfo[n].fInTried {
        setTried := setTried + {n};
      } else {
        mapNew := mapNew[n := m.mapInfo[n].nRefCount];
      }
    }
    assert m.mapInfo.Keys - todo == m.mapInfo.Keys;
    code := 0;
  }

  method Pick<T(==)>(s: set<T>) returns (x: T)
    requires s != {}
    ensures x in s
  {
    x :| x in s;
  }

  //////////////////////////////////////////////////////////////////////////////
  // The tables
  //////////////////////////////////////////////////////////////////////////////

  /** The occupied slots are those of a table with the given number of buckets. */
  ghost predicate InGrid(t: map<Slot, int>, buckets: nat) {
    forall s :: s in t ==> s.0 < buckets && s.1 < BUCKET_SIZE && t[s] >= 0
  }

  ghost predicate HeldBefore(t: map<Slot, int>, id: int, n: nat, i: nat) {
    exists s :: s in t && S.Before(s, n, i) && t[s] == id
  }

  /** The slots before (n, i) are right, and the ids left are the tried ones not met in them. */
  ghost predicate TriedSoFar(h: Hasher, key: Key, st: State, n: nat, i: nat, left: set<int>) {
    && (forall s :: s in st.tried && S.Before(s, n, i) ==> TriedSlotOk(h, key, st.infos, s, st.tried[s]))
    && (forall id :: id in left <==> id in TriedIds(st.infos) && !HeldBefore(st.tried, id, n, i))
  }

  ghost predicate TriedRight(h: Hasher, key: Key, st: State) {
    forall s :: s in st.tried ==> TriedSlotOk(h, key, st.infos, s, st.tried[s])
  }

  lemma BeforeNext(s: Slot, n: nat, i: nat)
    ensures S.Before(s, n, i + 1) <==> S.Before(s, n, i) || s == (n, i)
  {
  }

  /** An id that is not left any more cannot stand here: it is not a tried one, or it stands in its own slot already. */
  lemma NotLeft(h: Hasher, key: Key, st: State, n: nat, i: nat, left: set<int>)
    requires TriedSoFar(h, key, st, n, i, left) && (n, i) in st.tried && st.tried[(n, i)] !in left
    ensures !TriedSlotOk(h, key, st.infos, (n, i), st.tried[(n, i)]) && TriedFault(h, key, st, (n, i), -11)
  {
    var id := st.tried[(n, i)];
    if id in TriedIds(st.infos) {
      var s :| s in st.tried && S.Before(s, n, i) && st.tried[s] == id;
      assert TriedSlotOk(h, key, st.infos, s, id);
      assert s != (n, i);
    }
  }

  lemma TriedStep(h: Hasher, key: Key, st: State, n: nat, i: nat, left: set<int>)
    requires TriedSoFar(h, key, st, n, i, left)
    ensures (n, i) !in st.tried ==> TriedSoFar(h, key, st, n, i + 1, left)
    ensures (n, i) in st.tried && TriedSlotOk(h, key, st.infos, (n, i), st.tried[(n, i)]) ==>
      TriedSoFar(h, key, st, n, i + 1, left - {st.tried[(n, i)]})
  {
    forall s: Slot ensures S.Before(s, n, i + 1) <==> S.Before(s, n, i) || s == (n, i) {
      BeforeNext(s, n, i);
    }
    forall id ensures HeldBefore(st.tried, id, n, i + 1) <==> HeldBefore(st.tried, id, n, i) || ((n, i) in st.tried && st.tried[(n, i)] == id) {
    }
  }

  /** What the codes about a slot of the tried table say of its holder. */
  ghost predicate TriedFault(h: Hasher, key: Key, st: State, s: Slot, code: int) {
    && s in st.tried
    && var id := st.tried[s];
      if code == -11 then id !in TriedIds(st.infos) || exists r :: r in st.tried && r != s && st.tried[r] == id
      else id in st.infos && (if code == -17 then TriedBucket(h, key, st.infos[id].addr) != s.0
                              else code == -18 && Position(h, key, false, s.0, st.infos[id].addr) != s.1)
  }

  method CheckTriedCell(m: M.AddrMan, n: nat, i: nat, setTried: set<int>) returns (code: int, left: set<int>)
    requires m.Arrays() && InGrid(m.tried, TRIED_BUCKET_COUNT) && n < TRIED_BUCKET_COUNT && i < BUCKET_SIZE
    requires TriedSoFar(m.h, m.nKey, m.St(), n, i, setTried)
    ensures code == 0 ==> TriedSoFar(m.h, m.nKey, m.St(), n, i + 1, left)
    ensures code != 0 ==> !TriedRight(m.h, m.nKey, m.St()) && TriedFault(m.h, m.nKey, m.St(), (n, i), code)
  {
    hide TriedSoFar;
    TriedStep(m.h, m.nKey, m.St(), n, i, setTried);
    left := setTried;
    var id := m.vvTried[n, i];
    if id != -1 {
      if id !in setTried {
        NotLeft(m.h, m.nKey, m.St(), n, i, setTried);
        return -11, left;
      }
      LeftIsTried(m.h, m.nKey, m.St(), n, i, setTried, id);
      if TriedBucket(m.h, m.nKey, m.mapInfo[id].addr) != n {
        return -17, left;
      }
      if Position(m.h, m.nKey, false, n, m.mapInfo[id].addr) != i {
        return -18, left;
      }
      left := setTried - {id};
    }
    code := 0;
  }

  lemma LeftIsTried(h: Hasher, key: Key, st: State, n: nat, i: nat, left: set<int>, id: int)
    requires TriedSoFar(h, key, st, n, i, left) && id in left
    ensures id in st.infos && st.infos[id].fInTried
  {
  }

  lemma TriedStart(h: Hasher, key: Key, st: State)
    ensures TriedSoFar(h, key, st, 0, 0, TriedIds(st.infos))
  {
  }

  lemma RowEnd(t: map<Slot, int>, buckets: nat, n: nat)
    requires InGrid(t, buckets)
    ensures forall s :: s in t ==> (S.Before(s, n, BUCKET_SIZE) <==> S.Before(s, n + 1, 0))
    ensures forall s :: s in t ==> S.Before(s, buckets, 0)
  {
  }

  lemma TriedRow(h: Hasher, key: Key, st: State, n: nat, left: set<int>)
    requires TriedSoFar(h, key, st, n, BUCKET_SIZE, left) && InGrid(st.tried, TRIED_BUCKET_COUNT)
    ensures TriedSoFar(h, key, st, n + 1, 0, left)
  {
    hide S.Before, TriedSlotOk;
    RowEnd(st.tried, TRIED_BUCKET_COUNT, n);
  }

  lemma TriedEnd(h: Hasher, key: Key, st: State, left: set<int>)
    requires TriedSoFar(h, key, st, TRIED_BUCKET_COUNT, 0, left) && InGrid(st.tried, TRIED_BUCKET_COUNT)
    ensures TriedRight(h, key, st)
    ensures |left| == 0 <==> forall id :: id in TriedIds(st.infos) ==> S.Holds(st.tried, st.tried.Keys, id)
  {
    hide S.Before, TriedSlotOk;
    RowEnd(st.tried, TRIED_BUCKET_COUNT, 0);
    forall id | id in TriedIds(st.infos) ensures id in left <==> !S.Holds(st.tried, st.tried.Keys, id) {
    }
    if left != {} {
      var id := S.Member(left);
    }
  }

  method CheckTried(m: M.AddrMan, setTried: set<int>) returns (code: int, left: set<int>)
    requires m.Arrays() && InGrid(m.tried, TRIED_BUCKET_COUNT) && setTried == TriedIds(m.mapInfo)
    ensures code == 0 <==> TriedRight(m.h, m.nKey, m.St())
    ensures code == 0 ==> (|left| == 0 <==> forall id :: id in TriedIds(m.mapInfo) ==> S.Holds(m.tried, m.tried.Keys, id))
    ensures code != 0 ==> exists s :: TriedFault(m.h, m.nKey, m.St(), s, code)
  {
    hide TriedSoFar, TriedRight, TriedFault;
    left := setTried;
    TriedStart(m.h, m.nKey, m.St());
    for n := 0 to TRIED_BUCKET_COUNT
      invariant TriedSoFar(m.h, m.nKey, m.St(), n, 0, left)
    {
      for i := 0 to BUCKET_SIZE
        invariant TriedSoFar(m.h, m.nKey, m.St(), n, i, left)
      {
        code, left := CheckTriedCell(m, n, i, left);
        if code != 0 {
          return;
        }
      }
      TriedRow(m.h, m.nKey, m.St(), n, left);
    }
    TriedEnd(m.h, m.nKey, m.St(), left);
    code := 0;
  }

  ghost function SlotsBefore(news: map<Slot, int>, id: int, n: nat, i: nat): set<Slot> {
    set s | s in news && news[s] == id && S.Before(s, n, i)
  }

  /** How often an id is still to be met. */
  ghost predicate CountLeft(st: State, n: nat, i: nat, counts: map<int, int>, id: int)
    requires id in st.infos
  {
    var c := |SlotsBefore(st.news, id, n, i)|;
    && c <= st.infos[id].nRefCount && (id in counts <==> c < st.infos[id].nRefCount)
    && (id in counts ==> counts[id] == st.infos[id].nRefCount - c)
  }

  ghost predicate NewSoFar(h: Hasher, key: Key, st: State, n: nat, i: nat, counts: map<int, int>) {
    && (forall s :: s in st.news && S.Before(s, n, i) ==> NewSlotOk(h, key, st.infos, s, st.news[s]))
    && (forall id :: id in counts ==> id in NewIds(st.infos))
    && (forall id :: id in NewIds(st.infos) ==> CountLeft(st, n, i, counts, id))
  }

  ghost predicate NewRight(h: Hasher, key: Key, st: State) {
    && (forall s :: s in st.news ==> NewSlotOk(h, key, st.infos, s, st.news[s]))
    && (forall id :: id in NewIds(st.infos) ==> st.infos[id].nRefCount == |SlotsOf(st.news, id)|)
  }

  lemma SlotsNext(news: map<Slot, int>, id: int, n: nat, i: nat)
    ensures SlotsBefore(news, id, n, i + 1) == SlotsBefore(news, id, n, i) + if (n, i) in news && news[(n, i)] == id then {(n, i)} else {}
    ensures |SlotsBefore(news, id, n, i + 1)| == |SlotsBefore(news, id, n, i)| + if (n, i) in news && news[(n, i)] == id then 1 else 0
    ensures SlotsBefore(news, id, n, i + 1) <= SlotsOf(news, id)
  {
    forall s: Slot ensures S.Before(s, n, i + 1) <==> S.Before(s, n, i) || s == (n, i) {
      BeforeNext(s, n, i);
    }
    assert SlotsBefore(news, id, n, i + 1) == SlotsBefore(news, id, n, i) + if (n, i) in news && news[(n, i)] == id then {(n, i)} else {};
  }

  /** An id that is not to be met any more cannot stand here: it is not a new one, or stands in too many slots. */
  lemma NotCounted(h: Hasher, key: Key, st: State, n: nat, i: nat, counts: map<int, int>)
    requires NewSoFar(h, key, st, n, i, counts) && (n, i) in st.news && st.news[(n, i)] !in counts
    ensures !NewRight(h, key, st) && NewFault(h, key, st, (n, i), -12)
  {
    var id := st.news[(n, i)];
    if id in NewIds(st.infos) {
      assert CountLeft(st, n, i, counts, id);
      SlotsNext(st.news, id, n, i);
      S.Fewer(SlotsBefore(st.news, id, n, i + 1), SlotsOf(st.news, id));
    } else {
      assert !NewSlotOk(h, key, st.infos, (n, i), id);
    }
  }

  ghost function Decremented(counts: map<int, int>, id: int): map<int, int>
    requires id in counts
  {
    if counts[id] == 1 then counts - {id} else counts[id := counts[id] - 1]
  }

  lemma NewStep(h: Hasher, key: Key, st: State, n: nat, i: nat, counts: map<int, int>)
    requires NewSoFar(h, key, st, n, i, counts)
    ensures (n, i) !in st.news ==> NewSoFar(h, key, st, n, i + 1, counts)
    ensures (n, i) in st.news && st.news[(n, i)] in counts && NewSlotOk(h, key, st.infos, (n, i), st.news[(n, i)]) ==>
      NewSoFar(h, key, st, n, i + 1, Decremented(counts, st.news[(n, i)]))
  {
    hide NewSlotOk, S.Before, SlotsBefore;
    forall s: Slot ensures S.Before(s, n, i + 1) <==> S.Before(s, n, i) || s == (n, i) {
      BeforeNext(s, n, i);
    }
    forall id | id in NewIds(st.infos)
      ensures (n, i) !in st.news ==> CountLeft(st, n, i + 1, counts, id)
      ensures (n, i) in st.news && st.news[(n, i)] in counts ==> CountLeft(st, n, i + 1, Decremented(counts, st.news[(n, i)]), id)
    {
      assert CountLeft(st, n, i, counts, id);
      SlotsNext(st.news, id, n, i);
    }
  }

  /** What the codes about a slot of the new table say of its holder. */
  ghost predicate NewFault(h: Hasher, key: Key, st: State, s: Slot, code: int) {
    && s in st.news
    && var id := st.news[s];
      if code == -12 then id !in NewIds(st.infos) || |SlotsOf(st.news, id)| > st.infos[id].nRefCount
      else code == -19 && id in st.infos && Position(h, key, true, s.0, st.infos[id].addr) != s.1
  }

  method CheckNewCell(m: M.AddrMan, n: nat, i: nat, mapNew: map<int, int>) returns (code: int, left: map<int, int>)
    requires m.Arrays() && InGrid(m.news, NEW_BUCKET_COUNT) && n < NEW_BUCKET_COUNT && i < BUCKET_SIZE
    requires NewSoFar(m.h, m.nKey, m.St(), n, i, mapNew)
    ensures code == 0 ==> NewSoFar(m.h, m.nKey, m.St(), n, i + 1, left)
    ensures code != 0 ==> !NewRight(m.h, m.nKey, m.St()) && NewFault(m.h, m.nKey, m.St(), (n, i), code)
  {
    hide NewSoFar;
    NewStep(m.h, m.nKey, m.St(), n, i, mapNew);
    left := mapNew;
    var id := m.vvNew[n, i];
    if id != -1 {
      if id !in mapNew {
        NotCounted(m.h, m.nKey, m.St(), n, i, mapNew);
        return -12, left;
      }
      LeftIsNew(m.h, m.nKey, m.St(), n, i, mapNew, id);
      if Position(m.h, m.nKey, true, n, m.mapInfo[id].addr) != i {
        return -19, left;
      }
      left := mapNew[id := mapNew[id] - 1];
      if left[id] == 0 {
        left := left - {id};
        assert left == mapNew - {id};
      }
    }
    code := 0;
  }

  lemma LeftIsNew(h: Hasher, key: Key, st: State, n: nat, i: nat, left: map<int, int>, id: int)
    requires NewSoFar(h, key, st, n, i, left) && id in left
    ensures id in st.infos && !st.infos[id].fInTried
  {
  }

  lemma NewStart(h: Hasher, key: Key, st: State)
    requires forall id :: id in st.infos ==> EntryOk(st, id)
    ensures NewSoFar(h, key, st, 0, 0, Counts(st.infos, st.infos.Keys)) && |Counts(st.infos, st.infos.Keys)| == |NewIds(st.infos)|
  {
    forall id | id in NewIds(st.infos) ensures CountLeft(st, 0, 0, Counts(st.infos, st.infos.Keys), id) {
      assert EntryOk(st, id);
      assert SlotsBefore(st.news, id, 0, 0) == {};
    }
    assert Counts(st.infos, st.infos.Keys).Keys == NewIds(st.infos);
  }

  lemma NewRow(h: Hasher, key: Key, st: State, n: nat, left: map<int, int>)
    requires NewSoFar(h, key, st, n, BUCKET_SIZE, left) && InGrid(st.news, NEW_BUCKET_COUNT)
    ensures NewSoFar(h, key, st, n + 1, 0, left)
  {
    hide S.Before, NewSlotOk;
    RowEnd(st.news, NEW_BUCKET_COUNT, n);
    forall id | id in NewIds(st.infos) ensures CountLeft(st, n + 1, 0, left, id) {
      assert CountLeft(st, n, BUCKET_SIZE, left, id);
      assert SlotsBefore(st.news, id, n, BUCKET_SIZE) == SlotsBefore(st.news, id, n + 1, 0);
    }
  }

  /** Fewer slots hold the entry than it counts. */
  ghost predicate Unmet(st: State, id: int) {
    id in NewIds(st.infos) && |SlotsOf(st.news, id)| < st.infos[id].nRefCount
  }

  lemma NewEnd(h: Hasher, key: Key, st: State, left: map<int, int>)
    requires NewSoFar(h, key, st, NEW_BUCKET_COUNT, 0, left) && InGrid(st.news, NEW_BUCKET_COUNT)
    ensures |left| == 0 <==> NewRight(h, key, st)
    ensures |left| != 0 ==> exists id :: Unmet(st, id)
  {
    hide S.Before, NewSlotOk;
    RowEnd(st.news, NEW_BUCKET_COUNT, 0);
    forall id | id in NewIds(st.infos) ensures id in left <==> st.infos[id].nRefCount != |SlotsOf(st.news, id)| {
      assert CountLeft(st, NEW_BUCKET_COUNT, 0, left, id);
      assert SlotsBefore(st.news, id, NEW_BUCKET_COUNT, 0) == SlotsOf(st.news, id);
    }
    if left.Keys != {} {
      var id := S.Member(left.Keys);
      assert CountLeft(st, NEW_BUCKET_COUNT, 0, left, id);
      assert SlotsBefore(st.news, id, NEW_BUCKET_COUNT, 0) == SlotsOf(st.news, id);
      assert Unmet(st, id);
    }
  }

  method CheckNew(m: M.AddrMan, mapNew: map<int, int>) returns (code: int, left: map<int, int>)
    requires m.Arrays() && InGrid(m.news, NEW_BUCKET_COUNT) && NewSoFar(m.h, m.nKey, m.St(), 0, 0, mapNew)
    ensures code == 0 && |left| == 0 <==> NewRight(m.h, m.nKey, m.St())
    ensures code != 0 ==> exists s :: NewFault(m.h, m.nKey, m.St(), s, code)
    ensures code == 0 && |left| != 0 ==> exists id :: Unmet(m.St(), id)
  {
    hide NewSoFar, NewRight, NewFault, Unmet;
    left := mapNew;
    for n := 0 to NEW_BUCKET_COUNT
      invariant NewSoFar(m.h, m.nKey, m.St(), n, 0, left)
    {
      for i := 0 to BUCKET_SIZE
        invariant NewSoFar(m.h, m.nKey, m.St(), n, i, left)
      {
        code, left := CheckNewCell(m, n, i, left);
        if code != 0 {
          return;
        }
      }
      NewRow(m.h, m.nKey, m.St(), n, left);
    }
    NewEnd(m.h, m.nKey, m.St(), left);
    code := 0;
  }

  /** What each code says of the state. */
  ghost predicate Fault(h: Hasher, key: Key, st: State, code: int) {
    if code == -7 then |st.vRandom| != st.nTried + st.nNew
    else if code == -9 then |TriedIds(st.infos)| != st.nTried
    else if code == -10 then |NewIds(st.infos)| != st.nNew
    else if code in {-11, -17, -18} then exists s :: TriedFault(h, key, st, s, code)
    else if code in {-12, -19} then exists s :: NewFault(h, key, st, s, code)
    else if code == -13 then exists id :: id in TriedIds(st.infos) && !S.Holds(st.tried, st.tried.Keys, id)
    else if code == -15 then exists id :: Unmet(st, id)
    else if code == -16 then key == 0
    else exists id :: EntryFault(st, id, code)
  }

  lemma EntryFaulty(h: Hasher, key: Key, st: State, id: int, code: int)
    requires EntryFault(st, id, code)
    ensures Fault(h, key, st, code)
  {
  }

  lemma TriedFaulty(h: Hasher, key: Key, st: State, s: Slot, code: int)
    requires TriedFault(h, key, st, s, code)
    ensures Fault(h, key, st, code)
  {
  }

  lemma NewFaulty(h: Hasher, key: Key, st: State, s: Slot, code: int)
    requires NewFault(h, key, st, s, code)
    ensures Fault(h, key, st, code)
  {
  }

  lemma OtherFaults(h: Hasher, key: Key, st: State)
    ensures |st.vRandom| != st.nTried + st.nNew ==> Fault(h, key, st, -7)
    ensures |TriedIds(st.infos)| != st.nTried ==> Fault(h, key, st, -9)
    ensures |NewIds(st.infos)| != st.nNew ==> Fault(h, key, st, -10)
    ensures (exists id :: id in TriedIds(st.infos) && !S.Holds(st.tried, st.tried.Keys, id)) ==> Fault(h, key, st, -13)
    ensures (exists id :: Unmet(st, id)) ==> Fault(h, key, st, -15)
    ensures key == 0 ==> Fault(h, key, st, -16)
  {
    hide S.Holds, Unmet;
  }

  /** The check passes exactly the states that are as they should be, and its code says what is wrong with others. */
  method Check_(m: M.AddrMan) returns (code: int)
    requires m.Arrays() && InGrid(m.tried, TRIED_BUCKET_COUNT) && InGrid(m.news, NEW_BUCKET_COUNT)
    ensures code == 0 <==> Checked(m.h, m.nKey, m.St())
    ensures code != 0 ==> Fault(m.h, m.nKey, m.St(), code)
  {
    hide EntryOk, TriedSlotOk, NewSlotOk, NewSoFar, S.Holds, SlotsOf, Counts, EntryFault, TriedFault, NewFault, Unmet, Fault;
    OtherFaults(m.h, m.nKey, m.St());
    if |m.vRandom| != m.nTried + m.nNew {
      return -7;
    }
    var setTried, mapNew;
    code, setTried, mapNew := CheckEntries(m);
    if code != 0 {
      ghost var id :| EntryFault(m.St(), id, code);
      EntryFaulty(m.h, m.nKey, m.St(), id, code);
      return;
    }
    NewStart(m.h, m.nKey, m.St());
    if |setTried| != m.nTried {
      return -9;
    }
    if |mapNew| != m.nNew {
      return -10;
    }
    var leftTried, leftNew;
    code, leftTried := CheckTried(m, setTried);
    if code != 0 {
      ghost var s :| TriedFault(m.h, m.nKey, m.St(), s, code);
      TriedFaulty(m.h, m.nKey, m.St(), s, code);
      return;
    }
    code, leftNew := CheckNew(m, mapNew);
    if code != 0 {
      ghost var s :| NewFault(m.h, m.nKey, m.St(), s, code);
      NewFaulty(m.h, m.nKey, m.St(), s, code);
      return;
    }
    if |leftTried| != 0 {
      return -13;
    }
    if |leftNew| != 0 {
      return -15;
    }
    if m.nKey == 0 {
      return -16;
    }
    return 0;
  }
}
