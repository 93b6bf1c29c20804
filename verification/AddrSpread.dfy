module AddrSpread {
  // What the choice of buckets is for: nobody who tells addresses from few ranges can fill the tables.

  import opened AddrTables
  import M = AddrMan

  //////////////////////////////////////////////////////////////////////////////
  // Counting
  //////////////////////////////////////////////////////////////////////////////

  lemma {:induction false} RowSize(slots: set<Slot>, row: nat, n: nat)
    requires forall s :: s in slots ==> s.0 == row && s.1 < n
    ensures |slots| <= n
  {
    if n == 0 {
      assert slots == {};
    } else {
      RowSize(slots - {(row, n - 1)}, row, n - 1);
      assert slots <= (slots - {(row, n - 1)}) + {(row, n - 1)};
      Smaller(slots, (slots - {(row, n - 1)}) + {(row, n - 1)});
    }
  }

  lemma {:induction false} Smaller<T>(a: set<T>, b: set<T>)
    requires a <= b
    ensures |a| <= |b|
    decreases |a|
  {
    if x :| x in a {
      Smaller(a - {x}, b - {x});
    }
  }

  /** So many buckets have so many slots. */
  lemma {:induction false} RowsSize(slots: set<Slot>, rows: set<nat>)
    requires forall s :: s in slots ==> s.0 in rows && s.1 < BUCKET_SIZE
    ensures |slots| <= |rows| * BUCKET_SIZE
    decreases |rows|
  {
    if r :| r in rows {
      var here := set s | s in slots && s.0 == r;
      RowSize(here, r, BUCKET_SIZE);
      RowsSize(slots - here, rows - {r});
      assert slots == (slots - here) + here;
    } else {
      assert slots == {};
    }
  }

  ghost predicate Holds<T>(m: map<Slot, T>, slots: set<Slot>, id: T)
    requires slots <= m.Keys
  {
    exists s :: s in slots && m[s] == id
  }

  lemma {:induction false} HoldersSize<T>(m: map<Slot, T>, slots: set<Slot>, ids: set<T>)
    requires slots <= m.Keys && forall id :: id in ids ==> Holds(m, slots, id)
    ensures |ids| <= |slots|
    decreases |ids|
  {
    if ids != {} {
      var id :| id in ids;
      var s :| s in slots && m[s] == id;
      forall o | o in ids - {id} ensures Holds(m, slots - {s}, o) {
        var t :| t in slots && m[t] == o;
        assert t in slots - {s};
      }
      HoldersSize(m, slots - {s}, ids - {id});
    }
  }

  //////////////////////////////////////////////////////////////////////////////
  // The tried table
  //////////////////////////////////////////////////////////////////////////////

  /** The buckets of the tried table that a group gets with the first n numbers. */
  ghost function TriedAmong(h: Hasher, key: Key, g: nat, n: nat): set<nat> {
    if n == 0 then {} else TriedAmong(h, key, g, n - 1) + {h.triedBucket(key, g, n - 1) % 256}
  }

  lemma {:induction false} TriedAmongSize(h: Hasher, key: Key, g: nat, n: nat)
    ensures |TriedAmong(h, key, g, n)| <= n
  {
    if n > 0 {
      TriedAmongSize(h, key, g, n - 1);
    }
  }

  lemma {:induction false} TriedAmongHas(h: Hasher, key: Key, g: nat, n: nat, i: nat)
    requires i < n
    ensures h.triedBucket(key, g, i) % 256 in TriedAmong(h, key, g, n)
  {
    if i < n - 1 {
      TriedAmongHas(h, key, g, n - 1, i);
    }
  }

  /** The eight buckets of the tried table that are open to a group. */
  ghost function TriedChoices(h: Hasher, key: Key, g: nat): set<nat> { TriedAmong(h, key, g, 8) }

  lemma TriedSpread(h: Hasher, key: Key, a: Service)
    ensures TriedBucket(h, key, a) in TriedChoices(h, key, h.group(a.ip)) && |TriedChoices(h, key, h.group(a.ip))| <= 8
  {
    hide TriedAmong;
    TriedAmongHas(h, key, h.group(a.ip), 8, h.triedPick(key, a) % 8);
    TriedAmongSize(h, key, h.group(a.ip), 8);
  }

  ghost function TriedOf(h: Hasher, infos: Infos, g: nat): set<int> {
    set id | id in infos && infos[id].fInTried && h.group(infos[id].addr.ip) == g
  }

  /** In every consistent state at most 512 of the 16384 places for tried addresses have addresses of one group. */
  lemma TriedLimit(h: Hasher, key: Key, st: State, g: nat)
    requires Consistent(h, key, st, 0, {})
    ensures |TriedOf(h, st.infos, g)| <= 512
  {
    var rows := TriedChoices(h, key, g);
    var slots := set s | s in st.tried && s.0 in rows && s.1 < BUCKET_SIZE;
    forall id | id in TriedOf(h, st.infos, g) ensures Holds(st.tried, slots, id) {
      TriedSpread(h, key, st.infos[id].addr);
      assert InItsSlot(h, key, st.infos, st.tried, id);
      var s := TriedSlot(h, key, st.infos[id].addr);
      assert s in slots && st.tried[s] == id;
    }
    HoldersSize(st.tried, slots, TriedOf(h, st.infos, g));
    RowsSize(slots, rows);
    TriedAmongSize(h, key, g, 8);
  }

  //////////////////////////////////////////////////////////////////////////////
  // The new table
  //////////////////////////////////////////////////////////////////////////////

  /** The buckets of the new table that a group of sources gets with the first n numbers. */
  ghost function NewAmong(h: Hasher, key: Key, g: nat, n: nat): set<nat> {
    if n == 0 then {} else NewAmong(h, key, g, n - 1) + {h.newBucket(key, g, n - 1) % 1024}
  }

  lemma {:induction false} NewAmongSize(h: Hasher, key: Key, g: nat, n: nat)
    ensures |NewAmong(h, key, g, n)| <= n
  {
    if n > 0 {
      NewAmongSize(h, key, g, n - 1);
    }
  }

  lemma {:induction false} NewAmongHas(h: Hasher, key: Key, g: nat, n: nat, i: nat)
    requires i < n
    ensures h.newBucket(key, g, i) % 1024 in NewAmong(h, key, g, n)
  {
    if i < n - 1 {
      NewAmongHas(h, key, g, n - 1, i);
    }
  }

  /** The 64 buckets of the new table that are open to a group of sources. */
  ghost function NewChoices(h: Hasher, key: Key, g: nat): set<nat> { NewAmong(h, key, g, 64) }

  lemma NewSpread(h: Hasher, key: Key, a: Service, source: NetAddr)
    ensures NewBucket(h, key, a, source) in NewChoices(h, key, h.group(source)) && |NewChoices(h, key, h.group(source))| <= 64
  {
    hide NewAmong;
    var g := h.group(source);
    NewAmongHas(h, key, g, 64, h.newPick(key, h.group(a.ip), g) % 64);
    NewAmongSize(h, key, g, 64);
  }

  ghost predicate Open(h: Hasher, key: Key, bucket: nat, groups: set<nat>) {
    exists g :: g in groups && bucket in NewChoices(h, key, g)
  }

  /** Everything known comes from sources of these groups, and is in the buckets open to them. */
  ghost predicate Confined(h: Hasher, key: Key, st: State, groups: set<nat>) {
    && (forall id :: id in st.infos ==> h.group(st.infos[id].source) in groups)
    && (forall s :: s in st.news ==> Open(h, key, s.0, groups))
  }

  lemma {:induction false} OpenSize(h: Hasher, key: Key, rows: set<nat>, groups: set<nat>)
    requires forall b :: b in rows ==> Open(h, key, b, groups)
    ensures |rows| <= 64 * |groups|
    decreases |groups|
  {
    hide NewChoices;
    if g :| g in groups {
      var here := rows * NewChoices(h, key, g);
      forall b | b in rows - here ensures Open(h, key, b, groups - {g}) {
        var k :| k in groups && b in NewChoices(h, key, k);
        assert k in groups - {g};
      }
      OpenSize(h, key, rows - here, groups - {g});
      ChoicesSize(h, key, g);
      Smaller(here, NewChoices(h, key, g));
      assert rows == (rows - here) + here;
    } else {
      NoneOpen(h, key, rows, groups);
    }
  }

  lemma NoneOpen(h: Hasher, key: Key, rows: set<nat>, groups: set<nat>)
    requires groups == {} && forall b :: b in rows ==> Open(h, key, b, groups)
    ensures rows == {}
  {
    hide NewChoices;
    assert forall b :: !Open(h, key, b, groups);
  }

  lemma ChoicesSize(h: Hasher, key: Key, g: nat)
    ensures |NewChoices(h, key, g)| <= 64
  {
    NewAmongSize(h, key, g, 64);
  }

  /** Sources of n groups fill at most 64 n of the 1024 buckets, and 4096 n of the 65536 places for new addresses. */
  lemma NewLimit(h: Hasher, key: Key, st: State, groups: set<nat>)
    requires Consistent(h, key, st, 0, {}) && Confined(h, key, st, groups)
    ensures |set s | s in st.news :: s.0| <= 64 * |groups| && |st.news| <= 4096 * |groups|
  {
    var rows := set s | s in st.news :: s.0;
    OpenSize(h, key, rows, groups);
    forall s | s in st.news.Keys ensures s.0 in rows && s.1 < BUCKET_SIZE {
      assert NewSlotOk(h, key, st.infos, s, st.news[s]);
    }
    RowsSize(st.news.Keys, rows);
    assert |st.news| == |st.news.Keys|;
  }

  lemma OpenSlot(h: Hasher, key: Key, a: Service, source: NetAddr, groups: set<nat>)
    requires h.group(source) in groups
    ensures Open(h, key, SlotFrom(h, key, a, source).0, groups)
  {
    NewSpread(h, key, a, source);
  }

  lemma PlacedConfined(h: Hasher, key: Key, a: State, b: State, nId: int, source: NetAddr, nNow: int, groups: set<nat>)
    requires nId in a.infos && M.Placed(h, key, a, b, nId, source, nNow) && Confined(h, key, a, groups) && h.group(source) in groups
    ensures forall s :: s in b.news ==> Open(h, key, s.0, groups)
  {
    hide Freed, M.Yields, Open;
    OpenSlot(h, key, a.infos[nId].addr, source, groups);
  }

  lemma PlacedSource(h: Hasher, key: Key, a: State, b: State, nId: int, source: NetAddr, nNow: int)
    requires nId in a.infos && M.Placed(h, key, a, b, nId, source, nNow)
    ensures nId in b.infos && a.infos[nId].nRefCount == 0 ==> b.infos[nId].source == a.infos[nId].source
  {
    hide Freed, M.Yields;
  }

  lemma TriedConfined(h: Hasher, key: Key, a: State, b: State, id: int, groups: set<nat>)
    requires id in a.infos && BecameTried(h, key, a, b, id) && Confined(h, key, a, groups)
    ensures forall s :: s in b.news ==> Open(h, key, s.0, groups)
  {
    hide Freed, Open;
    var t := TriedSlot(h, key, a.infos[id].addr);
    if t in a.tried {
      var out := a.tried[t];
      OpenSlot(h, key, a.infos[out].addr, a.infos[out].source, groups);
    }
  }

  //////////////////////////////////////////////////////////////////////////////
  // Every run
  //////////////////////////////////////////////////////////////////////////////

  datatype Op =
    | Add(addr: M.Address, source: NetAddr, nTimePenalty: int, isRoutable: bool, nNow: int, nRnd: nat)
    | Good(service: Service, nTime: int, nRnd: nat)
    | Attempt(service: Service, nTime: int)
    | Connected(service: Service, nTime: int)
    | GetAddr(rnd: nat -> nat, nNow: int)

  ghost predicate FromGroups(h: Hasher, op: Op, groups: set<nat>) { op.Add? ==> h.group(op.source) in groups }

  /** What Add_ does to the new table and the sources, for a known address and for a new one. */
  lemma AddConfined(h: Hasher, key: Key, a: State, b: State, nId: int, info: AddrInfo, source: NetAddr, nNow: int, groups: set<nat>)
    requires Confined(h, key, a, groups) && h.group(source) in groups && (nId in a.infos ==> info.source == a.infos[nId].source)
    requires (nId !in a.infos ==> info.source == source && info.nRefCount == 0) && Inherited(a.infos, b.infos - {a.nIdCount})
    requires a.nIdCount in b.infos ==> nId == a.nIdCount && nId !in a.infos
    requires M.Placed(h, key, a.(infos := a.infos[nId := info]), b, nId, source, nNow)
    ensures Confined(h, key, b, groups)
  {
    hide Open;
    var told := a.(infos := a.infos[nId := info]);
    assert Confined(h, key, told, groups);
    PlacedConfined(h, key, told, b, nId, source, nNow, groups);
    PlacedSource(h, key, told, b, nId, source, nNow);
    hide M.Placed;
    forall id | id in b.infos ensures h.group(b.infos[id].source) in groups {
      if id != a.nIdCount {
        assert id in b.infos - {a.nIdCount};
      }
    }
  }

  lemma FreshId(h: Hasher, key: Key, st: State)
    requires Consistent(h, key, st, 0, {})
    ensures st.nIdCount !in st.infos && forall ip :: ip in st.addrs ==> st.addrs[ip] in st.infos
  {
  }

  method RunAdd(m: M.AddrMan, addr: M.Address, source: NetAddr, nTimePenalty: int, isRoutable: bool, nNow: int, nRnd: nat, ghost groups: set<nat>)
    requires m.Valid() && Confined(m.h, m.nKey, m.St(), groups) && m.h.group(source) in groups
    modifies m, m.vvNew
    ensures m.Valid() && Confined(m.h, m.nKey, m.St(), groups) && m.nKey == old(m.nKey)
  {
    hide Consistent, M.Placed, M.Wanted, M.IsNews, Open, M.AddrMan.Arrays, Inherited, M.AddrMan.TimesOk;
    ghost var a, h, key := m.St(), m.h, m.nKey;
    FreshId(h, key, a);
    var fNew := m.Add_(addr, source, nTimePenalty, isRoutable, nNow, nRnd);
    ghost var b := m.St();
    FreshId(h, key, b);
    if fNew {
      ghost var nTime := if addr.nTime > nTimePenalty then addr.nTime - nTimePenalty else 0;
      ghost var info := AddrInfo(addr.service, addr.services, nTime, source, 0, 0, 0, 0, false, |a.vRandom|);
      AddConfined(h, key, a, b, a.nIdCount, info, source, nNow, groups);
    } else if isRoutable {
      ghost var nId := a.addrs[addr.service.ip];
      ghost var was := a.infos[nId];
      ghost var nTime := if !M.IsNews(was.nTime, addr.nTime, nTimePenalty, nNow) then was.nTime
                         else if addr.nTime > nTimePenalty then addr.nTime - nTimePenalty else 0;
      ghost var info := was.(nTime := nTime, services := was.services + addr.services);
      if M.Wanted(info, addr, nRnd) {
        AddConfined(h, key, a, b, nId, info, source, nNow, groups);
      }
    }
  }

  method RunGood(m: M.AddrMan, service: Service, nTime: int, nRnd: nat, ghost groups: set<nat>)
    requires m.Valid() && Confined(m.h, m.nKey, m.St(), groups)
    modifies m, m.vvNew, m.vvTried
    ensures m.Valid() && Confined(m.h, m.nKey, m.St(), groups) && m.nKey == old(m.nKey)
  {
    hide Consistent, BecameTried, Open, M.AddrMan.Arrays, M.AddrMan.TimesOk;
    ghost var a, h, key := m.St(), m.h, m.nKey;
    FreshId(h, key, a);
    m.Good_(service, nTime, nRnd);
    ghost var b := m.St();
    if service.ip in a.addrs && a.infos[a.addrs[service.ip]].addr == service {
      ghost var id := a.addrs[service.ip];
      ghost var met := a.infos[id].(nLastSuccess := nTime, nLastTry := nTime, nAttempts := 0);
      if !met.fInTried {
        TriedConfined(h, key, a.(infos := a.infos[id := met]), b, id, groups);
      }
    }
  }

  method RunOne(m: M.AddrMan, op: Op, ghost groups: set<nat>)
    requires m.Valid() && Confined(m.h, m.nKey, m.St(), groups) && FromGroups(m.h, op, groups)
    modifies m, m.vvNew, m.vvTried
    ensures m.Valid() && Confined(m.h, m.nKey, m.St(), groups) && m.nKey == old(m.nKey)
  {
    hide Consistent, Open, M.AddrMan.Arrays, M.AddrMan.TimesOk, M.Eligible;
    match op
    case Add(addr, source, nTimePenalty, isRoutable, nNow, nRnd) =>
      RunAdd(m, addr, source, nTimePenalty, isRoutable, nNow, nRnd, groups);
    case Good(service, nTime, nRnd) =>
      RunGood(m, service, nTime, nRnd, groups);
    case Attempt(service, nTime) =>
      m.Attempt_(service, nTime);
    case Connected(service, nTime) =>
      m.Connected_(service, nTime);
    case GetAddr(rnd, nNow) =>
      var n := |m.vRandom|;
      var _, _ := m.GetAddr_(seq(n, i requires 0 <= i < n => rnd(i)), nNow);
  }

  /**
   Whatever is done to a new manager, in whatever order: if all that was told came from sources of n groups, at most 64 n
   buckets and 4096 n places of the new table are in use; and at most 512 tried addresses are of any one group.
   */
  method Run(h: Hasher, nKey: Key, ops: seq<Op>, ghost groups: set<nat>) returns (m: M.AddrMan)
    requires forall i :: 0 <= i < |ops| ==> FromGroups(h, ops[i], groups)
    ensures m.Valid() && m.h == h && m.nKey == nKey
    ensures |set s | s in m.news :: s.0| <= 64 * |groups| && |m.news| <= 4096 * |groups|
    ensures forall g :: |TriedOf(h, m.mapInfo, g)| <= 512
  {
    m := new M.AddrMan(h, nKey);
    hide M.AddrMan.Valid, Open, TriedOf;
    for i := 0 to |ops|
      invariant m.Valid() && m.h == h && m.nKey == nKey && fresh(m) && fresh(m.vvNew) && fresh(m.vvTried)
      invariant Confined(h, nKey, m.St(), groups)
    {
      RunOne(m, ops[i], groups);
    }
    Limits(m, groups);
  }

  lemma Limits(m: M.AddrMan, groups: set<nat>)
    requires m.Valid() && Confined(m.h, m.nKey, m.St(), groups)
    ensures |set s | s in m.news :: s.0| <= 64 * |groups| && |m.news| <= 4096 * |groups|
    ensures forall g :: |TriedOf(m.h, m.mapInfo, g)| <= 512
  {
    hide Consistent, Confined, TriedOf;
    NewLimit(m.h, m.nKey, m.St(), groups);
    forall g ensures |TriedOf(m.h, m.mapInfo, g)| <= 512 {
      TriedLimit(m.h, m.nKey, m.St(), g);
    }
  }
}
