module AddrTables {
  // The indexes of the address manager as values, and what each elementary change does to
  // them. The consistency condition is the one the code's own checker tests.

  const TRIED_BUCKET_COUNT := 256
  const NEW_BUCKET_COUNT := 1024
  const BUCKET_SIZE := 64
  const NEW_BUCKETS_PER_ADDRESS := 8

  type NetAddr = nat
  type Key = nat

  datatype Service = Service(ip: NetAddr, port: nat)

  datatype AddrInfo = AddrInfo(
    addr: Service, services: set<nat>, nTime: int, source: NetAddr,
    nLastSuccess: int, nLastTry: int, nAttempts: int,
    nRefCount: int, fInTried: bool, nRandomPos: int)

  /**
   The salted hashes behind the choice of bucket and of the position in it. The group of an address is its range; a bucket
   is chosen by hashing a group together with one of few numbers, which is hashed from the rest.
   */
  datatype Hasher = Hasher(
    group: NetAddr -> nat,
    triedPick: (Key, Service) -> nat,
    triedBucket: (Key, nat, nat) -> nat,
    newPick: (Key, nat, nat) -> nat,
    newBucket: (Key, nat, nat) -> nat,
    position: (Key, bool, nat, Service) -> nat)

  const TRIED_BUCKETS_PER_GROUP := 8
  const NEW_BUCKETS_PER_SOURCE_GROUP := 64

  /** A bucket and a position in it. */
  type Slot = (nat, nat)

  function TriedBucket(h: Hasher, key: Key, a: Service): (b: nat)
    ensures b < TRIED_BUCKET_COUNT
  {
    h.triedBucket(key, h.group(a.ip), h.triedPick(key, a) % TRIED_BUCKETS_PER_GROUP) % TRIED_BUCKET_COUNT
  }

  function NewBucket(h: Hasher, key: Key, a: Service, source: NetAddr): (b: nat)
    ensures b < NEW_BUCKET_COUNT
  {
    var g := h.group(source);
    h.newBucket(key, g, h.newPick(key, h.group(a.ip), g) % NEW_BUCKETS_PER_SOURCE_GROUP) % NEW_BUCKET_COUNT
  }

  function Position(h: Hasher, key: Key, fNew: bool, bucket: nat, a: Service): (p: nat)
    ensures p < BUCKET_SIZE
  {
    h.position(key, fNew, bucket, a) % BUCKET_SIZE
  }

  function TriedSlot(h: Hasher, key: Key, a: Service): Slot {
    (TriedBucket(h, key, a), Position(h, key, false, TriedBucket(h, key, a), a))
  }

  function NewSlot(h: Hasher, key: Key, bucket: nat, a: Service): Slot {
    (bucket, Position(h, key, true, bucket, a))
  }

  //////////////////////////////////////////////////////////////////////////////
  // Consistency
  //////////////////////////////////////////////////////////////////////////////

  type Infos = map<int, AddrInfo>

  /** Ids and addresses are each other's inverse. */
  ghost predicate AddrIndex(infos: Infos, addrs: map<NetAddr, int>) {
    && (forall id :: id in infos ==> infos[id].addr.ip in addrs && addrs[infos[id].addr.ip] == id)
    && (forall ip :: ip in addrs ==> addrs[ip] in infos && infos[addrs[ip]].addr.ip == ip)
  }

  /** vRandom lists every id once, and each entry knows its place in it. */
  ghost predicate RandomIndex(infos: Infos, vRandom: seq<int>) {
    && (forall id :: id in infos ==> 0 <= infos[id].nRandomPos < |vRandom| && vRandom[infos[id].nRandomPos] == id)
    && (forall i :: 0 <= i < |vRandom| ==> vRandom[i] in infos && infos[vRandom[i]].nRandomPos == i)
  }

  ghost function SlotsOf(news: map<Slot, int>, id: int): set<Slot> {
    set s | s in news && news[s] == id
  }

  ghost predicate NewSlotOk(h: Hasher, key: Key, infos: Infos, s: Slot, id: int) {
    id in infos && !infos[id].fInTried && s == NewSlot(h, key, s.0, infos[id].addr) && s.0 < NEW_BUCKET_COUNT
  }

  ghost predicate CountOk(infos: Infos, news: map<Slot, int>, id: int)
    requires id in infos
  {
    infos[id].nRefCount == |SlotsOf(news, id)| && infos[id].nRefCount <= NEW_BUCKETS_PER_ADDRESS
  }

  /** The new table: entries stand where their hash says, as often as they are counted. */
  ghost predicate NewTable(h: Hasher, key: Key, infos: Infos, news: map<Slot, int>) {
    && (forall s :: s in news ==> NewSlotOk(h, key, infos, s, news[s]))
    && (forall id :: id in infos ==> CountOk(infos, news, id))
  }

  ghost predicate TriedSlotOk(h: Hasher, key: Key, infos: Infos, s: Slot, id: int) {
    id in infos && infos[id].fInTried && s == TriedSlot(h, key, infos[id].addr)
  }

  ghost predicate InItsSlot(h: Hasher, key: Key, infos: Infos, tried: map<Slot, int>, id: int)
    requires id in infos
  {
    infos[id].fInTried ==> TriedSlot(h, key, infos[id].addr) in tried && tried[TriedSlot(h, key, infos[id].addr)] == id
  }

  /** The tried table: exactly the tried entries, each in the one slot its hash says. */
  ghost predicate TriedTable(h: Hasher, key: Key, infos: Infos, tried: map<Slot, int>) {
    && (forall s :: s in tried ==> TriedSlotOk(h, key, infos, s, tried[s]))
    && (forall id :: id in infos ==> InItsSlot(h, key, infos, tried, id))
  }

  ghost function NewIds(infos: Infos): set<int> { set id | id in infos && !infos[id].fInTried }
  ghost function TriedIds(infos: Infos): set<int> { set id | id in infos && infos[id].fInTried }

  /** Entries in neither table; between operations there are none. */
  ghost predicate OrphansOnly(infos: Infos, allowed: set<int>) {
    forall id :: id in infos && !infos[id].fInTried && infos[id].nRefCount == 0 ==> id in allowed
  }

  ghost predicate Tables(h: Hasher, key: Key, infos: Infos, addrs: map<NetAddr, int>, news: map<Slot, int>, tried: map<Slot, int>) {
    AddrIndex(infos, addrs) && Slots(h, key, infos, news, tried)
  }

  /** The two tables, without the index by address. */
  ghost predicate Slots(h: Hasher, key: Key, infos: Infos, news: map<Slot, int>, tried: map<Slot, int>) {
    NewTable(h, key, infos, news) && TriedTable(h, key, infos, tried)
  }

  //////////////////////////////////////////////////////////////////////////////
  // Elementary changes
  //////////////////////////////////////////////////////////////////////////////

  /** Nothing the tables depend on differs: times, attempts, services and places in vRandom may. */
  ghost predicate SameStructure(a: Infos, b: Infos) {
    && a.Keys == b.Keys
    && forall id :: id in a ==> a[id].addr == b[id].addr && a[id].source == b[id].source
                                && a[id].nRefCount == b[id].nRefCount && a[id].fInTried == b[id].fInTried
  }

  lemma StructureKept(h: Hasher, key: Key, a: Infos, b: Infos, news: map<Slot, int>, tried: map<Slot, int>)
    requires Slots(h, key, a, news, tried) && SameStructure(a, b)
    ensures Slots(h, key, b, news, tried)
    ensures NewIds(b) == NewIds(a) && TriedIds(b) == TriedIds(a)
    ensures forall allowed :: OrphansOnly(a, allowed) ==> OrphansOnly(b, allowed)
  {
    assert forall id :: id in b <==> id in a.Keys;
    forall id ensures (id in NewIds(b) <==> id in NewIds(a)) && (id in TriedIds(b) <==> id in TriedIds(a)) {
      assert id in a ==> a[id].fInTried == b[id].fInTried;
    }
    forall s | s in news ensures NewSlotOk(h, key, b, s, news[s]) { assert NewSlotOk(h, key, a, s, news[s]); }
    forall s | s in tried ensures TriedSlotOk(h, key, b, s, tried[s]) { assert TriedSlotOk(h, key, a, s, tried[s]); }
    forall id | id in b ensures CountOk(b, news, id) && InItsSlot(h, key, b, tried, id) {
      assert CountOk(a, news, id) && InItsSlot(h, key, a, tried, id);
    }
  }

  lemma AddEntry(h: Hasher, key: Key, infos: Infos, news: map<Slot, int>, tried: map<Slot, int>, id: int, info: AddrInfo)
    requires Slots(h, key, infos, news, tried) && id !in infos
    requires !info.fInTried && info.nRefCount == 0
    ensures Slots(h, key, infos[id := info], news, tried)
    ensures NewIds(infos[id := info]) == NewIds(infos) + {id} && TriedIds(infos[id := info]) == TriedIds(infos)
  {
    var after := infos[id := info];
    forall s | s in news ensures NewSlotOk(h, key, after, s, news[s]) && news[s] != id { assert NewSlotOk(h, key, infos, s, news[s]); }
    forall s | s in tried ensures TriedSlotOk(h, key, after, s, tried[s]) { assert TriedSlotOk(h, key, infos, s, tried[s]); }
    assert SlotsOf(news, id) == {};
    forall o | o in after ensures CountOk(after, news, o) && InItsSlot(h, key, after, tried, o) {
      assert o != id ==> CountOk(infos, news, o) && InItsSlot(h, key, infos, tried, o);
    }
  }

  /** An entry that is counted zero times stands in no slot. */
  lemma NoSlots(h: Hasher, key: Key, infos: Infos, news: map<Slot, int>, id: int)
    requires NewTable(h, key, infos, news) && id in infos && (infos[id].nRefCount == 0 || infos[id].fInTried)
    ensures SlotsOf(news, id) == {} && infos[id].nRefCount == 0 && forall s :: s in news ==> news[s] != id
  {
    assert CountOk(infos, news, id);
    forall s | s in news ensures news[s] != id {
      assert NewSlotOk(h, key, infos, s, news[s]);
      assert news[s] == id ==> s in SlotsOf(news, id);
    }
    assert SlotsOf(news, id) == {};
  }

  lemma RemoveEntry(h: Hasher, key: Key, infos: Infos, news: map<Slot, int>, tried: map<Slot, int>, id: int)
    requires Slots(h, key, infos, news, tried)
    requires id in infos && !infos[id].fInTried && infos[id].nRefCount == 0
    ensures Slots(h, key, infos - {id}, news, tried)
    ensures NewIds(infos - {id}) == NewIds(infos) - {id} && TriedIds(infos - {id}) == TriedIds(infos)
  {
    NoSlots(h, key, infos, news, id);
    var after := infos - {id};
    forall s | s in news ensures NewSlotOk(h, key, after, s, news[s]) { assert NewSlotOk(h, key, infos, s, news[s]); }
    forall s | s in tried ensures TriedSlotOk(h, key, after, s, tried[s]) { assert TriedSlotOk(h, key, infos, s, tried[s]); }
    forall o | o in after ensures CountOk(after, news, o) && InItsSlot(h, key, after, tried, o) {
      assert CountOk(infos, news, o) && InItsSlot(h, key, infos, tried, o);
    }
  }

  lemma ClearSlot(h: Hasher, key: Key, infos: Infos, news: map<Slot, int>, tried: map<Slot, int>, s: Slot)
    requires Slots(h, key, infos, news, tried) && s in news
    ensures news[s] in infos && !infos[news[s]].fInTried && infos[news[s]].nRefCount > 0
    ensures var id := news[s];
      var after := infos[id := infos[id].(nRefCount := infos[id].nRefCount - 1)];
      && Slots(h, key, after, news - {s}, tried)
      && NewIds(after) == NewIds(infos) && TriedIds(after) == TriedIds(infos)
  {
    var id := news[s];
    assert NewSlotOk(h, key, infos, s, id) && CountOk(infos, news, id);
    assert s in SlotsOf(news, id);
    var after, news' := infos[id := infos[id].(nRefCount := infos[id].nRefCount - 1)], news - {s};
    forall q | q in news' ensures NewSlotOk(h, key, after, q, news'[q]) { assert NewSlotOk(h, key, infos, q, news[q]); }
    forall q | q in tried ensures TriedSlotOk(h, key, after, q, tried[q]) { assert TriedSlotOk(h, key, infos, q, tried[q]); }
    forall o | o in after ensures CountOk(after, news', o) && InItsSlot(h, key, after, tried, o) {
      assert CountOk(infos, news, o) && InItsSlot(h, key, infos, tried, o);
      assert SlotsOf(news', o) == if o == id then SlotsOf(news, o) - {s} else SlotsOf(news, o);
    }
  }

  lemma SlotsAfterSet(news: map<Slot, int>, s: Slot, id: int, o: int)
    requires s !in news
    ensures SlotsOf(news[s := id], o) == if o == id then SlotsOf(news, o) + {s} else SlotsOf(news, o)
    ensures |SlotsOf(news[s := id], o)| == |SlotsOf(news, o)| + if o == id then 1 else 0
  {
    assert SlotsOf(news[s := id], o) == if o == id then SlotsOf(news, o) + {s} else SlotsOf(news, o);
  }

  lemma SetSlot(h: Hasher, key: Key, infos: Infos, news: map<Slot, int>, tried: map<Slot, int>, s: Slot, id: int)
    requires Slots(h, key, infos, news, tried) && s !in news
    requires id in infos && !infos[id].fInTried && infos[id].nRefCount < NEW_BUCKETS_PER_ADDRESS
    requires s.0 < NEW_BUCKET_COUNT && s == NewSlot(h, key, s.0, infos[id].addr)
    ensures var after := infos[id := infos[id].(nRefCount := infos[id].nRefCount + 1)];
      && Slots(h, key, after, news[s := id], tried)
      && NewIds(after) == NewIds(infos) && TriedIds(after) == TriedIds(infos)
  {
    var after, news' := infos[id := infos[id].(nRefCount := infos[id].nRefCount + 1)], news[s := id];
    forall q | q in news' ensures NewSlotOk(h, key, after, q, news'[q]) { assert q != s ==> NewSlotOk(h, key, infos, q, news[q]); }
    forall q | q in tried ensures TriedSlotOk(h, key, after, q, tried[q]) { assert TriedSlotOk(h, key, infos, q, tried[q]); }
    forall o | o in after ensures CountOk(after, news', o) && InItsSlot(h, key, after, tried, o) {
      assert CountOk(infos, news, o) && InItsSlot(h, key, infos, tried, o);
      SlotsAfterSet(news, s, id, o);
    }
  }

  lemma EnterTried(h: Hasher, key: Key, infos: Infos, news: map<Slot, int>, tried: map<Slot, int>, id: int)
    requires Slots(h, key, infos, news, tried)
    requires id in infos && !infos[id].fInTried && infos[id].nRefCount == 0 && TriedSlot(h, key, infos[id].addr) !in tried
    ensures var after := infos[id := infos[id].(fInTried := true)];
      && Slots(h, key, after, news, tried[TriedSlot(h, key, infos[id].addr) := id])
      && NewIds(after) == NewIds(infos) - {id} && TriedIds(after) == TriedIds(infos) + {id}
  {
    NoSlots(h, key, infos, news, id);
    var t := TriedSlot(h, key, infos[id].addr);
    var after, tried' := infos[id := infos[id].(fInTried := true)], tried[t := id];
    forall q | q in news ensures NewSlotOk(h, key, after, q, news[q]) { assert NewSlotOk(h, key, infos, q, news[q]); }
    forall q | q in tried' ensures TriedSlotOk(h, key, after, q, tried'[q]) { assert q != t ==> TriedSlotOk(h, key, infos, q, tried[q]); }
    forall o | o in after ensures CountOk(after, news, o) && InItsSlot(h, key, after, tried', o) {
      assert CountOk(infos, news, o) && InItsSlot(h, key, infos, tried, o);
    }
  }

  lemma LeaveTried(h: Hasher, key: Key, infos: Infos, news: map<Slot, int>, tried: map<Slot, int>, s: Slot)
    requires Slots(h, key, infos, news, tried) && s in tried
    ensures tried[s] in infos && infos[tried[s]].fInTried && infos[tried[s]].nRefCount == 0
    ensures var after := infos[tried[s] := infos[tried[s]].(fInTried := false)];
      && Slots(h, key, after, news, tried - {s})
      && NewIds(after) == NewIds(infos) + {tried[s]} && TriedIds(after) == TriedIds(infos) - {tried[s]}
  {
    var id := tried[s];
    assert TriedSlotOk(h, key, infos, s, id);
    NoSlots(h, key, infos, news, id);
    var after, tried' := infos[id := infos[id].(fInTried := false)], tried - {s};
    forall q | q in news ensures NewSlotOk(h, key, after, q, news[q]) { assert NewSlotOk(h, key, infos, q, news[q]); }
    forall q | q in tried' ensures TriedSlotOk(h, key, after, q, tried'[q]) {
      assert TriedSlotOk(h, key, infos, q, tried[q]);
    }
    forall o | o in after ensures CountOk(after, news, o) && InItsSlot(h, key, after, tried', o) {
      assert CountOk(infos, news, o) && InItsSlot(h, key, infos, tried, o);
    }
  }

  //////////////////////////////////////////////////////////////////////////////
  // The random order
  //////////////////////////////////////////////////////////////////////////////

  function SwapInfos(infos: Infos, vRandom: seq<int>, i: nat, j: nat): Infos
    requires i < |vRandom| && j < |vRandom| && vRandom[i] in infos && vRandom[j] in infos
  {
    var moved := infos[vRandom[i] := infos[vRandom[i]].(nRandomPos := j)];
    moved[vRandom[j] := moved[vRandom[j]].(nRandomPos := i)]
  }

  lemma Swapped(infos: Infos, vRandom: seq<int>, i: nat, j: nat)
    requires RandomIndex(infos, vRandom) && i < |vRandom| && j < |vRandom| && i != j
    ensures RandomIndex(SwapInfos(infos, vRandom, i, j), vRandom[i := vRandom[j]][j := vRandom[i]])
    ensures SameStructure(infos, SwapInfos(infos, vRandom, i, j))
  {
    var a, b := vRandom[i], vRandom[j];
    assert a != b by { assert infos[a].nRandomPos == i && infos[b].nRandomPos == j; }
    var infos', v' := SwapInfos(infos, vRandom, i, j), vRandom[i := b][j := a];
    forall id | id in infos' ensures 0 <= infos'[id].nRandomPos < |v'| && v'[infos'[id].nRandomPos] == id {}
    forall k | 0 <= k < |v'| ensures v'[k] in infos' && infos'[v'[k]].nRandomPos == k {
      assert infos[vRandom[k]].nRandomPos == k;
    }
  }

  /** Dropping the last of the random order together with its entry. */
  lemma PoppedLast(infos: Infos, vRandom: seq<int>)
    requires RandomIndex(infos, vRandom) && vRandom != []
    ensures RandomIndex(infos - {vRandom[|vRandom| - 1]}, vRandom[..|vRandom| - 1])
  {
    var last := vRandom[|vRandom| - 1];
    forall i | 0 <= i < |vRandom| - 1 ensures vRandom[i] != last {
      assert infos[vRandom[i]].nRandomPos == i;
    }
  }

  lemma Appended(infos: Infos, vRandom: seq<int>, id: int, info: AddrInfo)
    requires RandomIndex(infos, vRandom) && id !in infos && info.nRandomPos == |vRandom|
    ensures RandomIndex(infos[id := info], vRandom + [id])
  {
  }

  /** A permutation of the ids has as many elements as there are entries. */
  lemma {:induction false} RandomCount(infos: Infos, vRandom: seq<int>)
    requires RandomIndex(infos, vRandom)
    ensures |vRandom| == |infos|
  {
    if vRandom == [] {
      assert forall id :: id !in infos;
      assert infos == map[];
    } else {
      var last := vRandom[|vRandom| - 1];
      PoppedLast(infos, vRandom);
      RandomCount(infos - {last}, vRandom[..|vRandom| - 1]);
      assert infos.Keys == (infos - {last}).Keys + {last};
    }
  }

  //////////////////////////////////////////////////////////////////////////////
  // All indexes together
  //////////////////////////////////////////////////////////////////////////////

  datatype State = State(
    infos: Infos, addrs: map<NetAddr, int>, vRandom: seq<int>,
    news: map<Slot, int>, tried: map<Slot, int>, nTried: int, nNew: int, nIdCount: int)

  /**
   Everything the consistency check asks for, except about times. In the middle of an
   operation some entries may be in neither table (orphans) and nNew may lag behind.
   */
  ghost predicate Consistent(h: Hasher, key: Key, st: State, lag: int, orphans: set<int>) {
    AddrIndex(st.infos, st.addrs) && Unindexed(h, key, st, lag, orphans)
  }

  /** The same, without the index by address. */
  ghost predicate Unindexed(h: Hasher, key: Key, st: State, lag: int, orphans: set<int>) {
    Slots(h, key, st.infos, st.news, st.tried) && Counted(st, lag, orphans)
  }

  ghost predicate Counted(st: State, lag: int, orphans: set<int>) {
    && RandomIndex(st.infos, st.vRandom)
    && OrphansOnly(st.infos, orphans)
    && st.nTried == |TriedIds(st.infos)|
    && st.nNew == |NewIds(st.infos)| - lag
    && forall id :: id in st.infos ==> 0 <= id < st.nIdCount
  }

  lemma Toggled(s: set<int>, id: int)
    ensures |s + {id}| == |s| + if id in s then 0 else 1
    ensures |s - {id}| == |s| - if id in s then 1 else 0
  {
    if id in s {
      assert s + {id} == s;
    } else {
      assert s - {id} == s;
    }
  }

  /** Changing the table an entry is in, or how often, leaves the rest as it was. */
  lemma CountedAfter(st: State, after: State, lag: int, lag': int, orphans: set<int>, orphans': set<int>, id: int, info: AddrInfo)
    requires Counted(st, lag, orphans) && id in st.infos && info.nRandomPos == st.infos[id].nRandomPos
    requires after.infos == st.infos[id := info] && after.vRandom == st.vRandom && after.nIdCount == st.nIdCount
    requires after.nTried - st.nTried == (if info.fInTried then 1 else 0) - (if st.infos[id].fInTried then 1 else 0)
    requires lag' - lag == (if info.fInTried then 0 else 1) - (if st.infos[id].fInTried then 0 else 1) - (after.nNew - st.nNew)
    requires orphans - {id} <= orphans' && (!info.fInTried && info.nRefCount == 0 ==> id in orphans')
    ensures Counted(after, lag', orphans')
  {
    IdsAfter(st.infos, id, info);
    RandomKept(st.infos, st.vRandom, id, info);
  }

  lemma IdsAfter(infos: Infos, id: int, info: AddrInfo)
    requires id in infos
    ensures |TriedIds(infos[id := info])| - |TriedIds(infos)| == (if info.fInTried then 1 else 0) - (if infos[id].fInTried then 1 else 0)
    ensures |NewIds(infos[id := info])| - |NewIds(infos)| == (if info.fInTried then 0 else 1) - (if infos[id].fInTried then 0 else 1)
  {
    var after := infos[id := info];
    assert TriedIds(after) == if info.fInTried then TriedIds(infos) + {id} else TriedIds(infos) - {id};
    assert NewIds(after) == if info.fInTried then NewIds(infos) - {id} else NewIds(infos) + {id};
    Toggled(TriedIds(infos), id);
    Toggled(NewIds(infos), id);
  }

  lemma RandomKept(infos: Infos, vRandom: seq<int>, id: int, info: AddrInfo)
    requires RandomIndex(infos, vRandom) && id in infos && info.nRandomPos == infos[id].nRandomPos
    ensures RandomIndex(infos[id := info], vRandom)
  {
  }

  /** Changes of times, attempts and services. */
  lemma Touched(h: Hasher, key: Key, st: State, lag: int, orphans: set<int>, id: int, info: AddrInfo)
    requires Consistent(h, key, st, lag, orphans) && id in st.infos
    requires info == st.infos[id].(nTime := info.nTime, services := info.services, nLastSuccess := info.nLastSuccess,
                                   nLastTry := info.nLastTry, nAttempts := info.nAttempts)
    ensures Consistent(h, key, st.(infos := st.infos[id := info]), lag, orphans)
  {
    StructureKept(h, key, st.infos, st.infos[id := info], st.news, st.tried);
  }

  function Created(st: State, info: AddrInfo): State {
    var id := st.nIdCount;
    st.(infos := st.infos[id := info.(nRandomPos := |st.vRandom|)], addrs := st.addrs[info.addr.ip := id],
        vRandom := st.vRandom + [id], nIdCount := id + 1)
  }

  lemma CreatedKeeps(h: Hasher, key: Key, st: State, lag: int, orphans: set<int>, info: AddrInfo)
    requires Consistent(h, key, st, lag, orphans) && info.addr.ip !in st.addrs && !info.fInTried && info.nRefCount == 0
    requires st.nIdCount >= 0
    ensures Consistent(h, key, Created(st, info), lag + 1, orphans + {st.nIdCount})
  {
    CreatedUnindexed(h, key, st, lag, orphans, info);
    hide Unindexed;
    assert st.nIdCount !in st.infos by { IdsBelow(h, key, st, lag, orphans); }
  }

  lemma IdsBelow(h: Hasher, key: Key, st: State, lag: int, orphans: set<int>)
    requires Unindexed(h, key, st, lag, orphans)
    ensures forall id :: id in st.infos ==> 0 <= id < st.nIdCount
  {
  }

  lemma CreatedUnindexed(h: Hasher, key: Key, st: State, lag: int, orphans: set<int>, info: AddrInfo)
    requires Unindexed(h, key, st, lag, orphans) && !info.fInTried && info.nRefCount == 0 && st.nIdCount >= 0
    ensures Unindexed(h, key, Created(st, info), lag + 1, orphans + {st.nIdCount})
  {
    var id, i := st.nIdCount, info.(nRandomPos := |st.vRandom|);
    assert id !in st.infos;
    AddEntry(h, key, st.infos, st.news, st.tried, id, i);
    Appended(st.infos, st.vRandom, id, i);
  }

  function SwappedState(st: State, i: nat, j: nat): State
    requires i < |st.vRandom| && j < |st.vRandom| && st.vRandom[i] in st.infos && st.vRandom[j] in st.infos
  {
    if i == j then st
    else st.(infos := SwapInfos(st.infos, st.vRandom, i, j), vRandom := st.vRandom[i := st.vRandom[j]][j := st.vRandom[i]])
  }

  lemma SwappedUnindexed(h: Hasher, key: Key, st: State, lag: int, orphans: set<int>, i: nat, j: nat)
    requires Unindexed(h, key, st, lag, orphans) && i < |st.vRandom| && j < |st.vRandom|
    ensures st.vRandom[i] in st.infos && st.vRandom[j] in st.infos
    ensures Unindexed(h, key, SwappedState(st, i, j), lag, orphans)
    ensures SameStructure(st.infos, SwappedState(st, i, j).infos)
  {
    if i != j {
      Swapped(st.infos, st.vRandom, i, j);
      StructureKept(h, key, st.infos, SwappedState(st, i, j).infos, st.news, st.tried);
    }
  }

  lemma SwappedKeeps(h: Hasher, key: Key, st: State, lag: int, orphans: set<int>, i: nat, j: nat)
    requires Consistent(h, key, st, lag, orphans) && i < |st.vRandom| && j < |st.vRandom|
    ensures st.vRandom[i] in st.infos && st.vRandom[j] in st.infos
    ensures Consistent(h, key, SwappedState(st, i, j), lag, orphans)
    ensures SameStructure(st.infos, SwappedState(st, i, j).infos)
  {
    hide Unindexed;
    SwappedUnindexed(h, key, st, lag, orphans, i, j);
  }

  /** Swaps the entry to the end of the random order and drops it there. */
  ghost function Deleted(st: State, id: int): State
    requires id in st.infos && RandomIndex(st.infos, st.vRandom)
  {
    Popped(SwappedState(st, st.infos[id].nRandomPos, |st.vRandom| - 1), id, st.infos[id].addr.ip)
  }

  function Popped(w: State, id: int, ip: NetAddr): State
    requires w.vRandom != []
  {
    w.(infos := w.infos - {id}, addrs := w.addrs - {ip}, vRandom := w.vRandom[..|w.vRandom| - 1], nNew := w.nNew - 1)
  }

  lemma CountedDeleted(w: State, lag: int, orphans: set<int>, id: int)
    requires Counted(w, lag, orphans) && id in w.infos && !w.infos[id].fInTried && w.vRandom != [] && w.vRandom[|w.vRandom| - 1] == id
    ensures forall ip :: Counted(Popped(w, id, ip), lag, orphans - {id})
  {
    PoppedLast(w.infos, w.vRandom);
    assert NewIds(w.infos - {id}) == NewIds(w.infos) - {id};
    assert TriedIds(w.infos - {id}) == TriedIds(w.infos);
    Toggled(NewIds(w.infos), id);
  }

  lemma PoppedUnindexed(h: Hasher, key: Key, w: State, lag: int, orphans: set<int>, id: int)
    requires Unindexed(h, key, w, lag, orphans) && w.vRandom != [] && w.vRandom[|w.vRandom| - 1] == id
    requires id in w.infos && !w.infos[id].fInTried && w.infos[id].nRefCount == 0
    ensures Unindexed(h, key, Popped(w, id, w.infos[id].addr.ip), lag, orphans - {id})
  {
    RemoveEntry(h, key, w.infos, w.news, w.tried, id);
    CountedDeleted(w, lag, orphans, id);
  }

  lemma DeletedKeeps(h: Hasher, key: Key, st: State, lag: int, orphans: set<int>, id: int)
    requires Consistent(h, key, st, lag, orphans)
    requires id in st.infos && !st.infos[id].fInTried && st.infos[id].nRefCount == 0
    ensures Consistent(h, key, Deleted(st, id), lag, orphans - {id})
  {
    hide Unindexed, Deleted;
    DeletedUnindexed(h, key, st, lag, orphans, id);
    DeletedAddresses(st, id);
  }

  /** What deleting leaves of the entries and of the addresses. */
  lemma DeletedShape(st: State, id: int)
    requires RandomIndex(st.infos, st.vRandom) && id in st.infos
    ensures var after := Deleted(st, id);
      && after.infos.Keys == st.infos.Keys - {id} && after.addrs == st.addrs - {st.infos[id].addr.ip}
      && forall o :: o in st.infos && o != id ==> Stays(st.infos, after.infos, o)
  {
    forall o | o in st.infos && o != id ensures Stays(st.infos, Deleted(st, id).infos, o) {
      DeletedOthers(st, id, o);
    }
  }

  lemma DeletedAddresses(st: State, id: int)
    requires RandomIndex(st.infos, st.vRandom) && id in st.infos && AddrIndex(st.infos, st.addrs)
    ensures AddrIndex(Deleted(st, id).infos, Deleted(st, id).addrs)
  {
    hide Deleted, RandomIndex;
    DeletedShape(st, id);
    var after := Deleted(st, id);
    forall o | o in after.infos ensures after.infos[o].addr.ip in after.addrs && after.addrs[after.infos[o].addr.ip] == o {
      assert Stays(st.infos, after.infos, o);
    }
    forall ip | ip in after.addrs ensures after.addrs[ip] in after.infos && after.infos[after.addrs[ip]].addr.ip == ip {
      assert Stays(st.infos, after.infos, st.addrs[ip]);
    }
  }

  lemma RandomOfUnindexed(h: Hasher, key: Key, st: State, lag: int, orphans: set<int>)
    requires Unindexed(h, key, st, lag, orphans)
    ensures RandomIndex(st.infos, st.vRandom)
  {
  }

  lemma DeletedUnindexed(h: Hasher, key: Key, st: State, lag: int, orphans: set<int>, id: int)
    requires Unindexed(h, key, st, lag, orphans)
    requires id in st.infos && !st.infos[id].fInTried && st.infos[id].nRefCount == 0
    ensures RandomIndex(st.infos, st.vRandom) && Unindexed(h, key, Deleted(st, id), lag, orphans - {id})
  {
    hide Unindexed;
    RandomOfUnindexed(h, key, st, lag, orphans);
    var i, j := st.infos[id].nRandomPos, |st.vRandom| - 1;
    SwappedUnindexed(h, key, st, lag, orphans, i, j);
    var w := SwappedState(st, i, j);
    assert w.vRandom[j] == id && w.infos[id] == st.infos[id].(nRandomPos := w.infos[id].nRandomPos);
    PoppedUnindexed(h, key, w, lag, orphans, id);
  }

  /** Deleting one entry changes no other, but for its place in the random order. */
  lemma DeletedOthers(st: State, id: int, o: int)
    requires RandomIndex(st.infos, st.vRandom) && id in st.infos && o in st.infos && o != id
    ensures o in Deleted(st, id).infos
    ensures st.infos[o].(nRandomPos := Deleted(st, id).infos[o].nRandomPos) == Deleted(st, id).infos[o]
  {
  }

  function SlotCleared(st: State, s: Slot): State
    requires s in st.news && st.news[s] in st.infos
  {
    var id := st.news[s];
    st.(infos := st.infos[id := st.infos[id].(nRefCount := st.infos[id].nRefCount - 1)], news := st.news - {s})
  }

  lemma SlotClearedKeeps(h: Hasher, key: Key, st: State, lag: int, orphans: set<int>, s: Slot)
    requires Consistent(h, key, st, lag, orphans) && s in st.news
    ensures st.news[s] in st.infos && !st.infos[st.news[s]].fInTried && st.infos[st.news[s]].nRefCount > 0
    ensures Consistent(h, key, SlotCleared(st, s), lag, orphans + {st.news[s]})
  {
    ClearSlot(h, key, st.infos, st.news, st.tried, s);
    var id := st.news[s];
    CountedAfter(st, SlotCleared(st, s), lag, lag, orphans, orphans + {id}, id, SlotCleared(st, s).infos[id]);
  }

  function SlotSet(st: State, s: Slot, id: int): State
    requires id in st.infos
  {
    st.(infos := st.infos[id := st.infos[id].(nRefCount := st.infos[id].nRefCount + 1)], news := st.news[s := id])
  }

  lemma SlotSetUnindexed(h: Hasher, key: Key, st: State, lag: int, orphans: set<int>, s: Slot, id: int)
    requires Unindexed(h, key, st, lag, orphans) && s !in st.news
    requires id in st.infos && !st.infos[id].fInTried && st.infos[id].nRefCount < NEW_BUCKETS_PER_ADDRESS
    requires s.0 < NEW_BUCKET_COUNT && s == NewSlot(h, key, s.0, st.infos[id].addr)
    ensures Unindexed(h, key, SlotSet(st, s, id), lag, orphans - {id})
  {
    SetSlot(h, key, st.infos, st.news, st.tried, s, id);
    assert CountOk(st.infos, st.news, id);
    CountedAfter(st, SlotSet(st, s, id), lag, lag, orphans, orphans - {id}, id, SlotSet(st, s, id).infos[id]);
  }

  lemma SlotSetKeeps(h: Hasher, key: Key, st: State, lag: int, orphans: set<int>, s: Slot, id: int)
    requires Consistent(h, key, st, lag, orphans) && s !in st.news
    requires id in st.infos && !st.infos[id].fInTried && st.infos[id].nRefCount < NEW_BUCKETS_PER_ADDRESS
    requires s.0 < NEW_BUCKET_COUNT && s == NewSlot(h, key, s.0, st.infos[id].addr)
    ensures Consistent(h, key, SlotSet(st, s, id), lag, orphans - {id})
  {
    hide Unindexed;
    SlotSetUnindexed(h, key, st, lag, orphans, s, id);
  }

  function TriedEntered(h: Hasher, key: Key, st: State, id: int): State
    requires id in st.infos
  {
    st.(infos := st.infos[id := st.infos[id].(fInTried := true)],
        tried := st.tried[TriedSlot(h, key, st.infos[id].addr) := id], nTried := st.nTried + 1)
  }

  lemma TriedEnteredUnindexed(h: Hasher, key: Key, st: State, lag: int, orphans: set<int>, id: int)
    requires Unindexed(h, key, st, lag, orphans)
    requires id in st.infos && !st.infos[id].fInTried && st.infos[id].nRefCount == 0
    requires TriedSlot(h, key, st.infos[id].addr) !in st.tried
    ensures Unindexed(h, key, TriedEntered(h, key, st, id), lag - 1, orphans - {id})
  {
    EnterTried(h, key, st.infos, st.news, st.tried, id);
    CountedAfter(st, TriedEntered(h, key, st, id), lag, lag - 1, orphans, orphans - {id}, id, st.infos[id].(fInTried := true));
  }

  lemma TriedEnteredKeeps(h: Hasher, key: Key, st: State, lag: int, orphans: set<int>, id: int)
    requires Consistent(h, key, st, lag, orphans)
    requires id in st.infos && !st.infos[id].fInTried && st.infos[id].nRefCount == 0
    requires TriedSlot(h, key, st.infos[id].addr) !in st.tried
    ensures Consistent(h, key, TriedEntered(h, key, st, id), lag - 1, orphans - {id})
  {
    hide Unindexed;
    TriedEnteredUnindexed(h, key, st, lag, orphans, id);
  }

  function TriedLeft(st: State, s: Slot): State
    requires s in st.tried && st.tried[s] in st.infos
  {
    var id := st.tried[s];
    st.(infos := st.infos[id := st.infos[id].(fInTried := false)], tried := st.tried - {s}, nTried := st.nTried - 1)
  }

  lemma TriedLeftKeeps(h: Hasher, key: Key, st: State, lag: int, orphans: set<int>, s: Slot)
    requires Consistent(h, key, st, lag, orphans) && s in st.tried
    ensures st.tried[s] in st.infos && st.infos[st.tried[s]].fInTried && st.infos[st.tried[s]].nRefCount == 0
    ensures Consistent(h, key, TriedLeft(st, s), lag + 1, orphans + {st.tried[s]})
  {
    LeaveTried(h, key, st.infos, st.news, st.tried, s);
    var id := st.tried[s];
    CountedAfter(st, TriedLeft(st, s), lag, lag + 1, orphans, orphans + {id}, id, st.infos[id].(fInTried := false));
  }

  lemma OtherOrphans(h: Hasher, key: Key, st: State, lag: int, a: set<int>, b: set<int>)
    requires Consistent(h, key, st, lag, a)
    requires forall id :: id in a && id in st.infos && id !in b ==> st.infos[id].fInTried || st.infos[id].nRefCount != 0
    ensures Consistent(h, key, st, lag, b)
  {
  }

  /** Clearing a slot of the new table, dropping the entry if it stood nowhere else. */
  ghost function NewCleared(st: State, s: Slot): State
    requires s in st.news ==> st.news[s] in st.infos && RandomIndex(SlotCleared(st, s).infos, st.vRandom)
  {
    if s !in st.news then st
    else
      var c := SlotCleared(st, s);
      if c.infos[st.news[s]].nRefCount == 0 then Deleted(c, st.news[s]) else c
  }

  lemma NewClearedKeeps(h: Hasher, key: Key, st: State, lag: int, orphans: set<int>, s: Slot)
    requires Consistent(h, key, st, lag, orphans)
    ensures s in st.news ==> st.news[s] in st.infos && RandomIndex(SlotCleared(st, s).infos, st.vRandom)
    ensures Consistent(h, key, NewCleared(st, s), lag, orphans)
  {
    if s in st.news {
      SlotClearedKeeps(h, key, st, lag, orphans, s);
      var c, id := SlotCleared(st, s), st.news[s];
      if c.infos[id].nRefCount == 0 {
        DeletedKeeps(h, key, c, lag, orphans + {id}, id);
        OtherOrphans(h, key, Deleted(c, id), lag, orphans + {id} - {id}, orphans);
      } else {
        OtherOrphans(h, key, c, lag, orphans + {id}, orphans);
      }
    }
  }

  lemma NewClearedOthers(h: Hasher, key: Key, st: State, lag: int, orphans: set<int>, s: Slot, o: int)
    requires Consistent(h, key, st, lag, orphans)
    requires o in st.infos && !(s in st.news && st.news[s] == o)
    ensures s in st.news ==> st.news[s] in st.infos && RandomIndex(SlotCleared(st, s).infos, st.vRandom)
    ensures o in NewCleared(st, s).infos
    ensures st.infos[o].(nRandomPos := NewCleared(st, s).infos[o].nRandomPos) == NewCleared(st, s).infos[o]
  {
    if s in st.news {
      SlotClearedKeeps(h, key, st, lag, orphans, s);
      DeletedOthers(SlotCleared(st, s), st.news[s], o);
    }
  }

  /** In any one bucket an entry can only stand in the slot its hash says. */
  lemma OnlySlot(h: Hasher, key: Key, infos: Infos, news: map<Slot, int>, id: int, bucket: nat)
    requires NewTable(h, key, infos, news) && id in infos
    ensures forall s :: s in news && news[s] == id && s.0 == bucket ==> s == NewSlot(h, key, bucket, infos[id].addr)
  {
    forall s | s in news && news[s] == id && s.0 == bucket ensures s == NewSlot(h, key, bucket, infos[id].addr) {
      assert NewSlotOk(h, key, infos, s, news[s]);
    }
  }

  /** An entry that stands in no bucket of the new table is counted zero times. */
  lemma CountedZero(h: Hasher, key: Key, st: State, lag: int, orphans: set<int>, id: int)
    requires Consistent(h, key, st, lag, orphans) && id in st.infos
    requires forall s: Slot :: s in st.news && st.news[s] == id ==> s.0 >= NEW_BUCKET_COUNT
    ensures st.infos[id].nRefCount == 0 && forall s :: s in st.news ==> st.news[s] != id
  {
    forall s | s in st.news ensures st.news[s] != id {
      assert NewSlotOk(h, key, st.infos, s, st.news[s]);
    }
    assert SlotsOf(st.news, id) == {};
    assert CountOk(st.infos, st.news, id);
  }

  /** b differs from a only in the entry id. */
  ghost predicate OnlyAt(a: Infos, b: Infos, id: int) {
    && id in a && a.Keys == b.Keys
    && forall o :: o in a && o != id ==> b[o] == a[o]
  }

  /** b differs from a only in how often id is counted. */
  ghost predicate OnlyCount(a: Infos, b: Infos, id: int) {
    OnlyAt(a, b, id) && b[id] == a[id].(nRefCount := b[id].nRefCount)
  }

  /** The entry is still there, changed at most in its place in the random order. */
  ghost predicate Stays(a: Infos, b: Infos, id: int) {
    id in a && id in b && b[id] == a[id].(nRandomPos := b[id].nRandomPos)
  }

  /** A swap at or after a position leaves what is before it, and every entry up to its position. */
  lemma SwappedDraw(st: State, n: nat, k: nat)
    requires RandomIndex(st.infos, st.vRandom) && n <= k < |st.vRandom|
    ensures var w := SwappedState(st, n, k);
      && |w.vRandom| == |st.vRandom| && w.vRandom[..n] == st.vRandom[..n] && w.infos.Keys == st.infos.Keys
      && w.vRandom == st.vRandom[n := st.vRandom[k]][k := st.vRandom[n]]
      && (forall o :: o in w.infos ==> Stays(st.infos, w.infos, o))
      && w == st.(infos := w.infos, vRandom := w.vRandom)
  {
  }

  lemma RandomOf(h: Hasher, key: Key, st: State, lag: int, orphans: set<int>)
    requires Consistent(h, key, st, lag, orphans)
    ensures RandomIndex(st.infos, st.vRandom)
  {
  }

  /** Every entry of b was in a, with the same address, source and times, and is in the tried table only if it was. */
  ghost predicate Inherited(a: Infos, b: Infos) {
    forall o :: o in b ==> o in a && b[o].addr == a[o].addr && b[o].source == a[o].source
                           && b[o].nLastTry == a[o].nLastTry && b[o].nLastSuccess == a[o].nLastSuccess
                           && (b[o].fInTried ==> a[o].fInTried)
  }

  /** Entries may be gone, but none is new, and none has another address or source. */
  ghost predicate SameSources(a: Infos, b: Infos) {
    forall o :: o in b ==> o in a && b[o].addr == a[o].addr && b[o].source == a[o].source
  }

  /** The entry has one place less, and is gone if that was its last. */
  ghost predicate Loses(a: Infos, b: Infos, id: int) {
    && id in a && (id in b <==> a[id].nRefCount > 1)
    && (id in b ==> b[id] == a[id].(nRefCount := a[id].nRefCount - 1, nRandomPos := b[id].nRandomPos))
  }

  /** From a to b the holder lost a place, and every other entry stayed; nothing is said of those in but. */
  ghost predicate Freed(a: Infos, b: Infos, holder: int, but: set<int>) {
    forall o :: o in a && o !in but ==> if o == holder then Loses(a, b, o) else Stays(a, b, o)
  }

  /** What a cell of a table holds: the id in the slot, or -1. */
  function Cell(m: map<Slot, int>, s: Slot): int { if s in m then m[s] else -1 }

  /** The new table with an entry taken out of all its slots. */
  ghost function Without(news: map<Slot, int>, id: int): map<Slot, int> {
    map s | s in news && news[s] != id :: news[s]
  }

  lemma FreedAt(a: Infos, b: Infos, holder: int, but: set<int>, o: int)
    requires Freed(a, b, holder, but) && o in a && o !in but
    ensures if o == holder then Loses(a, b, o) else Stays(a, b, o)
  {
  }

  /** The slot of the new table that a source gives an address. */
  function SlotFrom(h: Hasher, key: Key, a: Service, source: NetAddr): Slot {
    NewSlot(h, key, NewBucket(h, key, a, source), a)
  }

  /**
   An entry went from the new table to the tried table. The one it found in its slot there is
   back in the new table, where only the holder of the slot it was given lost a place.
   */
  ghost predicate BecameTried(h: Hasher, key: Key, a: State, b: State, id: int)
    requires id in a.infos
  {
    var t := TriedSlot(h, key, a.infos[id].addr);
    && id in b.infos && b.tried == a.tried[t := id]
    && b.infos[id] == a.infos[id].(nRefCount := 0, fInTried := true, nRandomPos := b.infos[id].nRandomPos)
    && if t !in a.tried then
         && b.news == Without(a.news, id)
         && Freed(a.infos, b.infos, -1, {id})
       else
         && var out := a.tried[t];
         && out in a.infos && out in b.infos
         && b.infos[out] == a.infos[out].(nRefCount := 1, fInTried := false, nRandomPos := b.infos[out].nRandomPos)
         && var s := SlotFrom(h, key, a.infos[out].addr, a.infos[out].source);
         && b.news == Without(a.news, id)[s := out]
         && Freed(a.infos, b.infos, Cell(Without(a.news, id), s), {id, out})
  }

  /** The entry in a tried slot went back to the new table, to make room for id. */
  ghost predicate Evicted(h: Hasher, key: Key, a: State, b: State, t: Slot, id: int)
    requires t in a.tried
  {
    var out := a.tried[t];
    && out in a.infos && out in b.infos && out != id && b.tried == a.tried - {t} && Stays(a.infos, b.infos, id)
    && b.infos[out] == a.infos[out].(nRefCount := 1, fInTried := false, nRandomPos := b.infos[out].nRandomPos)
    && var s := SlotFrom(h, key, a.infos[out].addr, a.infos[out].source);
    && b.news == a.news[s := out]
    && Freed(a.infos, b.infos, Cell(a.news, s), {out})
  }

  /** Out of the new table, room made if need be, and into the tried table. */
  lemma TriedInSteps(h: Hasher, key: Key, a: State, left: State, room: State, b: State, id: int)
    requires OnlyCount(a.infos, left.infos, id) && left.infos[id].nRefCount == 0 && -1 !in a.infos
    requires left.news == Without(a.news, id) && left.tried == a.tried
    requires var t := TriedSlot(h, key, a.infos[id].addr);
      && (if t in a.tried then Evicted(h, key, left, room, t, id) else room == left)
      && b.tried == room.tried[t := id]
    requires OnlyAt(room.infos, b.infos, id) && b.infos[id] == room.infos[id].(fInTried := true) && b.news == room.news
    ensures BecameTried(h, key, a, b, id)
  {
    var t := TriedSlot(h, key, a.infos[id].addr);
    assert b.tried == a.tried[t := id];
    var out := Cell(a.tried, t);
    var holder := if t in a.tried then Cell(left.news, SlotFrom(h, key, left.infos[out].addr, left.infos[out].source)) else -1;
    forall o | o in a.infos && o != id && o != out ensures if o == holder then Loses(a.infos, b.infos, o) else Stays(a.infos, b.infos, o) {
      assert left.infos[o] == a.infos[o];
      if t in a.tried {
        FreedAt(left.infos, room.infos, holder, {out}, o);
      }
    }
  }

  /** What clearing a slot does: only its holder is affected. */
  lemma NewClearedEffect(h: Hasher, key: Key, st: State, lag: int, orphans: set<int>, s: Slot)
    requires Consistent(h, key, st, lag, orphans)
    ensures s in st.news ==> st.news[s] in st.infos && RandomIndex(SlotCleared(st, s).infos, st.vRandom)
    ensures var after := NewCleared(st, s);
      && after.news == st.news - {s} && after.tried == st.tried && after.infos.Keys <= st.infos.Keys
      && (s in st.news ==> Loses(st.infos, after.infos, st.news[s]))
      && (forall o :: o in st.infos && !(s in st.news && st.news[s] == o) ==> Stays(st.infos, after.infos, o))
      && (s in st.news ==> st.infos[st.news[s]].nRefCount > 0 && !st.infos[st.news[s]].fInTried)
      && Inherited(st.infos, after.infos)
  {
    hide Consistent;
    if s in st.news {
      SlotClearedKeeps(h, key, st, lag, orphans, s);
      RandomOf(h, key, SlotCleared(st, s), lag, orphans + {st.news[s]});
    }
    forall o | o in st.infos && !(s in st.news && st.news[s] == o) ensures Stays(st.infos, NewCleared(st, s).infos, o) {
      NewClearedOthers(h, key, st, lag, orphans, s, o);
    }
  }

  /** An entry of the new table stands in some slot. */
  lemma SomeSlot(h: Hasher, key: Key, infos: Infos, news: map<Slot, int>, id: int) returns (s: Slot)
    requires NewTable(h, key, infos, news) && OrphansOnly(infos, {}) && id in infos && !infos[id].fInTried
    ensures s in news && news[s] == id && s.0 < NEW_BUCKET_COUNT && s == NewSlot(h, key, s.0, infos[id].addr)
  {
    assert CountOk(infos, news, id);
    s :| s in SlotsOf(news, id);
    assert NewSlotOk(h, key, infos, s, news[s]);
  }

  /** Counting on from anywhere, every bucket is reached. */
  lemma Reached(b: nat, start: nat)
    requires b < NEW_BUCKET_COUNT
    ensures exists m :: 0 <= m < NEW_BUCKET_COUNT && Rotated(m, start) == b
  {
    var r := start % NEW_BUCKET_COUNT;
    var m := if b >= r then b - r else b - r + NEW_BUCKET_COUNT;
    assert Rotated(m, start) == b;
  }

  function Rotated(n: nat, start: nat): nat { (n + start) % NEW_BUCKET_COUNT }

  /** No id is mistaken for the -1 of an empty cell. */
  lemma IdsNatural(h: Hasher, key: Key, st: State, lag: int, orphans: set<int>)
    requires Consistent(h, key, st, lag, orphans)
    ensures forall s :: s in st.tried ==> st.tried[s] >= 0
    ensures forall s :: s in st.news ==> st.news[s] >= 0
    ensures forall id :: id in st.infos ==> 0 <= id < st.nIdCount
  {
    forall s | s in st.tried ensures st.tried[s] >= 0 { assert TriedSlotOk(h, key, st.infos, s, st.tried[s]); }
    forall s | s in st.news ensures st.news[s] >= 0 { assert NewSlotOk(h, key, st.infos, s, st.news[s]); }
  }

  lemma AddrOf(h: Hasher, key: Key, st: State, lag: int, orphans: set<int>)
    requires Consistent(h, key, st, lag, orphans)
    ensures AddrIndex(st.infos, st.addrs)
  {
  }

  /** An entry between operations is in a table, at most eight times in the new one. */
  lemma CountRange(h: Hasher, key: Key, st: State, lag: int, orphans: set<int>, id: int)
    requires Consistent(h, key, st, lag, orphans) && id in st.infos
    ensures 0 <= st.infos[id].nRefCount <= NEW_BUCKETS_PER_ADDRESS
    ensures !st.infos[id].fInTried && id !in orphans ==> st.infos[id].nRefCount >= 1
  {
    assert CountOk(st.infos, st.news, id);
  }

  lemma NotInSlots(h: Hasher, key: Key, st: State, lag: int, orphans: set<int>, id: int)
    requires Consistent(h, key, st, lag, orphans) && id in st.infos && st.infos[id].nRefCount == 0
    ensures forall s :: s in st.news ==> st.news[s] != id
  {
    NoSlots(h, key, st.infos, st.news, id);
  }
}
