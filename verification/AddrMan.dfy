module AddrMan {
  // The stochastic address manager.

  import opened AddrTables
  import opened Bits

  const ADDRMAN_HORIZON_DAYS := 30
  const ADDRMAN_RETRIES := 3
  const ADDRMAN_MAX_FAILURES := 10
  const ADDRMAN_MIN_FAIL_DAYS := 7
  const ADDRMAN_GETADDR_MAX_PCT := 23
  const ADDRMAN_GETADDR_MAX := 2500

  /** What a peer tells about an address. */
  datatype Address = Address(service: Service, services: set<nat>, nTime: int)

  /** The statistics about an entry are bad enough for it to be dropped. */
  predicate IsTerrible(info: AddrInfo, nNow: int) {
    if info.nLastTry != 0 && info.nLastTry >= nNow - 60 then false
    else if info.nTime > nNow + 10 * 60 then true
    else if info.nTime == 0 || nNow - info.nTime > ADDRMAN_HORIZON_DAYS * 24 * 60 * 60 then true
    else if info.nLastSuccess == 0 && info.nAttempts >= ADDRMAN_RETRIES then true
    else nNow - info.nLastSuccess > ADDRMAN_MIN_FAIL_DAYS * 24 * 60 * 60 && info.nAttempts >= ADDRMAN_MAX_FAILURES
  }

  /**
   Worth telling to others, and safe from newcomers: tried within the last minute, or else last seen within the last 30 days
   and not more than ten minutes ahead, without three attempts and no success ever, and without ten failures and no success
   within the last week.
   */
  predicate Eligible(info: AddrInfo, nNow: int) {
    || (info.nLastTry != 0 && nNow <= info.nLastTry + 60)
    || (&& info.nTime != 0 && info.nTime <= nNow + 600 && nNow <= info.nTime + 2592000
        && !(info.nAttempts >= 3 && info.nLastSuccess == 0)
        && !(info.nAttempts >= 10 && nNow > info.nLastSuccess + 604800))
  }

  lemma TerribleExact(info: AddrInfo, nNow: int)
    ensures IsTerrible(info, nNow) <==> !Eligible(info, nNow)
  {
  }

  function Max(a: int, b: int): int { if a < b then b else a }

  /** The last-seen time of a known address is moved on only if the news are fresh enough. */
  function RefreshedTime(known: int, told: int, nTimePenalty: int, nNow: int): int {
    var nUpdateInterval := if nNow - told < 24 * 60 * 60 then 60 * 60 else 24 * 60 * 60;
    if told != 0 && (known == 0 || known < told - nUpdateInterval - nTimePenalty) then Max(0, told - nTimePenalty) else known
  }

  /**
   The news are newer than what is known by more than the penalty and an hour, or a day if they are a day old or older; or
   nothing is known.
   */
  predicate IsNews(known: int, told: int, nTimePenalty: int, nNow: int) {
    told != 0 && (known == 0 || told - known > nTimePenalty + if told > nNow - 86400 then 3600 else 86400)
  }

  /** The time moves to what was told less the penalty, never below zero, exactly if that is news. */
  lemma RefreshedExact(known: int, told: int, nTimePenalty: int, nNow: int)
    ensures var r := RefreshedTime(known, told, nTimePenalty, nNow);
      if IsNews(known, told, nTimePenalty, nNow) then r >= 0 && r >= told - nTimePenalty && (r == 0 || r == told - nTimePenalty)
      else r == known
  {
  }

  function Min(a: int, b: int): int { if a < b then a else b }

  /** A slot a newcomer may have: free, or held by an entry that is useless or can do without it. */
  ghost predicate Yields(infos: Infos, news: map<Slot, int>, s: Slot, nRefCount: int, nNow: int) {
    s in news ==>
      && news[s] in infos
      && (!Eligible(infos[news[s]], nNow) || (infos[news[s]].nRefCount > 1 && nRefCount == 0))
  }

  /**
   An entry was offered the slot a source gives it. It got the slot if that yields, at the
   cost of the holder alone; otherwise it is gone if it has no other place.
   */
  ghost predicate Placed(h: Hasher, key: Key, a: State, b: State, nId: int, source: NetAddr, nNow: int)
    requires nId in a.infos
  {
    var was := a.infos[nId];
    var s := SlotFrom(h, key, was.addr, source);
    if Cell(a.news, s) != nId && Yields(a.infos, a.news, s, was.nRefCount, nNow) then
      && b.news == a.news[s := nId] && nId in b.infos
      && b.infos[nId] == was.(nRefCount := was.nRefCount + 1, nRandomPos := b.infos[nId].nRandomPos)
      && Freed(a.infos, b.infos, Cell(a.news, s), {nId})
    else
      && b.news == a.news
      && if was.nRefCount == 0 then nId !in b.infos && Freed(a.infos, b.infos, -1, {nId})
         else Freed(a.infos, b.infos, -1, {})
  }

  lemma PlacedBy(h: Hasher, key: Key, a: State, c: State, b: State, nId: int, source: NetAddr, nNow: int)
    requires a.infos == c.infos && a.news == c.news && nId in c.infos && Placed(h, key, c, b, nId, source, nNow)
    ensures Placed(h, key, a, b, nId, source, nNow)
  {
  }

  /** An address not known before was given an id, and offered the slot its source gives it. */
  ghost predicate Entered(h: Hasher, key: Key, a: State, b: State, addr: Address, source: NetAddr, nTimePenalty: int, nNow: int) {
    var nTime := if addr.nTime > nTimePenalty then addr.nTime - nTimePenalty else 0;
    var info := AddrInfo(addr.service, addr.services, nTime, source, 0, 0, 0, 0, false, |a.vRandom|);
    && b.nIdCount == a.nIdCount + 1
    && Placed(h, key, a.(infos := a.infos[a.nIdCount := info]), b, a.nIdCount, source, nNow)
  }

  /** The news about a known entry may earn it one more place, less likely the more it has. */
  predicate Wanted(info: AddrInfo, addr: Address, nRnd: nat) {
    && addr.nTime != 0 && (info.nTime == 0 || addr.nTime > info.nTime)
    && !info.fInTried && 0 <= info.nRefCount < NEW_BUCKETS_PER_ADDRESS && nRnd % Exp2(info.nRefCount) == 0
  }

  class AddrMan {
    const h: Hasher
    const vvTried: array2<int>
    const vvNew: array2<int>
    var nKey: Key
    var nIdCount: int
    var mapInfo: map<int, AddrInfo>
    var mapAddr: map<NetAddr, int>
    var vRandom: seq<int>
    var nTried: int
    var nNew: int
    ghost var news: map<Slot, int>       // the occupied slots of vvNew
    ghost var tried: map<Slot, int>      // the occupied slots of vvTried

    ghost predicate Arrays()
      reads this, vvNew, vvTried
    {
      && vvNew != vvTried
      && vvNew.Length0 == NEW_BUCKET_COUNT && vvNew.Length1 == BUCKET_SIZE
      && vvTried.Length0 == TRIED_BUCKET_COUNT && vvTried.Length1 == BUCKET_SIZE
      && (forall b, p :: 0 <= b < NEW_BUCKET_COUNT && 0 <= p < BUCKET_SIZE ==> vvNew[b, p] == Cell(news, (b, p)))
      && (forall b, p :: 0 <= b < TRIED_BUCKET_COUNT && 0 <= p < BUCKET_SIZE ==> vvTried[b, p] == Cell(tried, (b, p)))
    }

    ghost function St(): State
      reads this
    {
      State(mapInfo, mapAddr, vRandom, news, tried, nTried, nNew, nIdCount)
    }

    ghost predicate Midway(lag: int, orphans: set<int>)
      reads this, vvNew, vvTried
    {
      Arrays() && nIdCount >= 0 && Consistent(h, nKey, St(), lag, orphans)
    }

    /** The consistency condition that holds between operations. */
    ghost predicate Valid()
      reads this, vvNew, vvTried
    {
      Midway(0, {})
    }

    /** The part of the consistency check that is about times. */
    ghost predicate TimesOk()
      reads this
    {
      forall id :: id in mapInfo ==>
        mapInfo[id].nLastTry >= 0 && mapInfo[id].nLastSuccess >= 0 && (mapInfo[id].fInTried ==> mapInfo[id].nLastSuccess != 0)
    }

    constructor (h: Hasher, key: Key)
      ensures Valid() && TimesOk() && mapInfo == map[] && mapAddr == map[] && news == map[] && tried == map[] && nKey == key && this.h == h && fresh(vvNew) && fresh(vvTried)
    {
      this.h, nKey, nIdCount, mapInfo, mapAddr, vRandom, nTried, nNew := h, key, 0, map[], map[], [], 0, 0;
      vvTried := new int[TRIED_BUCKET_COUNT, BUCKET_SIZE]((_, _) => -1);
      vvNew := new int[NEW_BUCKET_COUNT, BUCKET_SIZE]((_, _) => -1);
      news, tried := map[], map[];
      new;
      assert NewIds(mapInfo) == {} && TriedIds(mapInfo) == {};
    }

    //////////////////////////////////////////////////////////////////////////////
    // Single cells
    //////////////////////////////////////////////////////////////////////////////

    method WriteNew(s: Slot, id: int)
      requires Arrays() && s.0 < NEW_BUCKET_COUNT && s.1 < BUCKET_SIZE
      modifies vvNew, this`news
      ensures Arrays() && news == if id == -1 then old(news) - {s} else old(news)[s := id]
    {
      vvNew[s.0, s.1] := id;
      news := if id == -1 then news - {s} else news[s := id];
    }

    method WriteTried(s: Slot, id: int)
      requires Arrays() && s.0 < TRIED_BUCKET_COUNT && s.1 < BUCKET_SIZE
      modifies vvTried, this`tried
      ensures Arrays() && tried == if id == -1 then old(tried) - {s} else old(tried)[s := id]
    {
      vvTried[s.0, s.1] := id;
      tried := if id == -1 then tried - {s} else tried[s := id];
    }

    //////////////////////////////////////////////////////////////////////////////
    // Internal operations
    //////////////////////////////////////////////////////////////////////////////

    method Find(ip: NetAddr) returns (found: bool, id: int)
      requires Valid()
      ensures found == (ip in mapAddr)
      ensures found ==> id == mapAddr[ip] && id in mapInfo && mapInfo[id].addr.ip == ip
    {
      found := ip in mapAddr;
      id := if found then mapAddr[ip] else -1;
    }

    method SwapRandom(nRndPos1: nat, nRndPos2: nat)
      requires RandomIndex(mapInfo, vRandom) && nRndPos1 < |vRandom| && nRndPos2 < |vRandom|
      modifies this`mapInfo, this`vRandom
      ensures St() == SwappedState(old(St()), nRndPos1, nRndPos2)
    {
      if nRndPos1 == nRndPos2 {
        return;
      }
      var nId1, nId2 := vRandom[nRndPos1], vRandom[nRndPos2];
      assert nId1 in mapInfo && nId2 in mapInfo;
      mapInfo := mapInfo[nId1 := mapInfo[nId1].(nRandomPos := nRndPos2)];
      mapInfo := mapInfo[nId2 := mapInfo[nId2].(nRandomPos := nRndPos1)];
      vRandom := vRandom[nRndPos1 := nId2];
      vRandom := vRandom[nRndPos2 := nId1];
    }

    /** Removes an entry that is in neither table. */
    method Delete(nId: int)
      requires RandomIndex(mapInfo, vRandom)
      requires nId in mapInfo && !mapInfo[nId].fInTried && mapInfo[nId].nRefCount == 0
      modifies this`mapInfo, this`mapAddr, this`vRandom, this`nNew
      ensures St() == Deleted(old(St()), nId)
    {
      var info := mapInfo[nId];
      SwapRandom(info.nRandomPos, |vRandom| - 1);
      vRandom := vRandom[..|vRandom| - 1];
      mapAddr := mapAddr - {info.addr.ip};
      mapInfo := mapInfo - {nId};
      nNew := nNew - 1;
    }

    /** Clears a slot of the new table; this is the only place where entries in it are dropped. */
    method ClearNew(s: Slot, ghost lag: int, ghost orphans: set<int>)
      requires Midway(lag, orphans) && s.0 < NEW_BUCKET_COUNT && s.1 < BUCKET_SIZE
      modifies this`mapInfo, this`mapAddr, this`vRandom, this`nNew, this`news, vvNew
      ensures Midway(lag, orphans) && news == old(news) - {s} && Inherited(old(mapInfo), mapInfo)
      ensures s in old(news) ==> old(news[s]) in old(mapInfo) && old(mapInfo[news[s]].nRefCount) > 0
      ensures Freed(old(mapInfo), mapInfo, old(Cell(news, s)), {})
    {
      hide Consistent;
      IdsNatural(h, nKey, St(), lag, orphans);
      NewClearedEffect(h, nKey, St(), lag, orphans, s);
      NewClearedKeeps(h, nKey, St(), lag, orphans, s);
      if s in news {
        SlotClearedKeeps(h, nKey, St(), lag, orphans, s);
      }
      ClearCell(s);
    }

    method ClearCell(s: Slot)
      requires Arrays() && s.0 < NEW_BUCKET_COUNT && s.1 < BUCKET_SIZE
      requires s in news ==>
        && news[s] in mapInfo && news[s] >= 0 && !mapInfo[news[s]].fInTried && mapInfo[news[s]].nRefCount > 0
        && RandomIndex(SlotCleared(St(), s).infos, vRandom)
      modifies this`mapInfo, this`mapAddr, this`vRandom, this`nNew, this`news, vvNew
      ensures Arrays() && St() == NewCleared(old(St()), s)
    {
      if vvNew[s.0, s.1] != -1 {
        var nIdDelete := vvNew[s.0, s.1];
        mapInfo := mapInfo[nIdDelete := mapInfo[nIdDelete].(nRefCount := mapInfo[nIdDelete].nRefCount - 1)];
        WriteNew(s, -1);
        if mapInfo[nIdDelete].nRefCount == 0 {
          Delete(nIdDelete);
        }
      }
    }

    method AddToSlot(s: Slot, nId: int, ghost lag: int, ghost orphans: set<int>)
      requires Midway(lag, orphans) && s !in news && s.0 < NEW_BUCKET_COUNT
      requires nId in mapInfo && !mapInfo[nId].fInTried && mapInfo[nId].nRefCount < NEW_BUCKETS_PER_ADDRESS
      requires s == NewSlot(h, nKey, s.0, mapInfo[nId].addr)
      modifies this`mapInfo, this`news, vvNew
      ensures Midway(lag, orphans - {nId}) && news == old(news)[s := nId]
      ensures OnlyCount(old(mapInfo), mapInfo, nId) && mapInfo[nId].nRefCount == old(mapInfo[nId].nRefCount) + 1
    {
      hide Consistent;
      IdsNatural(h, nKey, St(), lag, orphans);
      SlotSetKeeps(h, nKey, St(), lag, orphans, s, nId);
      mapInfo := mapInfo[nId := mapInfo[nId].(nRefCount := mapInfo[nId].nRefCount + 1)];
      WriteNew(s, nId);
    }

    method TakeFromSlot(s: Slot, ghost lag: int, ghost orphans: set<int>)
      requires Midway(lag, orphans) && s in news && s.0 < NEW_BUCKET_COUNT && s.1 < BUCKET_SIZE
      modifies this`mapInfo, this`news, vvNew
      ensures Midway(lag, orphans + {old(news)[s]}) && news == old(news) - {s}
      ensures OnlyCount(old(mapInfo), mapInfo, old(news)[s])
    {
      hide Consistent;
      IdsNatural(h, nKey, St(), lag, orphans);
      SlotClearedKeeps(h, nKey, St(), lag, orphans, s);
      var nId := vvNew[s.0, s.1];
      mapInfo := mapInfo[nId := mapInfo[nId].(nRefCount := mapInfo[nId].nRefCount - 1)];
      WriteNew(s, -1);
    }

    method EnterTriedSlot(nId: int, ghost lag: int, ghost orphans: set<int>)
      requires Midway(lag, orphans)
      requires nId in mapInfo && !mapInfo[nId].fInTried && mapInfo[nId].nRefCount == 0
      requires TriedSlot(h, nKey, mapInfo[nId].addr) !in tried
      modifies this`mapInfo, this`tried, this`nTried, vvTried
      ensures Midway(lag - 1, orphans - {nId}) && tried == old(tried)[TriedSlot(h, nKey, old(mapInfo[nId].addr)) := nId]
      ensures OnlyAt(old(mapInfo), mapInfo, nId) && mapInfo[nId] == old(mapInfo[nId]).(fInTried := true)
    {
      hide Consistent;
      IdsNatural(h, nKey, St(), lag, orphans);
      TriedEnteredKeeps(h, nKey, St(), lag, orphans, nId);
      WriteTried(TriedSlot(h, nKey, mapInfo[nId].addr), nId);
      nTried := nTried + 1;
      mapInfo := mapInfo[nId := mapInfo[nId].(fInTried := true)];
    }

    method LeaveTriedSlot(s: Slot, ghost lag: int, ghost orphans: set<int>)
      requires Midway(lag, orphans) && s in tried && s.0 < TRIED_BUCKET_COUNT && s.1 < BUCKET_SIZE
      modifies this`mapInfo, this`tried, this`nTried, vvTried
      ensures Midway(lag + 1, orphans + {old(tried)[s]}) && tried == old(tried) - {s}
      ensures OnlyAt(old(mapInfo), mapInfo, old(tried)[s])
      ensures var was := old(mapInfo)[old(tried)[s]];
        was.fInTried && was.nRefCount == 0 && mapInfo[old(tried)[s]] == was.(fInTried := false)
    {
      hide Consistent;
      IdsNatural(h, nKey, St(), lag, orphans);
      TriedLeftKeeps(h, nKey, St(), lag, orphans, s);
      var nIdEvict := vvTried[s.0, s.1];
      mapInfo := mapInfo[nIdEvict := mapInfo[nIdEvict].(fInTried := false)];
      WriteTried(s, -1);
      nTried := nTried - 1;
    }

    /** Takes an entry out of the one slot of a bucket it can be in. */
    method LeaveBucket(nId: int, bucket: nat)
      requires Midway(0, {nId}) && nId in mapInfo && bucket < NEW_BUCKET_COUNT
      modifies this`mapInfo, this`news, vvNew
      ensures Midway(0, {nId}) && OnlyCount(old(mapInfo), mapInfo, nId)
      ensures forall s :: s in news ==> s in old(news) && news[s] == old(news)[s]
      ensures forall s :: s in old(news) && old(news)[s] != nId ==> s in news
      ensures forall s: Slot :: s in news && news[s] == nId ==> s.0 != bucket
    {
      var pos := Position(h, nKey, true, bucket, mapInfo[nId].addr);
      OnlySlot(h, nKey, mapInfo, news, nId, bucket);
      if vvNew[bucket, pos] == nId {
        assert nId >= 0;
        TakeFromSlot((bucket, pos), 0, {nId});
        OtherOrphans(h, nKey, St(), 0, {nId} + {nId}, {nId});
      }
    }

    /** Takes an entry out of every slot of the new table. */
    method LeaveNew(nId: int)
      requires Valid() && nId in mapInfo && !mapInfo[nId].fInTried
      modifies this`mapInfo, this`news, vvNew
      ensures Midway(0, {nId}) && OnlyCount(old(mapInfo), mapInfo, nId) && mapInfo[nId].nRefCount == 0
      ensures news == Without(old(news), nId)
    {
      hide Consistent, Arrays;
      OtherOrphans(h, nKey, St(), 0, {}, {nId});
      for bucket := 0 to NEW_BUCKET_COUNT
        invariant Midway(0, {nId}) && OnlyCount(old(mapInfo), mapInfo, nId)
        invariant forall s :: s in news ==> s in old(news) && news[s] == old(news)[s]
        invariant forall s :: s in old(news) && old(news)[s] != nId ==> s in news
        invariant forall s: Slot :: s in news && news[s] == nId ==> s.0 >= bucket
      {
        LeaveBucket(nId, bucket);
      }
      CountedZero(h, nKey, St(), 0, {nId}, nId);
    }

    method BumpNew(delta: int, ghost lag: int, ghost orphans: set<int>)
      requires Midway(lag, orphans)
      modifies this`nNew
      ensures Midway(lag - delta, orphans) && nNew == old(nNew) + delta
    {
      nNew := nNew + delta;
    }

    /** Puts an evicted entry into the slot of the new table its own source gives it. */
    method BackToNew(nIdEvict: int, nId: int)
      requires Midway(2, {nId} + {nIdEvict}) && nId != nIdEvict && nId in mapInfo && mapInfo[nId].nRefCount == 0
      requires nIdEvict in mapInfo && !mapInfo[nIdEvict].fInTried && mapInfo[nIdEvict].nRefCount == 0
      modifies this`mapInfo, this`mapAddr, this`vRandom, this`nNew, this`news, vvNew
      ensures Midway(1, {nId}) && Stays(old(mapInfo), mapInfo, nId) && Inherited(old(mapInfo), mapInfo)
      ensures nIdEvict in mapInfo
      ensures mapInfo[nIdEvict] == old(mapInfo[nIdEvict]).(nRefCount := 1, nRandomPos := mapInfo[nIdEvict].nRandomPos)
      ensures var s := SlotFrom(h, nKey, old(mapInfo[nIdEvict].addr), old(mapInfo[nIdEvict].source));
        && news == old(news)[s := nIdEvict]
        && Freed(old(mapInfo), mapInfo, old(Cell(news, s)), {nIdEvict})
    {
      hide Consistent, Arrays;
      var infoOld := mapInfo[nIdEvict];
      var s := SlotFrom(h, nKey, infoOld.addr, infoOld.source);
      IdsNatural(h, nKey, St(), 2, {nId} + {nIdEvict});
      ClearNew(s, 2, {nId} + {nIdEvict});
      FreedAt(old(mapInfo), mapInfo, old(Cell(news, s)), {}, nIdEvict);
      FreedAt(old(mapInfo), mapInfo, old(Cell(news, s)), {}, nId);
      AddToSlot(s, nIdEvict, 2, {nId} + {nIdEvict});
      assert {nId} + {nIdEvict} - {nIdEvict} == {nId};
      BumpNew(1, 2, {nId});
    }

    /** Moves the entry in a tried slot back to the new table, to make room for nId. */
    method Evict(t: Slot, nId: int)
      requires Midway(1, {nId}) && t in tried && t.0 < TRIED_BUCKET_COUNT && t.1 < BUCKET_SIZE
      requires nId in mapInfo && !mapInfo[nId].fInTried && mapInfo[nId].nRefCount == 0
      modifies this`mapInfo, this`mapAddr, this`vRandom, this`nNew, this`news, this`tried, this`nTried, vvNew, vvTried
      ensures Midway(1, {nId}) && Inherited(old(mapInfo), mapInfo)
      ensures Evicted(h, nKey, old(St()), St(), t, nId)
    {
      hide Consistent;
      IdsNatural(h, nKey, St(), 1, {nId});
      var nIdEvict := vvTried[t.0, t.1];
      LeaveTriedSlot(t, 1, {nId});
      BackToNew(nIdEvict, nId);
    }

    /** Moves an entry from the new table to the tried table. */
    method MakeTried(nId: int)
      requires Valid() && nId in mapInfo && !mapInfo[nId].fInTried
      modifies this`mapInfo, this`mapAddr, this`vRandom, this`nNew, this`news, this`tried, this`nTried, vvNew, vvTried
      ensures Valid() && nId in mapInfo && mapInfo[nId].fInTried && Inherited(old(mapInfo)[nId := mapInfo[nId]], mapInfo)
      ensures BecameTried(h, nKey, old(St()), St(), nId)
    {
      hide Consistent, BecameTried, Freed, Without, NewBucket, TriedBucket, Position;
      LeaveNew(nId);
      BumpNew(-1, 0, {nId});
      ghost var left := St();
      var t := TriedSlot(h, nKey, mapInfo[nId].addr);
      IdsNatural(h, nKey, St(), 1, {nId});
      if vvTried[t.0, t.1] != -1 {
        Evict(t, nId);
      }
      ghost var room := St();
      EnterTriedSlot(nId, 1, {nId});
      assert {nId} - {nId} == {};
      TriedInSteps(h, nKey, old(St()), left, room, St(), nId);
    }

    //////////////////////////////////////////////////////////////////////////////
    // Public operations
    //////////////////////////////////////////////////////////////////////////////

    /** Rewrites the statistics of an entry. */
    method Touch(nId: int, info: AddrInfo)
      requires Valid() && nId in mapInfo
      requires info == mapInfo[nId].(nTime := info.nTime, services := info.services, nLastSuccess := info.nLastSuccess,
                                     nLastTry := info.nLastTry, nAttempts := info.nAttempts)
      modifies this`mapInfo
      ensures Valid() && mapInfo == old(mapInfo)[nId := info]
    {
      hide Consistent;
      Touched(h, nKey, St(), 0, {}, nId, info);
      mapInfo := mapInfo[nId := info];
    }

    /** A bucket of the new table an entry is in, searching from a random one. */
    method FindBucket(nId: int, nRnd: nat) returns (nUBucket: int)
      requires Valid() && nId in mapInfo && !mapInfo[nId].fInTried
      ensures 0 <= nUBucket < NEW_BUCKET_COUNT && Cell(news, NewSlot(h, nKey, nUBucket, mapInfo[nId].addr)) == nId
    {
      nUBucket := -1;
      ghost var s := SomeSlot(h, nKey, mapInfo, news, nId);
      var n := 0;
      while n < NEW_BUCKET_COUNT
        invariant 0 <= n <= NEW_BUCKET_COUNT
        invariant forall m :: 0 <= m < n ==> Rotated(m, nRnd) != s.0
      {
        var nB := Rotated(n, nRnd);
        var nBpos := Position(h, nKey, true, nB, mapInfo[nId].addr);
        if vvNew[nB, nBpos] == nId {
          return nB;
        }
        assert nB != s.0;
        n := n + 1;
      }
      Reached(s.0, nRnd);
      assert false;
    }

    /** Marks a service as reachable: if it is known, it ends up in the tried table. */
    method Good_(addr: Service, nTime: int, nRnd: nat)
      requires Valid()
      modifies this`mapInfo, this`mapAddr, this`vRandom, this`nNew, this`news, this`tried, this`nTried, vvNew, vvTried
      ensures Valid() && (old(TimesOk()) && nTime > 0 ==> TimesOk())
      ensures SameSources(old(mapInfo), mapInfo)
      ensures if addr.ip in old(mapAddr) && old(mapInfo[mapAddr[addr.ip]].addr) == addr then
                && var id := old(mapAddr)[addr.ip];
                   && id in mapInfo && mapInfo[id].addr == addr && mapInfo[id].fInTried
                   && var met := old(mapInfo)[id].(nLastSuccess := nTime, nLastTry := nTime, nAttempts := 0);
                   && var infos := old(mapInfo)[id := met];
                   && if met.fInTried then St() == old(St()).(infos := infos)
                      else BecameTried(h, nKey, old(St()).(infos := infos), St(), id)
              else St() == old(St())
    {
      hide Consistent;
      var found, nId := Find(addr.ip);
      if !found || mapInfo[nId].addr != addr {
        return;
      }
      Touch(nId, mapInfo[nId].(nLastSuccess := nTime, nLastTry := nTime, nAttempts := 0));
      if mapInfo[nId].fInTried {
        return;
      }
      var nUBucket := FindBucket(nId, nRnd);
      MakeTried(nId);
    }

    method Create(addr: Address, addrSource: NetAddr) returns (nId: int)
      requires Valid() && addr.service.ip !in mapAddr
      modifies this`mapInfo, this`mapAddr, this`vRandom, this`nIdCount
      ensures Midway(1, {nId}) && nId !in old(mapInfo) && nId == old(nIdCount) == nIdCount - 1
      ensures mapInfo == old(mapInfo)[nId := AddrInfo(addr.service, addr.services, addr.nTime, addrSource, 0, 0, 0, 0, false, |old(vRandom)|)]
    {
      hide Consistent;
      var info := AddrInfo(addr.service, addr.services, addr.nTime, addrSource, 0, 0, 0, 0, false, -1);
      IdsNatural(h, nKey, St(), 0, {});
      CreatedKeeps(h, nKey, St(), 0, {}, info);
      nId := nIdCount;
      assert {} + {nId} == {nId};
      nIdCount := nIdCount + 1;
      mapInfo := mapInfo[nId := info.(nRandomPos := |vRandom|)];
      mapAddr := mapAddr[addr.service.ip := nId];
      vRandom := vRandom + [nId];
    }

    /** Changes the last-seen time of an entry that has just been created. */
    method SetTime(nId: int, nTime: int, ghost lag: int, ghost orphans: set<int>)
      requires Midway(lag, orphans) && nId in mapInfo
      modifies this`mapInfo
      ensures Midway(lag, orphans) && mapInfo == old(mapInfo)[nId := old(mapInfo[nId]).(nTime := nTime)]
    {
      hide Consistent;
      Touched(h, nKey, St(), lag, orphans, nId, mapInfo[nId].(nTime := nTime));
      mapInfo := mapInfo[nId := mapInfo[nId].(nTime := nTime)];
    }

    method MayTake(s: Slot, nId: int, nNow: int, ghost orphans: set<int>) returns (fInsert: bool)
      requires Midway(0, orphans) && nId in mapInfo && s.0 < NEW_BUCKET_COUNT && s.1 < BUCKET_SIZE
      ensures fInsert == Yields(mapInfo, news, s, mapInfo[nId].nRefCount, nNow)
    {
      IdsNatural(h, nKey, St(), 0, orphans);
      fInsert := vvNew[s.0, s.1] == -1;
      if !fInsert {
        assert NewSlotOk(h, nKey, mapInfo, s, news[s]);
        var infoExisting := mapInfo[vvNew[s.0, s.1]];
        TerribleExact(infoExisting, nNow);
        fInsert := IsTerrible(infoExisting, nNow) || (infoExisting.nRefCount > 1 && mapInfo[nId].nRefCount == 0);
      }
    }

    /** Puts an entry into the slot that a source gives it, or drops it if there is no place anywhere. */
    method Place(nId: int, source: NetAddr, nNow: int, ghost isNew: bool)
      requires Midway(0, if isNew then {nId} else {})
      requires nId in mapInfo && !mapInfo[nId].fInTried && mapInfo[nId].nRefCount < NEW_BUCKETS_PER_ADDRESS
      requires isNew <==> mapInfo[nId].nRefCount == 0
      modifies this`mapInfo, this`mapAddr, this`vRandom, this`nNew, this`news, vvNew
      ensures Placed(h, nKey, old(St()), St(), nId, source, nNow)
      ensures Valid() && Inherited(old(mapInfo), mapInfo)
    {
      hide Consistent, Yields, NewBucket, Position;
      ghost var orphans := if isNew then {nId} else {};
      var s := SlotFrom(h, nKey, mapInfo[nId].addr, source);
      IdsNatural(h, nKey, St(), 0, orphans);
      if vvNew[s.0, s.1] != nId {
        var fInsert := MayTake(s, nId, nNow, orphans);
        if fInsert {
          ClearNew(s, 0, orphans);
          AddToSlot(s, nId, 0, orphans);
          assert orphans - {nId} == {};
        } else if mapInfo[nId].nRefCount == 0 {
          RandomOf(h, nKey, St(), 0, orphans);
          DeletedKeeps(h, nKey, St(), 0, orphans, nId);
          assert orphans - {nId} == {};
          forall o | o in mapInfo && o != nId ensures Stays(mapInfo, Deleted(St(), nId).infos, o) {
            DeletedOthers(St(), nId, o);
          }
          Delete(nId);
        }
      } else if isNew {
        NotInSlots(h, nKey, St(), 0, orphans, nId);
      }
    }

    /** Adds an address told by a source; true if it was not known before. */
    method Add_(addr: Address, source: NetAddr, nTimePenalty: int, isRoutable: bool, nNow: int, nRnd: nat) returns (fNew: bool)
      requires Valid()
      modifies this`mapInfo, this`mapAddr, this`vRandom, this`nNew, this`nIdCount, this`news, vvNew
      ensures Valid() && (old(TimesOk()) ==> TimesOk()) && Inherited(old(mapInfo), mapInfo - {old(nIdCount)})
      ensures fNew == (isRoutable && addr.service.ip !in old(mapAddr)) && nIdCount == old(nIdCount) + if fNew then 1 else 0
      ensures if !isRoutable then St() == old(St())
              else if fNew then Entered(h, nKey, old(St()), St(), addr, source, nTimePenalty, nNow)
              else
                && var nId := old(mapAddr)[addr.service.ip];
                && var was := old(mapInfo)[nId];
                && var nTime := if !IsNews(was.nTime, addr.nTime, nTimePenalty, nNow) then was.nTime
                                else if addr.nTime > nTimePenalty then addr.nTime - nTimePenalty else 0;
                && var info := was.(nTime := nTime, services := was.services + addr.services);
                && var told := old(St()).(infos := old(mapInfo)[nId := info]);
                && if Wanted(info, addr, nRnd) then Placed(h, nKey, told, St(), nId, source, nNow)
                   else St() == told
    {
      hide Consistent;
      if !isRoutable {
        return false;
      }
      var found, nId := Find(addr.service.ip);
      if found {
        var proceed := Refresh(nId, addr, nTimePenalty, nNow, nRnd);
        if proceed {
          Place(nId, source, nNow, false);
        }
        return false;
      }
      AddNew(addr, source, nTimePenalty, nNow);
      fNew := true;
    }

    method AddNew(addr: Address, source: NetAddr, nTimePenalty: int, nNow: int)
      requires Valid() && addr.service.ip !in mapAddr
      modifies this`mapInfo, this`mapAddr, this`vRandom, this`nNew, this`nIdCount, this`news, vvNew
      ensures Valid() && Entered(h, nKey, old(St()), St(), addr, source, nTimePenalty, nNow)
      ensures Inherited(old(mapInfo), mapInfo - {old(nIdCount)}) && (old(TimesOk()) ==> TimesOk())
    {
      hide Consistent, Arrays, Placed;
      var nId := Create(addr, source);
      SetTime(nId, Max(0, mapInfo[nId].nTime - nTimePenalty), 1, {nId});
      BumpNew(1, 1, {nId});
      ghost var created := St();
      assert created.infos == old(mapInfo)[nId := AddrInfo(addr.service, addr.services, Max(0, addr.nTime - nTimePenalty), source, 0, 0, 0, 0, false, |old(vRandom)|)];
      Place(nId, source, nNow, true);
      PlacedBy(h, nKey, old(St()).(infos := created.infos), created, St(), nId, source, nNow);
    }

    /** Updates a known entry; true if it may be given one more place in the new table. */
    method Refresh(nId: int, addr: Address, nTimePenalty: int, nNow: int, nRnd: nat) returns (proceed: bool)
      requires Valid() && nId in mapInfo
      modifies this`mapInfo
      ensures Valid() && mapInfo == old(mapInfo)[nId := old(mapInfo[nId]).(
                nTime := mapInfo[nId].nTime, services := old(mapInfo[nId]).services + addr.services)]
      ensures mapInfo[nId].nTime == if IsNews(old(mapInfo[nId]).nTime, addr.nTime, nTimePenalty, nNow)
                then if addr.nTime > nTimePenalty then addr.nTime - nTimePenalty else 0
                else old(mapInfo[nId]).nTime
      ensures !mapInfo[nId].fInTried ==> 1 <= mapInfo[nId].nRefCount <= NEW_BUCKETS_PER_ADDRESS
      ensures proceed <==> Wanted(mapInfo[nId], addr, nRnd)
    {
      hide Consistent;
      CountRange(h, nKey, St(), 0, {}, nId);
      var info := mapInfo[nId];
      info := info.(nTime := RefreshedTime(info.nTime, addr.nTime, nTimePenalty, nNow));
      info := info.(services := info.services + addr.services);
      Touch(nId, info);
      if addr.nTime == 0 || (info.nTime != 0 && addr.nTime <= info.nTime) || info.fInTried
         || info.nRefCount == NEW_BUCKETS_PER_ADDRESS {
        return false;
      }
      var nFactor := 1;
      for n := 0 to info.nRefCount
        invariant nFactor == Exp2(n)
      {
        nFactor := nFactor * 2;
      }
      proceed := !(nFactor > 1 && nRnd % nFactor != 0);
    }

    method Attempt_(addr: Service, nTime: int)
      requires Valid()
      modifies this`mapInfo
      ensures Valid() && (old(TimesOk()) && nTime >= 0 ==> TimesOk()) && SameSources(old(mapInfo), mapInfo)
      ensures if addr.ip in mapAddr && old(mapInfo)[mapAddr[addr.ip]].addr == addr then
                var was := old(mapInfo)[mapAddr[addr.ip]];
                mapInfo == old(mapInfo)[mapAddr[addr.ip] := was.(nLastTry := nTime, nAttempts := was.nAttempts + 1)]
              else mapInfo == old(mapInfo)
    {
      hide Consistent;
      var found, nId := Find(addr.ip);
      if !found || mapInfo[nId].addr != addr {
        return;
      }
      Touch(nId, mapInfo[nId].(nLastTry := nTime, nAttempts := mapInfo[nId].nAttempts + 1));
    }

    method Connected_(addr: Service, nTime: int)
      requires Valid()
      modifies this`mapInfo
      ensures Valid() && (old(TimesOk()) ==> TimesOk()) && SameSources(old(mapInfo), mapInfo)
      ensures if addr.ip in mapAddr && old(mapInfo)[mapAddr[addr.ip]].addr == addr && nTime - old(mapInfo)[mapAddr[addr.ip]].nTime > 20 * 60 then
                mapInfo == old(mapInfo)[mapAddr[addr.ip] := old(mapInfo)[mapAddr[addr.ip]].(nTime := nTime)]
              else mapInfo == old(mapInfo)
    {
      hide Consistent;
      var found, nId := Find(addr.ip);
      if !found || mapInfo[nId].addr != addr {
        return;
      }
      var nUpdateInterval := 20 * 60;
      if nTime - mapInfo[nId].nTime > nUpdateInterval {
        Touch(nId, mapInfo[nId].(nTime := nTime));
      }
    }

    /** One step of drawing addresses: brings a random one of those not yet drawn to place n. */
    method Draw(n: nat, nRnd: nat)
      requires Valid() && n < |vRandom|
      modifies this`mapInfo, this`vRandom
      ensures Valid() && |vRandom| == |old(vRandom)| && vRandom[..n] == old(vRandom)[..n]
      ensures var k := nRnd % (|vRandom| - n) + n; vRandom == old(vRandom)[n := old(vRandom)[k]][k := old(vRandom)[n]]
      ensures mapInfo.Keys == old(mapInfo.Keys) && forall o :: o in mapInfo ==> Stays(old(mapInfo), mapInfo, o)
      ensures forall i :: 0 <= i < |vRandom| ==> vRandom[i] in mapInfo && mapInfo[vRandom[i]].nRandomPos == i
    {
      hide Consistent, SwappedState;
      var nRndPos := nRnd % (|vRandom| - n) + n;
      RandomOf(h, nKey, St(), 0, {});
      SwappedDraw(St(), n, nRndPos);
      SwappedKeeps(h, nKey, St(), 0, {}, n, nRndPos);
      SwapRandom(n, nRndPos);
      RandomOf(h, nKey, St(), 0, {});
    }

    /** Addresses to give away: distinct, none of low quality, and all there are if fewer than asked for. */
    method GetAddr_(rnd: seq<nat>, nNow: int) returns (vAddr: seq<Address>, ghost ids: seq<int>)
      requires Valid() && |rnd| >= |vRandom|
      modifies this`mapInfo, this`vRandom
      ensures Valid() && mapInfo.Keys == old(mapInfo.Keys) && forall o :: o in mapInfo ==> Stays(old(mapInfo), mapInfo, o)
      ensures |ids| == |vAddr| <= 2500 && 100 * |vAddr| <= 23 * |old(vRandom)|
      ensures forall i, j :: 0 <= i < j < |ids| ==> ids[i] != ids[j]
      ensures forall i :: 0 <= i < |ids| ==> ids[i] in old(mapInfo) && Eligible(old(mapInfo)[ids[i]], nNow)
      ensures forall i :: 0 <= i < |ids| ==>
                (var info := old(mapInfo)[ids[i]]; vAddr[i] == Address(info.addr, info.services, info.nTime))
      ensures |vAddr| < 2500 && 100 * (|vAddr| + 1) <= 23 * |old(vRandom)| ==>
                forall o :: o in old(mapInfo) && Eligible(old(mapInfo)[o], nNow) ==> o in ids
    {
      hide Consistent, Arrays, RandomIndex, IsTerrible, Eligible, Told, Keep;
      KeepNone(mapInfo, nNow);
      var nNodes := Min(ADDRMAN_GETADDR_MAX, ADDRMAN_GETADDR_MAX_PCT * |vRandom| / 100);
      vAddr, ids := [], [];
      var n := 0;
      RandomOf(h, nKey, St(), 0, {});
      while n < |vRandom| && |vAddr| < nNodes
        invariant Valid() && n <= |vRandom| == |old(vRandom)| && mapInfo.Keys == old(mapInfo.Keys)
        invariant forall o :: o in mapInfo ==> Stays(old(mapInfo), mapInfo, o)
        invariant forall i :: 0 <= i < |vRandom| ==> vRandom[i] in old(mapInfo)
        invariant |vAddr| <= nNodes && ids == Keep(old(mapInfo), vRandom[..n], nNow)
        invariant |ids| == |vAddr| && forall i :: 0 <= i < |ids| ==> ids[i] in old(mapInfo) && vAddr[i] == Told(old(mapInfo)[ids[i]])
      {
        Draw(n, rnd[n]);
        KeepNext(old(mapInfo), vRandom, n, nNow);
        var ai := mapInfo[vRandom[n]];
        SameQuality(old(mapInfo), mapInfo, vRandom[n], nNow);
        TerribleExact(ai, nNow);
        if !IsTerrible(ai, nNow) {
          vAddr, ids := vAddr + [Told(ai)], ids + [vRandom[n]];
        }
        n := n + 1;
      }
      RandomOf(h, nKey, St(), 0, {});
      Drawn(mapInfo, vRandom);
      KeepExact(old(mapInfo), vRandom[..n], nNow);
      ToldAll(old(mapInfo), ids, vAddr);
      assert n == |vRandom| ==> vRandom[..n] == vRandom;
    }
  }

  lemma SameQuality(a: Infos, b: Infos, o: int, nNow: int)
    requires Stays(a, b, o)
    ensures Eligible(a[o], nNow) == Eligible(b[o], nNow) && Told(a[o]) == Told(b[o])
  {
  }

  /** The ids of s with entries of sufficient quality. */
  ghost function Keep(infos: Infos, s: seq<int>, nNow: int): seq<int>
    requires forall i :: 0 <= i < |s| ==> s[i] in infos
  {
    if s == [] then []
    else Keep(infos, s[..|s| - 1], nNow) + if Eligible(infos[s[|s| - 1]], nNow) then [s[|s| - 1]] else []
  }

  lemma KeepNone(infos: Infos, nNow: int)
    ensures Keep(infos, [], nNow) == []
  {
  }

  lemma KeepNext(infos: Infos, s: seq<int>, n: nat, nNow: int)
    requires n < |s| && forall i :: 0 <= i < |s| ==> s[i] in infos
    ensures Keep(infos, s[..n + 1], nNow) == Keep(infos, s[..n], nNow) + if Eligible(infos[s[n]], nNow) then [s[n]] else []
  {
    assert s[..n + 1][..n] == s[..n];
  }

  lemma {:induction false} KeepExact(infos: Infos, s: seq<int>, nNow: int)
    requires forall i :: 0 <= i < |s| ==> s[i] in infos
    requires forall i, j :: 0 <= i < j < |s| ==> s[i] != s[j]
    ensures var k := Keep(infos, s, nNow);
      && (forall i :: 0 <= i < |k| ==> k[i] in s)
      && (forall i :: 0 <= i < |k| ==> k[i] in infos && Eligible(infos[k[i]], nNow))
      && (forall i, j :: 0 <= i < j < |k| ==> k[i] != k[j])
      && (forall i :: 0 <= i < |s| && Eligible(infos[s[i]], nNow) ==> s[i] in k)
  {
    hide Eligible;
    if s != [] {
      var p := s[..|s| - 1];
      KeepExact(infos, p, nNow);
      var kp, k := Keep(infos, p, nNow), Keep(infos, s, nNow);
      forall i | 0 <= i < |s| && Eligible(infos[s[i]], nNow) ensures s[i] in k {
        assert i < |p| ==> s[i] == p[i] && p[i] in kp;
      }
      forall i | 0 <= i < |kp| ensures k[i] in s && k[i] != s[|s| - 1] {
        assert kp[i] in infos && kp[i] in p;
        var m :| 0 <= m < |p| && p[m] == kp[i];
        assert s[m] == kp[i];
      }
    }
  }

  /** The random order has no id twice, and has every id. */
  lemma Drawn(infos: Infos, vRandom: seq<int>)
    requires RandomIndex(infos, vRandom)
    ensures forall i, j :: 0 <= i < j < |vRandom| ==> vRandom[i] != vRandom[j]
    ensures forall o :: o in infos ==> o in vRandom
  {
    forall i, j | 0 <= i < j < |vRandom| ensures vRandom[i] != vRandom[j] {
      assert infos[vRandom[i]].nRandomPos == i && infos[vRandom[j]].nRandomPos == j;
    }
  }

  /** What is told to others about an entry. */
  function Told(info: AddrInfo): Address { Address(info.addr, info.services, info.nTime) }

  lemma ToldAll(infos: Infos, ids: seq<int>, vAddr: seq<Address>)
    requires |ids| == |vAddr| && forall i :: 0 <= i < |ids| ==> ids[i] in infos && vAddr[i] == Told(infos[ids[i]])
    ensures forall i :: 0 <= i < |ids| ==>
              (var info := infos[ids[i]]; vAddr[i] == Address(info.addr, info.services, info.nTime))
  {
  }
}
