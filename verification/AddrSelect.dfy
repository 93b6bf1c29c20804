/** Choosing an address to connect to; the floating-point numbers of the original are taken as exact. */
module AddrSelect {
  import opened AddrTables
  import opened Wrappers
  import M = AddrMan

  //////////////////////////////////////////////////////////////////////////////
  // Real numbers
  //////////////////////////////////////////////////////////////////////////////

  function Power(b: real, n: int): (r: real)
    requires b > 0.0
    ensures r > 0.0
    decreases if n >= 0 then n else -n
  {
    if n == 0 then 1.0
    else if n > 0 then
      Positive(b, Power(b, n - 1));
      b * Power(b, n - 1)
    else Power(b, n + 1) / b
  }

  lemma Positive(a: real, b: real)
    requires a > 0.0 && b > 0.0
    ensures a * b > 0.0
  {
  }

  lemma ScaleLess(a: real, b: real, c: real)
    requires a <= b && c >= 0.0
    ensures a * c <= b * c
  {
  }

  lemma ProductLess(a: real, b: real, c: real, d: real)
    requires 0.0 <= a <= b && 0.0 <= c <= d
    ensures 0.0 <= a * c <= b * d
  {
    ScaleLess(a, b, c);
    ScaleLess(c, d, b);
  }

  lemma QuotientLess(a: real, x: real, y: real)
    requires a >= 0.0 && 0.0 < x <= y
    ensures a / y <= a / x
  {
    assert a / y * y == a && a / x * x == a;
    if a / y > a / x {
      ScaleLess(x, y, a / y);
      Strict(a / x, a / y, x);
      assert false;
    }
  }

  lemma Strict(a: real, b: real, c: real)
    requires a < b && c > 0.0
    ensures a * c < b * c
  {
  }

  /** Up to eight failed attempts lower the chance, further ones do not. */
  lemma {:induction false} Falling(n: int, m: int)
    requires n <= m
    ensures Power(0.66, m) <= Power(0.66, n)
    decreases m - n
  {
    if n < m {
      Falling(n, m - 1);
      if m <= 0 {
        assert Power(0.66, m - 1) == Power(0.66, m) / 0.66;
      }
    }
  }

  lemma {:induction false} Growing(n: nat)
    ensures Power(1.2, n) >= 1.0 + 0.2 * n as real
  {
    if n > 0 {
      Growing(n - 1);
    }
  }

  //////////////////////////////////////////////////////////////////////////////
  // The chance of an entry
  //////////////////////////////////////////////////////////////////////////////

  function Since(t: int, nNow: int): nat { if nNow - t < 0 then 0 else nNow - t }

  function Chance(info: AddrInfo, nNow: int): (r: real)
  {
    36000.0 / (36000.0 + Since(info.nTime, nNow) as real)
    * (if Since(info.nTime, nNow) > 864000 then 0.03 else 1.0)
    * (if Since(info.nLastTry, nNow) < 600 then 0.01 else 1.0)
    * Power(0.66, if info.nAttempts < 8 then info.nAttempts else 8)
  }

  method GetChance(info: AddrInfo, nNow: int) returns (fChance: real)
    ensures fChance == Chance(info, nNow)
  {
    fChance := 1.0;
    var nSinceLastSeen, nSinceLastTry := nNow - info.nTime, nNow - info.nLastTry;
    if nSinceLastSeen < 0 {
      nSinceLastSeen := 0;
    }
    if nSinceLastTry < 0 {
      nSinceLastTry := 0;
    }
    fChance := fChance * (36000.0 / (36000.0 + nSinceLastSeen as real));
    if nSinceLastSeen > 864000 {
      fChance := fChance * 0.03;
    }
    if nSinceLastTry < 60 * 10 {
      fChance := fChance * 0.01;
    }
    fChance := fChance * Power(0.66, if info.nAttempts < 8 then info.nAttempts else 8);
  }

  /** The least chance of an entry seen no longer ago than that. */
  function Least(age: nat): (r: real)
    ensures r > 0.0
  {
    Positive(36000.0 / (36000.0 + age as real), 0.0003);
    Positive(36000.0 / (36000.0 + age as real) * 0.0003, Power(0.66, 8));
    36000.0 / (36000.0 + age as real) * 0.0003 * Power(0.66, 8)
  }

  /** No chance is zero: it is at least that of an entry as old, long unseen, just tried and failed eight times or more. */
  lemma ChanceLeast(info: AddrInfo, nNow: int, age: nat)
    requires nNow - info.nTime <= age
    ensures Chance(info, nNow) >= Least(age)
  {
    hide Power;
    var seen := Since(info.nTime, nNow);
    var a, b := 36000.0 / (36000.0 + seen as real), 36000.0 / (36000.0 + age as real);
    QuotientLess(36000.0, 36000.0 + seen as real, 36000.0 + age as real);
    var p := if seen > 864000 then 0.03 else 1.0;
    var q := if Since(info.nLastTry, nNow) < 600 then 0.01 else 1.0;
    var n := if info.nAttempts < 8 then info.nAttempts else 8;
    Falling(n, 8);
    ProductLess(b, a, 0.03, p);
    ProductLess(b * 0.03, a * p, 0.01, q);
    assert b * 0.03 * 0.01 == b * 0.0003;
    ProductLess(b * 0.0003, a * p * q, Power(0.66, 8), Power(0.66, n));
  }

  /** With a count of attempts the chance is at most one. */
  lemma ChanceMost(info: AddrInfo, nNow: int)
    requires info.nAttempts >= 0
    ensures 0.0 < Chance(info, nNow) <= 1.0
  {
    hide Power;
    var seen := Since(info.nTime, nNow);
    ChanceLeast(info, nNow, seen);
    var a := 36000.0 / (36000.0 + seen as real);
    QuotientLess(36000.0, 36000.0, 36000.0 + seen as real);
    var p := if seen > 864000 then 0.03 else 1.0;
    var q := if Since(info.nLastTry, nNow) < 600 then 0.01 else 1.0;
    var n := if info.nAttempts < 8 then info.nAttempts else 8;
    Falling(0, n);
    assert Power(0.66, 0) == 1.0 by { PowerZero(); }
    ProductLess(a, 1.0, p, 1.0);
    ProductLess(a * p, 1.0, q, 1.0);
    ProductLess(a * p * q, 1.0, Power(0.66, n), 1.0);
  }

  lemma PowerZero()
    ensures Power(0.66, 0) == 1.0
  {
  }

  //////////////////////////////////////////////////////////////////////////////
  // Looking for an occupied slot
  //////////////////////////////////////////////////////////////////////////////

  const MAX_RETRIES := 200000

  function Buckets(tried: bool): (n: nat)
    ensures n > 0
  {
    if tried then TRIED_BUCKET_COUNT else NEW_BUCKET_COUNT
  }

  /** The k-th slot that is looked at, with the random numbers from at on. */
  function Probe(rnd: nat -> nat, at: nat, tried: bool, k: nat): Slot {
    if k == 0 then (rnd(at) % Buckets(tried), rnd(at + 1) % BUCKET_SIZE)
    else
      var s := Probe(rnd, at, tried, k - 1);
      ((s.0 + rnd(at + 2 * k)) % Buckets(tried), (s.1 + rnd(at + 2 * k + 1)) % BUCKET_SIZE)
  }

  ghost function Table(m: M.AddrMan, tried: bool): map<Slot, int>
    reads m
  {
    if tried then m.tried else m.news
  }

  lemma {:induction false} ProbeWithin(rnd: nat -> nat, at: nat, tried: bool, k: nat)
    ensures Probe(rnd, at, tried, k).0 < Buckets(tried) && Probe(rnd, at, tried, k).1 < BUCKET_SIZE
  {
  }

  method Start(tried: bool, rnd: nat -> nat, at: nat) returns (s: Slot)
    ensures s == Probe(rnd, at, tried, 0)
  {
    s := (rnd(at) % Buckets(tried), rnd(at + 1) % BUCKET_SIZE);
  }

  method Move(tried: bool, rnd: nat -> nat, at: nat, ghost k: nat, next: nat, s: Slot) returns (r: Slot)
    requires next == at + 2 * k + 2 && s == Probe(rnd, at, tried, k)
    ensures r == Probe(rnd, at, tried, k + 1)
  {
    r := ((s.0 + rnd(next)) % Buckets(tried), (s.1 + rnd(next + 1)) % BUCKET_SIZE);
  }

  method Look(m: M.AddrMan, tried: bool, s: Slot) returns (nId: int)
    requires m.Valid() && s.0 < Buckets(tried) && s.1 < BUCKET_SIZE
    ensures nId == -1 <==> s !in Table(m, tried)
    ensures nId != -1 ==> nId == Table(m, tried)[s] && nId in m.mapInfo && m.mapInfo[nId].fInTried == tried
  {
    CellsIds(m, tried, s);
    hide Consistent;
    nId := if tried then m.vvTried[s.0, s.1] else m.vvNew[s.0, s.1];
  }

  /** Finds the first occupied slot of those looked at, or gives up after 200002 of them. */
  method Seek(m: M.AddrMan, tried: bool, rnd: nat -> nat, at: nat) returns (nId: int, ghost k: nat, next: nat)
    requires m.Valid()
    ensures Missed(m, tried, rnd, at, k)
    ensures nId != -1 ==> k <= 200001 && Probe(rnd, at, tried, k) in Table(m, tried) && nId == Table(m, tried)[Probe(rnd, at, tried, k)]
    ensures nId != -1 ==> nId in m.mapInfo && m.mapInfo[nId].fInTried == tried
    ensures nId == -1 ==> k == 200002
    ensures next > at
  {
    hide Probe, Buckets, Table, M.AddrMan.Midway;
    var i := 0;
    var s := Start(tried, rnd, at);
    ProbeWithin(rnd, at, tried, 0);
    next, k := at + 2, 0;
    nId := Look(m, tried, s);
    while nId == -1
      invariant i == k <= MAX_RETRIES + 1 && next == at + 2 * k + 2 && s == Probe(rnd, at, tried, k)
      invariant nId == -1 <==> s !in Table(m, tried)
      invariant nId != -1 ==> nId == Table(m, tried)[s] && nId in m.mapInfo && m.mapInfo[nId].fInTried == tried
      invariant Missed(m, tried, rnd, at, k)
      decreases MAX_RETRIES + 2 - i
    {
      ProbeWithin(rnd, at, tried, k + 1);
      s := Move(tried, rnd, at, k, next, s);
      next, k, i := next + 2, k + 1, i + 1;
      if i - 1 > MAX_RETRIES {
        return;
      }
      nId := Look(m, tried, s);
    }
  }

  /** The first k slots that were looked at are empty. */
  ghost predicate Missed(m: M.AddrMan, tried: bool, rnd: nat -> nat, at: nat, k: nat)
    reads m
  {
    forall j :: 0 <= j < k ==> Probe(rnd, at, tried, j) !in Table(m, tried)
  }

  /** A cell is empty exactly if its slot is; what it holds is an entry of its table. */
  lemma CellsIds(m: M.AddrMan, tried: bool, s: Slot)
    requires m.Valid()
    ensures Cell(Table(m, tried), s) == -1 <==> s !in Table(m, tried)
    ensures s in Table(m, tried) ==>
      var id := Table(m, tried)[s]; id in m.mapInfo && m.mapInfo[id].fInTried == tried && id >= 0
  {
    if s in Table(m, tried) {
      if tried {
        assert TriedSlotOk(m.h, m.nKey, m.mapInfo, s, m.tried[s]);
      } else {
        assert NewSlotOk(m.h, m.nKey, m.mapInfo, s, m.news[s]);
      }
    }
  }

  //////////////////////////////////////////////////////////////////////////////
  // Rounds of drawing
  //////////////////////////////////////////////////////////////////////////////

  /** An entry that was come to, the number drawn for it and the time. */
  datatype Visit = Visit(id: int, draw: nat, now: int)

  /** Whether the entry is taken after so many that were not: each of them makes it 1.2 times as likely. */
  predicate Accepts(draw: nat, rounds: nat, chance: real) {
    draw as real < Power(1.2, rounds) * chance * 1073741824.0
  }

  ghost predicate IsVisit(infos: Infos, tried: bool, v: Visit, latest: int) {
    v.id in infos && infos[v.id].fInTried == tried && v.draw < 1073741824 && v.now <= latest
  }

  /** All visits are to entries of the table, and none of the first n was taken. */
  ghost predicate Rejected(infos: Infos, tried: bool, visits: seq<Visit>, n: nat, latest: int) {
    && n <= |visits| && (forall i :: 0 <= i < |visits| ==> IsVisit(infos, tried, visits[i], latest))
    && forall i :: 0 <= i < n && visits[i].id in infos ==> !Accepts(visits[i].draw, i, Chance(infos[visits[i].id], visits[i].now))
  }

  /** A chance that has grown to one or more takes every draw. */
  lemma Sure(draw: nat, rounds: nat, chance: real)
    requires draw < 1073741824 && Power(1.2, rounds) * chance >= 1.0
    ensures Accepts(draw, rounds, chance)
  {
    hide Power;
    ScaleLess(1.0, Power(1.2, rounds) * chance, 1073741824.0);
  }

  ghost predicate SeenSince(infos: Infos, first: int) { forall id :: id in infos ==> first <= infos[id].nTime }

  /** So many rounds make the chance of every entry at least one. */
  ghost predicate Enough(n: nat, age: nat) { Power(1.2, n) * Least(age) >= 1.0 }

  lemma RejectedFewer(infos: Infos, tried: bool, visits: seq<Visit>, n: nat, latest: int, age: nat, rounds: nat)
    requires Rejected(infos, tried, visits, n, latest) && SeenSince(infos, latest - age) && Enough(rounds, age)
    ensures n <= rounds
  {
    hide Power, Chance, Least;
    if n > rounds {
      var v := visits[rounds];
      assert IsVisit(infos, tried, v, latest);
      ChanceLeast(infos[v.id], v.now, age);
      ScaleMore(Power(1.2, rounds), Least(age), Chance(infos[v.id], v.now));
      Sure(v.draw, rounds, Chance(infos[v.id], v.now));
      assert false;
    }
  }

  lemma ScaleMore(c: real, a: real, b: real)
    requires a <= b && c >= 0.0
    ensures c * a <= c * b
  {
  }

  /** However old the entries are, some number of rounds is enough. */
  lemma EnoughRounds(age: nat) returns (n: nat)
    ensures Enough(n, age)
  {
    var least := Least(age);
    hide Power, Least;
    n := (5.0 / least).Floor + 1;
    Growing(n);
    assert 0.2 * n as real >= 1.0 / least by {
      assert n as real >= 5.0 / least;
      assert 0.2 * (5.0 / least) == 1.0 / least;
    }
    ScaleLess(1.0 / least, Power(1.2, n), least);
    assert 1.0 / least * least == 1.0;
  }

  lemma Member<T>(s: set<T>) returns (x: T)
    requires s != {}
    ensures x in s
  {
    x :| x in s;
  }

  lemma {:induction false} SomeFirst(infos: Infos, ids: set<int>) returns (first: int)
    requires ids <= infos.Keys
    ensures forall id :: id in ids ==> first <= infos[id].nTime
  {
    first := 0;
    if ids != {} {
      var id := Member(ids);
      first := SomeFirst(infos, ids - {id});
      first := if infos[id].nTime < first then infos[id].nTime else first;
    }
  }

  /** A number of rounds that is enough for the entries at hand. */
  lemma RoundsLimit(infos: Infos, latest: int) returns (age: nat, n: nat)
    ensures SeenSince(infos, latest - age) && Enough(n, age)
  {
    var first := SomeFirst(infos, infos.Keys);
    age := if latest - first < 0 then 0 else latest - first;
    n := EnoughRounds(age);
  }

  lemma RejectedNext(infos: Infos, tried: bool, visits: seq<Visit>, v: Visit, latest: int)
    requires Rejected(infos, tried, visits, |visits|, latest) && IsVisit(infos, tried, v, latest)
    ensures Rejected(infos, tried, visits + [v], |visits|, latest)
    ensures !Accepts(v.draw, |visits|, Chance(infos[v.id], v.now)) ==> Rejected(infos, tried, visits + [v], |visits| + 1, latest)
  {
    hide Accepts, Chance;
  }

  /** Comes to entries of a table until one is taken, which always happens, or no occupied slot is found. */
  method Choose(m: M.AddrMan, tried: bool, rnd: nat -> nat, clock: nat -> int, at: nat, ghost latest: int)
    returns (nId: int, ghost visits: seq<Visit>, ghost lost: nat)
    requires m.Valid() && forall i :: clock(i) <= latest
    ensures nId != -1 ==> nId in m.mapInfo && m.mapInfo[nId].fInTried == tried
    ensures nId == -1 ==> Rejected(m.mapInfo, tried, visits, |visits|, latest)
    ensures nId != -1 ==> visits != [] && Rejected(m.mapInfo, tried, visits, |visits| - 1, latest) && Taken(m.mapInfo, visits, nId)
    ensures nId == -1 ==> Missed(m, tried, rnd, lost, 200002)
  {
    hide Power, Chance, Accepts, Rejected, IsVisit, Enough, SeenSince, Missed, Probe, Table, M.AddrMan.Midway;
    ghost var age, limit := RoundsLimit(m.mapInfo, latest);
    var fChanceFactor := 1.0;
    var next, round := at, 0;
    visits, lost := [], at;
    NoVisits(m.mapInfo, tried, latest);
    while true
      invariant round == |visits| && fChanceFactor == Power(1.2, round)
      invariant Rejected(m.mapInfo, tried, visits, |visits|, latest) && |visits| <= limit
      decreases limit - |visits|
    {
      lost := next;
      ghost var k;
      nId, k, next := Seek(m, tried, rnd, next);
      if nId == -1 {
        return;
      }
      var info := m.mapInfo[nId];
      var fChance := GetChance(info, clock(round));
      var draw := rnd(next) % 1073741824;
      next := next + 1;
      ghost var v := Visit(nId, draw, clock(round));
      VisitIs(m.mapInfo, tried, v, latest);
      RejectedNext(m.mapInfo, tried, visits, v, latest);
      AcceptsIs(draw, round, fChanceFactor, fChance);
      if draw as real < fChanceFactor * fChance * 1073741824.0 {
        visits := visits + [v];
        return;
      }
      visits := visits + [v];
      RejectedFewer(m.mapInfo, tried, visits, |visits|, latest, age, limit);
      PowerNext(round);
      fChanceFactor, round := fChanceFactor * 1.2, round + 1;
    }
  }

  /** The last visit is the one that was taken. */
  ghost predicate Taken(infos: Infos, visits: seq<Visit>, nId: int)
    requires visits != []
  {
    var v := visits[|visits| - 1];
    v.id == nId && nId in infos && Accepts(v.draw, |visits| - 1, Chance(infos[nId], v.now))
  }

  lemma NoVisits(infos: Infos, tried: bool, latest: int)
    ensures Rejected(infos, tried, [], 0, latest) && Power(1.2, 0) == 1.0
  {
  }

  lemma VisitIs(infos: Infos, tried: bool, v: Visit, latest: int)
    requires v.id in infos && infos[v.id].fInTried == tried && v.draw < 1073741824 && v.now <= latest
    ensures IsVisit(infos, tried, v, latest)
  {
  }

  lemma AcceptsIs(draw: nat, round: nat, factor: real, chance: real)
    requires factor == Power(1.2, round)
    ensures Accepts(draw, round, chance) <==> draw as real < factor * chance * 1073741824.0
  {
    hide Power;
  }

  lemma PowerNext(round: nat)
    ensures Power(1.2, round) * 1.2 == Power(1.2, round + 1)
  {
  }

  //////////////////////////////////////////////////////////////////////////////
  // The whole choice
  //////////////////////////////////////////////////////////////////////////////

  /** Whether the choice is among the tried entries: there are some, and there are no others or the coin says so. */
  predicate PicksTried(nTried: int, nNew: int, newOnly: bool, coin: nat) {
    !newOnly && nTried > 0 && (nNew == 0 || coin % 2 == 0)
  }

  lemma Sizes(m: M.AddrMan)
    requires m.Valid()
    ensures |m.vRandom| == |m.mapInfo.Keys| == m.nTried + m.nNew && m.nTried >= 0 && m.nNew >= 0
    ensures m.nTried == |TriedIds(m.mapInfo)| && m.nNew == |NewIds(m.mapInfo)|
  {
    RandomCount(m.mapInfo, m.vRandom);
    assert m.mapInfo.Keys == TriedIds(m.mapInfo) + NewIds(m.mapInfo);
  }

  /**
   Ends for all random numbers, and the asserts hold. There is no answer exactly if there is nothing to
   choose from or 200002 slots were looked at in vain; else it is an entry of the table that was picked,
   the first one to be taken of those come to.
   */
  method Select(m: M.AddrMan, newOnly: bool, rnd: nat -> nat, clock: nat -> int, ghost latest: int)
    returns (r: Option<AddrInfo>, ghost visits: seq<Visit>, ghost lost: nat)
    requires m.Valid() && forall i :: clock(i) <= latest
    ensures (newOnly && m.nNew == 0) || m.mapInfo == map[] ==> r == None
    ensures r.Some? ==> visits != [] && Rejected(m.mapInfo, r.value.fInTried, visits, |visits| - 1, latest)
    ensures r.Some? ==>
      (var id := visits[|visits| - 1].id; id in m.mapInfo && r.value == m.mapInfo[id] && Taken(m.mapInfo, visits, id))
    ensures r.Some? ==> r.value.fInTried == PicksTried(m.nTried, m.nNew, newOnly, rnd(0))
    ensures r.None? && m.mapInfo != map[] && !(newOnly && m.nNew == 0) ==>
      Missed(m, PicksTried(m.nTried, m.nNew, newOnly, rnd(0)), rnd, lost, 200002)
  {
    Sizes(m);
    hide Power, Chance, Accepts, Rejected, Taken, Missed, Probe, Table, M.AddrMan.Midway;
    visits, lost := [], 0;
    if |m.vRandom| == 0 {
      assert m.mapInfo.Keys == {};
      return None, visits, lost;
    }
    if newOnly && m.nNew == 0 {
      return None, visits, lost;
    }
    var tried := !newOnly && m.nTried > 0 && (m.nNew == 0 || rnd(0) % 2 == 0);
    var nId;
    nId, visits, lost := Choose(m, tried, rnd, clock, 1, latest);
    if nId == -1 {
      return None, visits, lost;
    }
    TakenIs(m.mapInfo, tried, visits, nId, latest);
    r := Some(m.mapInfo[nId]);
  }

  lemma TakenIs(infos: Infos, tried: bool, visits: seq<Visit>, nId: int, latest: int)
    requires visits != [] && Rejected(infos, tried, visits, |visits| - 1, latest) && Taken(infos, visits, nId)
    ensures visits[|visits| - 1].id == nId && nId in infos && infos[nId].fInTried == tried
  {
    hide Power, Chance, Accepts;
    assert IsVisit(infos, tried, visits[|visits| - 1], latest);
  }

  //////////////////////////////////////////////////////////////////////////////
  // How long it takes
  //////////////////////////////////////////////////////////////////////////////

  lemma PowerUp(b: real, n: nat)
    requires b > 0.0
    ensures Power(b, n + 1) == b * Power(b, n) && Power(b, 0) == 1.0
  {
  }

  lemma {:induction false} PowerSum(b: real, i: nat, j: nat)
    requires b > 0.0
    ensures Power(b, i + j) == Power(b, i) * Power(b, j)
  {
    hide Power;
    PowerUp(b, j);
    if i > 0 {
      PowerSum(b, i - 1, j);
      PowerUp(b, i - 1);
      PowerUp(b, i - 1 + j);
      var x, y, xy := Power(b, i - 1), Power(b, j), Power(b, i - 1 + j);
      assert i - 1 + j + 1 == i + j;
      Associate(b, x, y, xy, Power(b, i), Power(b, i + j));
    }
  }

  lemma Associate(b: real, x: real, y: real, xy: real, bx: real, r: real)
    requires xy == x * y && bx == b * x && r == b * xy
    ensures r == bx * y
  {
    assert b * (x * y) == (b * x) * y;
  }

  lemma EightFailures()
    ensures Power(0.66, 8) > 0.036
  {
    assert Power(0.66, 2) == 0.4356;
    PowerSum(0.66, 2, 2);
    PowerSum(0.66, 4, 4);
    assert Power(0.66, 4) == 0.4356 * 0.4356;
  }

  lemma Doubled(n: nat, low: real, square: real)
    requires Power(1.2, n) >= low >= 0.0 && low * low >= square
    ensures Power(1.2, 2 * n) >= square
  {
    hide Power;
    PowerSum(1.2, n, n);
    ProductLess(low, Power(1.2, n), low, Power(1.2, n));
  }

  lemma EightySeven()
    ensures Power(1.2, 87) >= 7000000.0
  {
    assert Power(1.2, 2) == 1.44;
    assert Power(1.2, 3) == 1.728;
    Doubled(2, 1.44, 2.07);
    PowerSum(1.2, 4, 1);
    assert Power(1.2, 1) == 1.2;
    assert Power(1.2, 5) >= 2.484;
    hide Power;
    Doubled(5, 2.484, 6.17);
    Doubled(10, 6.17, 38.0);
    Doubled(20, 38.0, 1444.0);
    Doubled(40, 1444.0, 2085136.0);
    PowerSum(1.2, 80, 5);
    PowerSum(1.2, 85, 2);
    ProductLess(2085136.0, Power(1.2, 80), 2.484, Power(1.2, 5));
    ProductLess(2085136.0 * 2.484, Power(1.2, 85), 1.44, Power(1.2, 2));
  }

  /** With entries seen within 30 days the 88th that is come to is taken, if none was before. */
  lemma ThirtyDays(infos: Infos, tried: bool, visits: seq<Visit>, n: nat, latest: int)
    requires Rejected(infos, tried, visits, n, latest) && SeenSince(infos, latest - 2592000)
    ensures n <= 87
  {
    EightFailures();
    EightySeven();
    hide Power, Rejected, SeenSince;
    var a := 36000.0 / 2628000.0 * 0.0003;
    assert a >= 0.0000041;
    ProductLess(0.0000041, a, 0.036, Power(0.66, 8));
    assert Least(2592000) == a * Power(0.66, 8);
    ProductLess(7000000.0, Power(1.2, 87), 0.0000041 * 0.036, Least(2592000));
    RejectedFewer(infos, tried, visits, n, latest, 2592000, 87);
  }
}
