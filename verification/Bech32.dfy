/** The Bech32 checksum code and its text form. */
module Bech32 {

  type Data = seq<bv8>

  //////////////////////////////////////////////////////////////////////////////
  // The remainder
  //////////////////////////////////////////////////////////////////////////////

  /** Addition in a field of characteristic two. */
  function X(a: bv32, b: bv32): bv32 { a ^ b }

  lemma XAssoc(a: bv32, b: bv32, c: bv32)
    ensures X(X(a, b), c) == X(a, X(b, c))
  {
    assert (a ^ b) ^ c == a ^ (b ^ c);
  }

  lemma XComm(a: bv32, b: bv32)
    ensures X(a, b) == X(b, a)
  {
  }

  lemma XSwap(a: bv32, b: bv32, c: bv32, d: bv32)
    ensures X(X(a, b), X(c, d)) == X(X(a, c), X(b, d))
  {
    hide X;
    XAssoc(a, b, X(c, d));
    XAssoc(b, c, d);
    XComm(b, c);
    XAssoc(c, b, d);
    XAssoc(a, c, X(b, d));
  }

  lemma XZero(a: bv32)
    ensures X(a, 0) == X(0, a) == a && X(a, a) == 0
  {
  }

  function Term(c0: bv32, bit: bv32, k: bv32): bv32 {
    if c0 & bit != 0 then k else 0
  }

  /** {c0} k(x), for k(x) the remainder of x^6. */
  function Reduced(c0: bv32): bv32 {
    X(X(X(X(Term(c0, 1, 0x3b6a57b2), Term(c0, 2, 0x26508e6d)), Term(c0, 4, 0x1ea119fa)), Term(c0, 8, 0x3d4233dd)), Term(c0, 16, 0x2a1462b3))
  }

  function Shifted(c: bv32): bv32 { (c & 0x1ff_ffff) << 5 }

  /** The remainder after one more value. */
  function Step(c: bv32, v: bv32): bv32 {
    X(X(Shifted(c), v), Reduced(c >> 25))
  }

  /** The remainder after more values, from c on. */
  function Fold(c: bv32, vs: Data): bv32 {
    if vs == [] then c else Step(Fold(c, vs[..|vs| - 1]), vs[|vs| - 1] as bv32)
  }

  lemma BitXor(c: bv32, d: bv32)
    ensures (X(c, d) & 1 != 0) == ((c & 1 != 0) != (d & 1 != 0))
    ensures (X(c, d) & 2 != 0) == ((c & 2 != 0) != (d & 2 != 0))
    ensures (X(c, d) & 4 != 0) == ((c & 4 != 0) != (d & 4 != 0))
    ensures (X(c, d) & 8 != 0) == ((c & 8 != 0) != (d & 8 != 0))
    ensures (X(c, d) & 16 != 0) == ((c & 16 != 0) != (d & 16 != 0))
  {
  }

  lemma TermXor(c: bv32, d: bv32, bit: bv32, k: bv32)
    requires (X(c, d) & bit != 0) == ((c & bit != 0) != (d & bit != 0))
    ensures Term(X(c, d), bit, k) == X(Term(c, bit, k), Term(d, bit, k))
  {
    hide X;
    XZero(k);
    XZero(0);
  }

  lemma ReducedXor(c: bv32, d: bv32)
    ensures Reduced(X(c, d)) == X(Reduced(c), Reduced(d))
  {
    BitXor(c, d);
    hide Term, X;
    TermXor(c, d, 1, 0x3b6a57b2);
    TermXor(c, d, 2, 0x26508e6d);
    TermXor(c, d, 4, 0x1ea119fa);
    TermXor(c, d, 8, 0x3d4233dd);
    TermXor(c, d, 16, 0x2a1462b3);
    SwapFive(Term(c, 1, 0x3b6a57b2), Term(c, 2, 0x26508e6d), Term(c, 4, 0x1ea119fa), Term(c, 8, 0x3d4233dd), Term(c, 16, 0x2a1462b3),
             Term(d, 1, 0x3b6a57b2), Term(d, 2, 0x26508e6d), Term(d, 4, 0x1ea119fa), Term(d, 8, 0x3d4233dd), Term(d, 16, 0x2a1462b3));
  }

  lemma SwapFive(a: bv32, b: bv32, c: bv32, d: bv32, e: bv32, p: bv32, q: bv32, r: bv32, s: bv32, t: bv32)
    ensures X(X(X(X(X(a, p), X(b, q)), X(c, r)), X(d, s)), X(e, t)) == X(X(X(X(X(a, b), c), d), e), X(X(X(X(p, q), r), s), t))
  {
    hide X;
    XSwap(a, p, b, q);
    XSwap(X(a, b), X(p, q), c, r);
    XSwap(X(X(a, b), c), X(X(p, q), r), d, s);
    XSwap(X(X(X(a, b), c), d), X(X(X(p, q), r), s), e, t);
  }

  lemma ShiftXor(c: bv32, d: bv32)
    ensures Shifted(X(c, d)) == X(Shifted(c), Shifted(d)) && X(c, d) >> 25 == X(c >> 25, d >> 25)
  {
  }

  /** One step is linear over exclusive or. */
  lemma StepXor(c: bv32, d: bv32, v: bv32, w: bv32)
    ensures Step(X(c, d), X(v, w)) == X(Step(c, v), Step(d, w))
  {
    ShiftXor(c, d);
    ReducedXor(c >> 25, d >> 25);
    hide Reduced, X, Shifted;
    XSwap(Shifted(c), Shifted(d), v, w);
    XSwap(X(Shifted(c), v), X(Shifted(d), w), Reduced(c >> 25), Reduced(d >> 25));
  }

  lemma StepRange(c: bv32, v: bv32)
    requires v < 256
    ensures Step(c, v) < 0x4000_0000
  {
  }

  /** One step is one to one. */
  lemma StepInjective(c: bv32)
    requires c < 0x4000_0000 && Step(c, 0) == 0
    ensures c == 0
  {
  }

  function X8(a: bv8, b: bv8): bv8 { a ^ b }

  function Xor(v: Data, w: Data): (r: Data)
    requires |v| == |w|
    ensures |r| == |v|
  {
    seq(|v|, i requires 0 <= i < |v| => X8(v[i], w[i]))
  }

  lemma Widen(a: bv8, b: bv8)
    ensures X8(a, b) as bv32 == X(a as bv32, b as bv32)
  {
  }

  lemma XorParts(v: Data, w: Data)
    requires |v| == |w| > 0
    ensures var n := |v| - 1;
      Xor(v, w)[..n] == Xor(v[..n], w[..n]) && Xor(v, w)[n] as bv32 == X(v[n] as bv32, w[n] as bv32)
  {
    hide X8, X;
    Widen(v[|v| - 1], w[|v| - 1]);
  }

  lemma FoldLast(c: bv32, v: Data)
    requires v != []
    ensures Fold(c, v) == Step(Fold(c, v[..|v| - 1]), v[|v| - 1] as bv32)
  {
  }

  lemma FoldNone(c: bv32, v: Data)
    requires |v| == 0
    ensures Fold(c, v) == c
  {
  }

  /** The remainder is linear over exclusive or. */
  lemma {:induction false} FoldXor(c: bv32, d: bv32, v: Data, w: Data)
    requires |v| == |w|
    ensures Fold(X(c, d), Xor(v, w)) == X(Fold(c, v), Fold(d, w))
  {
    hide Step, X, Xor, Fold;
    if v == [] {
      FoldNone(c, v);
      FoldNone(d, w);
      FoldNone(X(c, d), Xor(v, w));
    } else {
      var n := |v| - 1;
      FoldXor(c, d, v[..n], w[..n]);
      XorParts(v, w);
      FoldLast(c, v);
      FoldLast(d, w);
      FoldLast(X(c, d), Xor(v, w));
      StepXor(Fold(c, v[..n]), Fold(d, w[..n]), v[n] as bv32, w[n] as bv32);
    }
  }

  lemma {:induction false} FoldAppend(c: bv32, v: Data, w: Data)
    ensures Fold(c, v + w) == Fold(Fold(c, v), w)
  {
    hide Step;
    if w == [] {
      assert v + w == v;
    } else {
      FoldAppend(c, v, w[..|w| - 1]);
      assert (v + w)[..|v + w| - 1] == v + w[..|w| - 1];
    }
  }

  lemma {:induction false} FoldRange(c: bv32, v: Data)
    requires c < 0x4000_0000
    ensures Fold(c, v) < 0x4000_0000
  {
    hide Step;
    if v != [] {
      StepRange(Fold(c, v[..|v| - 1]), v[|v| - 1] as bv32);
    }
  }

  function Zeros(n: nat): (r: Data)
    ensures |r| == n && forall i :: 0 <= i < n ==> r[i] == 0
  {
    seq(n, _ => 0)
  }

  /** A difference never goes away by appending equal values. */
  lemma {:induction false} FoldInjective(c: bv32, n: nat)
    requires c < 0x4000_0000 && Fold(c, Zeros(n)) == 0
    ensures c == 0
  {
    hide Step;
    if n > 0 {
      assert Zeros(n)[..n - 1] == Zeros(n - 1);
      FoldRange(c, Zeros(n - 1));
      StepInjective(Fold(c, Zeros(n - 1)));
      FoldInjective(c, n - 1);
    }
  }

  predicate FiveBit(v: Data) {
    forall i :: 0 <= i < |v| ==> v[i] < 32
  }

  /** Appends five bits. */
  function Push(c: bv32, v: bv32): bv32 { (c << 5) ^ v }

  /** Six values packed into 30 bits. */
  function Packed(a: bv32, b: bv32, c: bv32, d: bv32, e: bv32, f: bv32): bv32 {
    Push(Push(Push(Push(Push(a, b), c), d), e), f)
  }

  /** Below 2^25 a step only appends. */
  lemma StepPush(c: bv32, v: bv32)
    requires c < 0x200_0000
    ensures Step(c, v) == Push(c, v) && Push(0, v) == v
  {
    SmallShift(c);
    NothingReduced();
    assert Push(c, v) == X(c << 5, v);
    hide X, Reduced, Shifted;
    XZero(X(c << 5, v));
    assert Push(0, v) == v;
  }

  lemma SmallShift(c: bv32)
    requires c < 0x200_0000
    ensures Shifted(c) == c << 5 && c >> 25 == 0
  {
  }

  lemma NothingReduced()
    ensures Reduced(0) == 0
  {
  }

  lemma PushRange(c: bv32, v: bv32)
    requires v < 32
    ensures c < 0x20 ==> Push(c, v) < 0x400
    ensures c < 0x400 ==> Push(c, v) < 0x8000
    ensures c < 0x8000 ==> Push(c, v) < 0x10_0000
    ensures c < 0x10_0000 ==> Push(c, v) < 0x200_0000
  {
  }

  lemma StepsPack(a: bv32, b: bv32, c: bv32, d: bv32, e: bv32, f: bv32)
    requires a < 32 && b < 32 && c < 32 && d < 32 && e < 32
    ensures Step(Step(Step(Step(Step(Step(0, a), b), c), d), e), f) == Packed(a, b, c, d, e, f)
  {
    hide Step, Push;
    StepPush(0, a);
    StepPush(a, b);
    PushRange(a, b);
    StepPush(Push(a, b), c);
    PushRange(Push(a, b), c);
    StepPush(Push(Push(a, b), c), d);
    PushRange(Push(Push(a, b), c), d);
    StepPush(Push(Push(Push(a, b), c), d), e);
    PushRange(Push(Push(Push(a, b), c), d), e);
    StepPush(Push(Push(Push(Push(a, b), c), d), e), f);
  }

  function PackedOf(v: Data): bv32
    requires |v| == 6
  {
    Packed(v[0] as bv32, v[1] as bv32, v[2] as bv32, v[3] as bv32, v[4] as bv32, v[5] as bv32)
  }

  lemma FoldSnoc(c: bv32, v: Data, x: bv8)
    ensures Fold(c, v + [x]) == Step(Fold(c, v), x as bv32)
  {
    assert (v + [x])[..|v|] == v;
  }

  lemma FoldSteps(c: bv32, v: Data)
    requires |v| == 6
    ensures Fold(c, v) == Step(Step(Step(Step(Step(Step(c, v[0] as bv32), v[1] as bv32), v[2] as bv32), v[3] as bv32), v[4] as bv32), v[5] as bv32)
  {
    hide Step, Fold;
    FoldNone(c, []);
    FoldSnoc(c, [], v[0]);
    FoldSnoc(c, [] + [v[0]], v[1]);
    FoldSnoc(c, [] + [v[0]] + [v[1]], v[2]);
    FoldSnoc(c, [] + [v[0]] + [v[1]] + [v[2]], v[3]);
    FoldSnoc(c, [] + [v[0]] + [v[1]] + [v[2]] + [v[3]], v[4]);
    FoldSnoc(c, [] + [v[0]] + [v[1]] + [v[2]] + [v[3]] + [v[4]], v[5]);
    assert v == [] + [v[0]] + [v[1]] + [v[2]] + [v[3]] + [v[4]] + [v[5]];
  }

  /** From zero on, six values are their own remainder. */
  lemma FoldSix(v: Data)
    requires |v| == 6 && FiveBit(v)
    ensures Fold(0, v) == PackedOf(v)
  {
    hide Step, Fold, Packed;
    FoldSteps(0, v);
    StepsPack(v[0] as bv32, v[1] as bv32, v[2] as bv32, v[3] as bv32, v[4] as bv32, v[5] as bv32);
  }

  lemma PushZero(c: bv32, v: bv32)
    requires v < 32 && c < 0x200_0000 && Push(c, v) == 0
    ensures c == 0 && v == 0
  {
  }

  lemma PackedZero(a: bv32, b: bv32, c: bv32, d: bv32, e: bv32, f: bv32)
    requires a < 32 && b < 32 && c < 32 && d < 32 && e < 32 && f < 32 && Packed(a, b, c, d, e, f) == 0
    ensures a == 0 && b == 0 && c == 0 && d == 0 && e == 0 && f == 0
  {
    hide Push;
    PushRange(a, b);
    PushRange(Push(a, b), c);
    PushRange(Push(Push(a, b), c), d);
    PushRange(Push(Push(Push(a, b), c), d), e);
    PushZero(Push(Push(Push(Push(a, b), c), d), e), f);
    PushZero(Push(Push(Push(a, b), c), d), e);
    PushZero(Push(Push(a, b), c), d);
    PushZero(Push(a, b), c);
    PushZero(a, b);
  }

  function High(m: bv32): bv32 { m >> 5 }
  function Low(m: bv32): bv32 { m & 31 }

  lemma PushTop(m: bv32)
    ensures Push(High(m), Low(m)) == m
  {
  }

  lemma HighLow(m: bv32)
    ensures (m >> 0) & 31 == Low(m) && (m >> 5) & 31 == Low(High(m)) && (m >> 10) & 31 == Low(High(High(m)))
    ensures (m >> 15) & 31 == Low(High(High(High(m)))) && (m >> 20) & 31 == Low(High(High(High(High(m)))))
    ensures m < 0x4000_0000 ==> (m >> 25) & 31 == High(High(High(High(High(m)))))
  {
  }

  /** Taking 30 bits apart into six values and packing them again. */
  lemma PackUnpack(m: bv32)
    requires m < 0x4000_0000
    ensures Packed((m >> 25) & 31, (m >> 20) & 31, (m >> 15) & 31, (m >> 10) & 31, (m >> 5) & 31, (m >> 0) & 31) == m
  {
    HighLow(m);
    hide Push, High, Low;
    PushTop(m);
    PushTop(High(m));
    PushTop(High(High(m)));
    PushTop(High(High(High(m))));
    PushTop(High(High(High(High(m)))));
  }

  //////////////////////////////////////////////////////////////////////////////
  // The checksum
  //////////////////////////////////////////////////////////////////////////////

  function FiveBits(m: bv32): (r: bv8)
    ensures r < 32 && r as bv32 == m & 31
  {
    (m & 31) as bv8
  }

  /** The i-th of the 5-bit groups, the highest first. */
  function Group(mod: bv32, i: nat): (r: bv8)
    requires i < 6
    ensures r < 32
  {
    if i == 0 then FiveBits(mod >> 25)
    else if i == 1 then FiveBits(mod >> 20)
    else if i == 2 then FiveBits(mod >> 15)
    else if i == 3 then FiveBits(mod >> 10)
    else if i == 4 then FiveBits(mod >> 5)
    else FiveBits(mod >> 0)
  }

  function Groups(mod: bv32): (r: Data)
    ensures |r| == 6 && FiveBit(r)
  {
    [Group(mod, 0), Group(mod, 1), Group(mod, 2), Group(mod, 3), Group(mod, 4), Group(mod, 5)]
  }

  /** What to append to make the remainder one. */
  function Checksum(e: Data): (r: Data)
    ensures |r| == 6 && FiveBit(r)
  {
    Groups(X(Fold(1, e + Zeros(6)), 1))
  }

  lemma GroupsPack(m: bv32)
    requires m < 0x4000_0000
    ensures PackedOf(Groups(m)) == m
  {
    hide Packed;
    PackUnpack(m);
  }

  lemma XorZeros(v: Data)
    ensures Xor(Zeros(|v|), v) == v
  {
    hide X8;
    forall i | 0 <= i < |v| ensures Xor(Zeros(|v|), v)[i] == v[i] {
      X8Zero(v[i]);
    }
  }

  lemma X8Zero(a: bv8)
    ensures X8(0, a) == a && X8(a, a) == 0
  {
  }

  lemma XOneRange(p: bv32)
    requires p < 0x4000_0000
    ensures X(p, 1) < 0x4000_0000 && X(p, X(p, 1)) == 1
  {
  }

  /** The checksum made always verifies. */
  lemma ChecksumVerifies(e: Data)
    ensures Fold(1, e + Checksum(e)) == 1
  {
    hide Fold, X, Xor, Packed;
    var c, z, r := Fold(1, e), Zeros(6), Checksum(e);
    FoldAppend(1, e, z);
    FoldAppend(1, e, r);
    FoldRange(1, e + z);
    XZero(c);
    XorZeros(r);
    FoldXor(c, 0, z, r);
    FoldSix(r);
    XOneRange(Fold(c, z));
    GroupsPack(X(Fold(c, z), 1));
  }

  lemma {:induction false} FoldZeros(n: nat)
    ensures Fold(0, Zeros(n)) == 0
  {
    hide Step;
    if n > 0 {
      assert Zeros(n)[..n - 1] == Zeros(n - 1);
      FoldZeros(n - 1);
      StepZero();
    }
  }

  lemma StepZero()
    ensures Step(0, 0) == 0
  {
  }

  /** Up to six values that are not all zero leave a remainder that is not zero. */
  lemma SixAtMost(d: Data)
    requires |d| <= 6 && FiveBit(d) && Fold(0, d) == 0
    ensures d == Zeros(|d|)
  {
    hide Fold, Packed;
    var n := 6 - |d|;
    var six := Zeros(n) + d;
    FoldAppend(0, Zeros(n), d);
    FoldZeros(n);
    FoldSix(six);
    PackedZero(six[0] as bv32, six[1] as bv32, six[2] as bv32, six[3] as bv32, six[4] as bv32, six[5] as bv32);
    forall i | 0 <= i < |d| ensures d[i] == 0 {
      assert six[n + i] == d[i];
    }
  }

  lemma X8Bits(a: bv8, b: bv8)
    ensures (a < 32 && b < 32 ==> X8(a, b) < 32) && (X8(a, b) == 0 ==> a == b) && (a == b ==> X8(a, b) == 0)
  {
  }

  lemma XorFacts(v: Data, w: Data)
    requires |v| == |w| && FiveBit(v) && FiveBit(w)
    ensures FiveBit(Xor(v, w)) && forall i :: 0 <= i < |v| ==> (Xor(v, w)[i] == 0 <==> v[i] == w[i])
  {
    hide X8;
    forall i | 0 <= i < |v| ensures Xor(v, w)[i] < 32 && (Xor(v, w)[i] == 0 <==> v[i] == w[i]) {
      X8Bits(v[i], w[i]);
    }
  }

  lemma XSame(a: bv32)
    ensures X(a, a) == 0
  {
  }

  /** The difference of two lists with the same remainder has remainder zero. */
  lemma DifferenceZero(c: bv32, v: Data, w: Data)
    requires |v| == |w| && Fold(c, v) == Fold(c, w)
    ensures Fold(0, Xor(v, w)) == 0
  {
    hide Fold, X, Xor;
    FoldXor(c, c, v, w);
    XSame(c);
    XSame(Fold(c, v));
  }

  /** A list that leaves no remainder and is zero but for six consecutive places is zero. */
  lemma BurstVanishes(d: Data, k: nat)
    requires FiveBit(d) && k <= |d| && Fold(0, d) == 0
    requires forall i :: 0 <= i < |d| && !(k <= i < k + 6) ==> d[i] == 0
    ensures forall i :: 0 <= i < |d| ==> d[i] == 0
  {
    hide Fold, FiveBit;
    var m := if k + 6 < |d| then k + 6 else |d|;
    var mid, t := d[k..m], |d| - m;
    assert d[..k] == Zeros(k) && d[m..] == Zeros(t) && d == Zeros(k) + (mid + Zeros(t));
    FoldAppend(0, Zeros(k), mid + Zeros(t));
    FoldZeros(k);
    FoldAppend(0, mid, Zeros(t));
    FoldRange(0, mid);
    FoldInjective(Fold(0, mid), t);
    FiveBitPart(d, k, m);
    SixAtMost(mid);
    assert forall i :: k <= i < m ==> d[i] == mid[i - k];
  }

  lemma FiveBitPart(d: Data, k: nat, m: nat)
    requires FiveBit(d) && k <= m <= |d|
    ensures FiveBit(d[k..m])
  {
  }

  /** Errors within six consecutive values are always detected. */
  lemma BurstDetected(e: Data, v: Data, w: Data, k: nat)
    requires |v| == |w| && FiveBit(v) && FiveBit(w) && k <= |v|
    requires forall i :: 0 <= i < |v| && !(k <= i < k + 6) ==> v[i] == w[i]
    requires Fold(1, e + v) == Fold(1, e + w)
    ensures v == w
  {
    hide Fold, X, Xor;
    FoldAppend(1, e, v);
    FoldAppend(1, e, w);
    DifferenceZero(Fold(1, e), v, w);
    XorFacts(v, w);
    BurstVanishes(Xor(v, w), k);
  }

  /** The remainder of a list of values, with an implicit one in front. */
  method PolyMod(v: Data) returns (c: bv32)
    ensures c == Fold(1, v)
  {
    hide Step, Fold;
    c := 1;
    FoldNone(1, v[..0]);
    for i := 0 to |v|
      invariant c == Fold(1, v[..i])
    {
      FoldSnoc(1, v[..i], v[i]);
      assert v[..i + 1] == v[..i] + [v[i]];
      c := PolyModStep(c, v[i]);
    }
    assert v[..|v|] == v;
  }

  method PolyModStep(c: bv32, v: bv8) returns (r: bv32)
    ensures r == Step(c, v as bv32)
  {
    var c0 := c >> 25;
    r := X((c & 0x1ff_ffff) << 5, v as bv32);
    hide X;
    ghost var s := r;
    ghost var t1, t2, t3 := Term(c0, 1, 0x3b6a57b2), Term(c0, 2, 0x26508e6d), Term(c0, 4, 0x1ea119fa);
    ghost var t4, t5 := Term(c0, 8, 0x3d4233dd), Term(c0, 16, 0x2a1462b3);
    XZero(r);
    if c0 & 1 != 0 { r := X(r, 0x3b6a57b2); }
    XZero(r);
    if c0 & 2 != 0 { r := X(r, 0x26508e6d); }
    XAssoc(s, t1, t2);
    XZero(r);
    if c0 & 4 != 0 { r := X(r, 0x1ea119fa); }
    XAssoc(s, X(t1, t2), t3);
    XZero(r);
    if c0 & 8 != 0 { r := X(r, 0x3d4233dd); }
    XAssoc(s, X(X(t1, t2), t3), t4);
    XZero(r);
    if c0 & 16 != 0 { r := X(r, 0x2a1462b3); }
    XAssoc(s, X(X(X(t1, t2), t3), t4), t5);
  }
}
