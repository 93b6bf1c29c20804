/** The serialized form of the unspent outputs of a transaction. */
module CoinsCodec {
  import opened Amounts
  import opened Bits
  import opened Coins
  import opened Money
  import opened Wrappers

  /** What is written to the stream: variable-length numbers, mask bytes, and outputs with compressed amounts. */
  datatype Token = Num(n: int) | Byte(b: bv8) | Out(nVal: Uint64, script: seq<nat>)

  type Uint64 = n: nat | n < UINT64

  /** A 64-bit number taken as a signed one. */
  function AsInt64(n: Uint64): (r: int)
    ensures -0x8000_0000_0000_0000 <= r < 0x8000_0000_0000_0000 && (r == n || r == n - 0x1_0000_0000_0000_0000)
  {
    if n < UINT64 / 2 then n else n - UINT64
  }

  /** Outputs that can be written: amounts of money, and spent ones in their normal form. */
  predicate Storable(c: Coins) {
    forall i :: 0 <= i < |c.vout| ==> if c.vout[i].IsNull() then c.vout[i] == NullOut else 0 <= c.vout[i].nValue <= MAX_MONEY
  }

  //////////////////////////////////////////////////////////////////////////////
  // The mask
  //////////////////////////////////////////////////////////////////////////////

  /** Bit i of byte b of the mask stands for output 2 + 8b + i. */
  predicate InByte(c: Coins, b: nat, i: nat) { c.IsAvailable(2 + b * 8 + i) }

  predicate ByteUsed(c: Coins, b: nat) {
    exists i :: 0 <= i < 8 && InByte(c, b, i)
  }

  /** The number of bytes from b up to n that are not zero. */
  function UsedFrom(c: Coins, b: nat, n: nat): nat
    requires b <= n
    decreases n - b
  {
    if b == n then 0 else (if ByteUsed(c, b) then 1 else 0) + UsedFrom(c, b + 1, n)
  }

  /** The mask ends with its last byte that is not zero. */
  ghost predicate MaskSize(c: Coins, n: nat) {
    && (n > 0 ==> ByteUsed(c, n - 1))
    && forall b :: n <= b ==> !ByteUsed(c, b)
  }

  lemma {:induction false} UsedSnoc(c: Coins, b: nat, n: nat)
    requires b <= n
    ensures UsedFrom(c, b, n + 1) == UsedFrom(c, b, n) + if ByteUsed(c, n) then 1 else 0
    decreases n - b
  {
    if b < n {
      UsedSnoc(c, b + 1, n);
    }
  }

  method CalcMaskSize(c: Coins) returns (nBytes: nat, nNonzeroBytes: nat)
    ensures MaskSize(c, nBytes) && nNonzeroBytes == UsedFrom(c, 0, nBytes)
  {
    nBytes, nNonzeroBytes := 0, 0;
    var b := 0;
    while 2 + b * 8 < |c.vout|
      invariant nBytes <= b && (nBytes > 0 ==> ByteUsed(c, nBytes - 1))
      invariant forall k :: nBytes <= k < b ==> !ByteUsed(c, k)
      invariant nNonzeroBytes == UsedFrom(c, 0, nBytes)
    {
      var fZero := true;
      var i := 0;
      while i < 8 && 2 + b * 8 + i < |c.vout|
        invariant 0 <= i <= 8 && (fZero <==> forall j :: 0 <= j < i ==> !InByte(c, b, j))
      {
        assert InByte(c, b, i) <==> !c.vout[2 + b * 8 + i].IsNull();
        if !c.vout[2 + b * 8 + i].IsNull() {
          fZero := false;
        }
        i := i + 1;
      }
      assert fZero <==> !ByteUsed(c, b);
      if !fZero {
        UsedGap(c, nBytes, b);
        UsedSnoc(c, 0, b);
        nBytes := b + 1;
        nNonzeroBytes := nNonzeroBytes + 1;
      }
      b := b + 1;
    }
    assert forall k, i :: k >= b && i >= 0 ==> !InByte(c, k, i);
  }

  lemma {:induction false} UsedGap(c: Coins, m: nat, n: nat)
    requires m <= n && forall k :: m <= k < n ==> !ByteUsed(c, k)
    ensures UsedFrom(c, 0, n) == UsedFrom(c, 0, m)
  {
    if m < n {
      UsedGap(c, m, n - 1);
      UsedSnoc(c, 0, n - 1);
    }
  }

  /** The first i bits of byte b. */
  function MaskBits(c: Coins, b: nat, i: nat): bv8
    requires i <= 8
  {
    if i == 0 then 0 else MaskBits(c, b, i - 1) | if InByte(c, b, i - 1) then Mask(i - 1) else 0
  }

  lemma {:induction false} MaskBit(c: Coins, b: nat, i: nat, k: nat)
    requires i <= 8 && k < 8
    ensures BitOf(MaskBits(c, b, i), k) <==> k < i && InByte(c, b, k)
  {
    hide BitOf, InByte, Mask;
    if i == 0 {
      NoBits(k);
    } else {
      MaskBit(c, b, i - 1, k);
      if InByte(c, b, i - 1) {
        SetBit(MaskBits(c, b, i - 1), i - 1, k);
      } else {
        OrNothing(MaskBits(c, b, i - 1));
      }
    }
  }

  lemma OrNothing(b: bv8)
    ensures b | 0 == b
  {
  }

  /** A byte of the mask is zero exactly if all its outputs are spent. */
  lemma MaskUsed(c: Coins, b: nat)
    ensures MaskBits(c, b, 8) != 0 <==> ByteUsed(c, b)
  {
    hide InByte, MaskBits;
    forall k | 0 <= k < 8 ensures BitOf(MaskBits(c, b, 8), k) <==> InByte(c, b, k) {
      MaskBit(c, b, 8, k);
    }
    ZeroByte(MaskBits(c, b, 8));
  }

  function BitsOf(b: bv8): (r: seq<bool>)
    ensures |r| == 8 && forall k :: 0 <= k < 8 ==> r[k] == BitOf(b, k)
  {
    seq(8, k requires 0 <= k < 8 => BitOf(b, k))
  }

  function MaskTokens(c: Coins, b: nat, n: nat): seq<Token>
    requires b <= n
    decreases n - b
  {
    if b == n then [] else [Byte(MaskBits(c, b, 8))] + MaskTokens(c, b + 1, n)
  }

  /** What was read before, and what is read from here on. */
  function Prepend<T>(before: seq<T>, r: Option<(seq<T>, seq<Token>)>): Option<(seq<T>, seq<Token>)> {
    match r case None => None case Some(x) => Some((before + x.0, x.1))
  }

  /** Reads mask bytes until as many as announced are not zero. */
  function ReadMask(s: seq<Token>, nMaskCode: nat): Option<(seq<bool>, seq<Token>)> {
    if nMaskCode == 0 then Some(([], s))
    else if s == [] || !s[0].Byte? then None
    else Prepend(BitsOf(s[0].b), ReadMask(s[1..], if s[0].b != 0 then nMaskCode - 1 else nMaskCode))
  }

  /** The availabilities that bytes b up to n of the mask stand for. */
  function MaskAvail(c: Coins, b: nat, n: nat): (r: seq<bool>)
    requires b <= n
    ensures |r| == 8 * (n - b)
  {
    seq(8 * (n - b), k requires 0 <= k < 8 * (n - b) => c.IsAvailable(2 + b * 8 + k))
  }

  lemma MaskAvailNext(c: Coins, b: nat, n: nat)
    requires b < n
    ensures MaskAvail(c, b, n) == BitsOf(MaskBits(c, b, 8)) + MaskAvail(c, b + 1, n)
  {
    hide MaskBits, BitOf;
    forall k | 0 <= k < 8 ensures BitOf(MaskBits(c, b, 8), k) == InByte(c, b, k) {
      MaskBit(c, b, 8, k);
    }
  }

  lemma {:induction false} UsedSome(c: Coins, b: nat, n: nat)
    requires b < n && ByteUsed(c, n - 1)
    ensures UsedFrom(c, b, n) > 0
    decreases n - b
  {
    if b + 1 < n {
      UsedSome(c, b + 1, n);
    }
  }

  /** The count of bytes that are not zero tells exactly where the mask ends. */
  lemma {:induction false} MaskRoundTrip(c: Coins, b: nat, n: nat, rest: seq<Token>)
    requires b <= n && (n > 0 ==> ByteUsed(c, n - 1))
    ensures ReadMask(MaskTokens(c, b, n) + rest, UsedFrom(c, b, n)) == Some((MaskAvail(c, b, n), rest))
    decreases n - b
  {
    hide ByteUsed, MaskBits, BitsOf, MaskAvail;
    var s := MaskTokens(c, b, n) + rest;
    if b == n {
      assert s == rest;
      assert MaskAvail(c, b, n) == [];
    } else {
      MaskRoundTrip(c, b + 1, n, rest);
      UsedSome(c, b, n);
      MaskUsed(c, b);
      MaskAvailNext(c, b, n);
      assert s[0] == Byte(MaskBits(c, b, 8)) && s[1..] == MaskTokens(c, b + 1, n) + rest;
    }
  }

  //////////////////////////////////////////////////////////////////////////////
  // The outputs
  //////////////////////////////////////////////////////////////////////////////

  function OutToken(o: TxOut): Token
    requires 0 <= o.nValue
  {
    Out(Compress(o.nValue) % UINT64, o.script)
  }

  function OutOf(nVal: Uint64, script: seq<nat>): TxOut {
    TxOut(AsInt64(Decompress(nVal) % UINT64), script)
  }

  /** An amount of money survives. */
  lemma OutRoundTrip(o: TxOut)
    requires 0 <= o.nValue <= MAX_MONEY
    ensures OutOf(OutToken(o).nVal, o.script) == o
  {
    hide Compress, Decompress;
    CompressFits(o.nValue);
    Fits(Compress(o.nValue));
    DecompressCompress(o.nValue);
    Fits(o.nValue);
  }

  /** The unspent outputs from i on. */
  function OutTokens(c: Coins, i: nat): seq<Token>
    requires Storable(c)
    decreases |c.vout| - i
  {
    if i >= |c.vout| then [] else (if c.vout[i].IsNull() then [] else [OutToken(c.vout[i])]) + OutTokens(c, i + 1)
  }

  /** Reads an output for every place that has one. */
  function ReadOuts(s: seq<Token>, avail: seq<bool>): Option<(seq<TxOut>, seq<Token>)>
    decreases |avail|
  {
    if avail == [] then Some(([], s))
    else if !avail[0] then Prepend([NullOut], ReadOuts(s, avail[1..]))
    else if s == [] || !s[0].Out? then None
    else Prepend([OutOf(s[0].nVal, s[0].script)], ReadOuts(s[1..], avail[1..]))
  }

  /** The outputs from i on, and as many spent ones as are needed to fill up to n. */
  function Padded(c: Coins, i: nat, n: nat): (r: seq<TxOut>)
    requires i <= n
    ensures |r| == n - i
  {
    seq(n - i, k requires 0 <= k < n - i => if i + k < |c.vout| then c.vout[i + k] else NullOut)
  }

  lemma PaddedNext(c: Coins, i: nat, n: nat)
    requires i < n
    ensures Padded(c, i, n) == [if i < |c.vout| then c.vout[i] else NullOut] + Padded(c, i + 1, n)
  {
  }

  lemma {:induction false} NoOuts(c: Coins, i: nat)
    requires Storable(c) && forall k :: i <= k ==> !c.IsAvailable(k)
    ensures OutTokens(c, i) == []
    decreases |c.vout| - i
  {
    if i < |c.vout| {
      assert !c.IsAvailable(i);
      NoOuts(c, i + 1);
    }
  }

  lemma {:induction false} OutsRoundTrip(c: Coins, i: nat, avail: seq<bool>, rest: seq<Token>)
    requires Storable(c) && forall k :: i + |avail| <= k ==> !c.IsAvailable(k)
    requires forall k :: 0 <= k < |avail| ==> avail[k] == c.IsAvailable(i + k)
    ensures ReadOuts(OutTokens(c, i) + rest, avail) == Some((Padded(c, i, i + |avail|), rest))
    decreases |avail|
  {
    hide Padded, OutOf, Compress;
    var s := OutTokens(c, i) + rest;
    if avail == [] {
      NoOuts(c, i);
      assert s == rest;
      assert Padded(c, i, i) == [];
    } else {
      OutsRoundTrip(c, i + 1, avail[1..], rest);
      PaddedNext(c, i, i + |avail|);
      if avail[0] {
        OutRoundTrip(c.vout[i]);
        assert s[1..] == OutTokens(c, i + 1) + rest;
      } else {
        assert s == OutTokens(c, i + 1) + rest;
      }
    }
  }

  //////////////////////////////////////////////////////////////////////////////
  // The whole record
  //////////////////////////////////////////////////////////////////////////////

  /** The mask size, looking down from byte b. */
  function MaskLen(c: Coins, b: nat): (n: nat)
    ensures n <= b && (n > 0 ==> ByteUsed(c, n - 1)) && forall k :: n <= k < b ==> !ByteUsed(c, k)
  {
    if b == 0 then 0 else if ByteUsed(c, b - 1) then b else MaskLen(c, b - 1)
  }

  lemma MaskLenIs(c: Coins, n: nat)
    requires MaskSize(c, n)
    ensures n == MaskLen(c, |c.vout|)
  {
    var m := MaskLen(c, |c.vout|);
    if n > 0 {
      assert ByteUsed(c, n - 1);
    }
    if m > 0 {
      assert ByteUsed(c, m - 1);
    }
  }

  /** The header code: how much mask follows, one less if neither of the first two outputs is there. */
  function Code(c: Coins, used: nat): int {
    var first, second := c.IsAvailable(0), c.IsAvailable(1);
    8 * (used - if first || second then 0 else 1) + (if c.fCoinBase then 1 else 0) + (if first then 2 else 0) + (if second then 4 else 0)
  }

  function Encode(c: Coins): (s: seq<Token>)
    requires Storable(c)
  {
    var n := MaskLen(c, |c.vout|);
    [Num(c.nVersion), Num(Code(c, UsedFrom(c, 0, n)))] + MaskTokens(c, 0, n) + OutTokens(c, 0) + [Num(c.nHeight)]
  }

  function Decode(s: seq<Token>): Option<Coins> {
    if |s| < 2 || !s[0].Num? || !s[1].Num? || s[1].n < 0 then None
    else
      var nCode := s[1].n;
      var first, second := nCode / 2 % 2 == 1, nCode / 4 % 2 == 1;
      var nMaskCode := nCode / 8 + if first || second then 0 else 1;
      match ReadMask(s[2..], nMaskCode)
      case None => None
      case Some(m) =>
        match ReadOuts(m.1, [first, second] + m.0)
        case None => None
        case Some(o) =>
          if o.1 == [] || !o.1[0].Num? then None
          else Some(Coins(nCode % 2 == 1, Trim(o.0), o.1[0].n, s[0].n))
  }

  /** Something unspent shows in the header code, in the mask or in both. */
  lemma SomethingThere(c: Coins)
    requires !c.IsPruned()
    ensures c.IsAvailable(0) || c.IsAvailable(1) || UsedFrom(c, 0, MaskLen(c, |c.vout|)) > 0
  {
    var i :| 0 <= i < |c.vout| && !c.vout[i].IsNull();
    if i >= 2 {
      var b, k := (i - 2) / 8, (i - 2) % 8;
      assert InByte(c, b, k);
      assert ByteUsed(c, b);
      UsedSome(c, 0, MaskLen(c, |c.vout|));
    }
  }

  lemma CodeParts(c: Coins, used: nat)
    requires c.IsAvailable(0) || c.IsAvailable(1) || used > 0
    ensures var n := Code(c, used);
      && n >= 0 && (n % 2 == 1 <==> c.fCoinBase) && (n / 2 % 2 == 1 <==> c.IsAvailable(0)) && (n / 4 % 2 == 1 <==> c.IsAvailable(1))
      && n / 8 + (if c.IsAvailable(0) || c.IsAvailable(1) then 0 else 1) == used
  {
    var first, second := c.IsAvailable(0), c.IsAvailable(1);
    var hi := used - if first || second then 0 else 1;
    var lo := (if c.fCoinBase then 1 else 0) + (if first then 2 else 0) + (if second then 4 else 0);
    assert Code(c, used) == 8 * hi + lo;
  }

  /** No output lies beyond the mask. */
  lemma MaskCovers(c: Coins, k: nat)
    requires c.IsAvailable(k)
    ensures k < 2 + 8 * MaskLen(c, |c.vout|)
  {
    if k >= 2 {
      var b, i := (k - 2) / 8, (k - 2) % 8;
      assert InByte(c, b, i);
      assert ByteUsed(c, b);
    }
  }

  lemma {:induction false} TrimPadded(vout: seq<TxOut>, pad: nat)
    ensures Trim(vout + seq(pad, _ => NullOut)) == Trim(vout)
  {
    if pad == 0 {
      assert vout + seq(0, _ => NullOut) == vout;
    } else {
      var all := vout + seq(pad, _ => NullOut);
      assert all[..|all| - 1] == vout + seq(pad - 1, _ => NullOut);
      TrimPadded(vout, pad - 1);
    }
  }

  lemma {:induction false} TrimTail(vout: seq<TxOut>, n: nat)
    requires n <= |vout| && forall i :: n <= i < |vout| ==> vout[i].IsNull()
    ensures Trim(vout[..n]) == Trim(vout)
  {
    if n == |vout| {
      assert vout[..n] == vout;
    } else {
      var p := vout[..|vout| - 1];
      assert p[..n] == vout[..n];
      TrimTail(p, n);
    }
  }

  lemma PaddedTrims(c: Coins, n: nat)
    requires forall k :: n <= k ==> !c.IsAvailable(k)
    ensures Trim(Padded(c, 0, n)) == Trim(c.vout)
  {
    if |c.vout| <= n {
      var pad := n - |c.vout|;
      assert Padded(c, 0, n) == c.vout + seq(pad, _ => NullOut);
      TrimPadded(c.vout, pad);
    } else {
      assert Padded(c, 0, n) == c.vout[..n];
      forall i | n <= i < |c.vout| ensures c.vout[i].IsNull() { assert !c.IsAvailable(i); }
      TrimTail(c.vout, n);
    }
  }

  lemma Availabilities(c: Coins, n: nat)
    ensures var avail := [c.IsAvailable(0), c.IsAvailable(1)] + MaskAvail(c, 0, n);
      |avail| == 2 + 8 * n && forall k :: 0 <= k < |avail| ==> avail[k] == c.IsAvailable(0 + k)
  {
  }

  /** What is written is read back, cleaned up; so exactly the clean records come back as they were. */
  lemma RoundTrip(c: Coins)
    requires Storable(c) && !c.IsPruned()
    ensures Decode(Encode(c)) == Some(c.Cleaned())
    ensures Decode(Encode(c)) == Some(c) <==> c.IsClean()
  {
    CleanedExact(c);
    ReadsCleaned(c);
  }

  lemma ReadsCleaned(c: Coins)
    requires Storable(c) && !c.IsPruned()
    ensures Decode(Encode(c)) == Some(c.Cleaned())
  {
    hide ReadMask, ReadOuts, MaskTokens, OutTokens, MaskAvail, Padded, Code, ByteUsed, Storable, Trim;
    var n := MaskLen(c, |c.vout|);
    var used := UsedFrom(c, 0, n);
    var s := Encode(c);
    var mask, outs, last := MaskTokens(c, 0, n), OutTokens(c, 0), [Num(c.nHeight)];
    SomethingThere(c);
    CodeParts(c, used);
    assert s[2..] == mask + (outs + last);
    MaskRoundTrip(c, 0, n, outs + last);
    forall k | 2 + 8 * n <= k ensures !c.IsAvailable(k) {
      if c.IsAvailable(k) { MaskCovers(c, k); }
    }
    Availabilities(c, n);
    OutsRoundTrip(c, 0, [c.IsAvailable(0), c.IsAvailable(1)] + MaskAvail(c, 0, n), last);
    PaddedTrims(c, 2 + 8 * n);
  }

  /** The first record that the documentation spells out: only the second output is left. */
  lemma FirstExample(script: seq<nat>)
    ensures var c := Coins(false, [NullOut, TxOut(60000000000, script)], 203998, 1);
      Storable(c) && Encode(c) == [Num(1), Num(4), Out(600, script), Num(203998)]
  {
    hide Compress;
    KnownAmounts();
    var c := Coins(false, [NullOut, TxOut(60000000000, script)], 203998, 1);
    assert !ByteUsed(c, 0) && !ByteUsed(c, 1);
    assert MaskLen(c, 2) == 0;
    assert OutTokens(c, 2) == [];
    assert OutTokens(c, 1) == [Out(600, script)];
  }

  predicate OnlyAt(c: Coins, i: nat, j: nat) {
    forall k: nat :: k < |c.vout| ==> (c.vout[k].IsNull() <==> k != i && k != j)
  }

  /** The second: a coinbase record with the outputs 4 and 16 left, so that the mask is 0x04 0x40. */
  lemma SecondExample(c: Coins)
    requires c.fCoinBase && |c.vout| == 17 && OnlyAt(c, 4, 16) && Storable(c) && c.nVersion == 1 && c.nHeight == 120891
    ensures Encode(c) == [Num(1), Num(9), Byte(4), Byte(64), OutToken(c.vout[4]), OutToken(c.vout[16]), Num(120891)]
  {
    hide Compress;
    assert InByte(c, 0, 2) && InByte(c, 1, 6);
    assert forall b: nat, k: nat :: InByte(c, b, k) && k < 8 ==> (b == 0 && k == 2) || (b == 1 && k == 6);
    assert MaskSize(c, 2);
    MaskLenIs(c, 2);
    assert UsedFrom(c, 0, 2) == 2;
    SecondMask(c);
    assert MaskTokens(c, 0, 2) == [Byte(4), Byte(64)];
    SecondOuts(c);
  }

  lemma SecondMask(c: Coins)
    requires |c.vout| == 17 && OnlyAt(c, 4, 16)
    ensures MaskBits(c, 0, 8) == 4 && MaskBits(c, 1, 8) == 64
  {
    OneBit(c, 0, 8, 2);
    OneBit(c, 1, 8, 6);
  }

  /** A byte with one output left has one bit set. */
  lemma {:induction false} OneBit(c: Coins, b: nat, i: nat, k: nat)
    requires i <= 8 && k < 8 && forall j: nat :: j < 8 ==> (InByte(c, b, j) <==> j == k)
    ensures MaskBits(c, b, i) == if k < i then Mask(k) else 0
  {
    hide InByte, Mask;
    if i > 0 {
      OneBit(c, b, i - 1, k);
      OrNothing(MaskBits(c, b, i - 1));
      OrNothing(Mask(k));
      OrInto(Mask(k));
    }
  }

  lemma OrInto(b: bv8)
    ensures 0 | b == b
  {
  }

  lemma SecondOuts(c: Coins)
    requires |c.vout| == 17 && OnlyAt(c, 4, 16) && Storable(c)
    ensures OutTokens(c, 0) == [OutToken(c.vout[4]), OutToken(c.vout[16])]
  {
    hide OutToken;
    SkipTo(c, 17, 17);
    SkipTo(c, 5, 16);
    SkipTo(c, 0, 4);
    assert OutTokens(c, 16) == [OutToken(c.vout[16])];
    assert OutTokens(c, 4) == [OutToken(c.vout[4])] + OutTokens(c, 5);
  }

  /** Spent outputs write nothing. */
  lemma {:induction false} SkipTo(c: Coins, i: nat, j: nat)
    requires Storable(c) && i <= j <= |c.vout| && forall k :: i <= k < j ==> c.vout[k].IsNull()
    ensures OutTokens(c, i) == OutTokens(c, j)
    decreases j - i
  {
    if i < j {
      SkipTo(c, i + 1, j);
      assert [] + OutTokens(c, i + 1) == OutTokens(c, i + 1);
    }
  }

  //////////////////////////////////////////////////////////////////////////////
  // The code
  //////////////////////////////////////////////////////////////////////////////

  lemma MaskBitsNext(c: Coins, b: nat, i: nat)
    requires i < 8
    ensures MaskBits(c, b, i + 1) == MaskBits(c, b, i) | (if InByte(c, b, i) then Mask(i) else 0) && MaskBits(c, b, 0) == 0
  {
  }

  method SerializeMaskByte(c: Coins, b: nat) returns (chAvail: bv8)
    ensures chAvail == MaskBits(c, b, 8)
  {
    hide MaskBits, Mask;
    chAvail := 0;
    var i := 0;
    MaskBitsNext(c, b, 0);
    while i < 8 && 2 + b * 8 + i < |c.vout|
      invariant 0 <= i <= 8 && chAvail == MaskBits(c, b, i)
    {
      MaskBitsNext(c, b, i);
      if !c.vout[2 + b * 8 + i].IsNull() {
        chAvail := chAvail | Mask(i);
      } else {
        OrNothing(chAvail);
      }
      i := i + 1;
    }
    MaskRest(c, b, i);
  }

  lemma {:induction false} MaskRest(c: Coins, b: nat, i: nat)
    requires i <= 8 && forall k :: i <= k < 8 ==> !InByte(c, b, k)
    ensures MaskBits(c, b, 8) == MaskBits(c, b, i)
    decreases 8 - i
  {
    hide InByte, Mask;
    if i < 8 {
      MaskRest(c, b, i + 1);
      OrNothing(MaskBits(c, b, i));
    }
  }

  lemma {:induction false} MaskTokensSnoc(c: Coins, b: nat, n: nat)
    requires b <= n
    ensures MaskTokens(c, b, n + 1) == MaskTokens(c, b, n) + [Byte(MaskBits(c, b + (n - b), 8))]
    decreases n - b
  {
    hide MaskBits;
    if b < n {
      MaskTokensSnoc(c, b + 1, n);
      assert b + (n - b) == b + 1 + (n - (b + 1));
    }
  }

  method SerializeMask(c: Coins, nMaskSize: nat) returns (s: seq<Token>)
    ensures s == MaskTokens(c, 0, nMaskSize)
  {
    hide MaskBits;
    s := [];
    for b := 0 to nMaskSize
      invariant s == MaskTokens(c, 0, b)
    {
      var chAvail := SerializeMaskByte(c, b);
      MaskTokensSnoc(c, 0, b);
      s := s + [Byte(chAvail)];
    }
  }

  method SerializeOuts(c: Coins) returns (s: seq<Token>)
    requires Storable(c)
    ensures s == OutTokens(c, 0)
  {
    hide Compress;
    s := [];
    for i := 0 to |c.vout|
      invariant s + OutTokens(c, i) == OutTokens(c, 0)
    {
      if !c.vout[i].IsNull() {
        var nVal := CompressAmount(c.vout[i].nValue);
        s := s + [Out(nVal, c.vout[i].script)];
      }
    }
    assert s + [] == s;
  }

  method Serialize(c: Coins) returns (s: seq<Token>)
    requires Storable(c) && !c.IsPruned()
    ensures s == Encode(c)
  {
    hide MaskTokens, OutTokens, UsedFrom, MaskSize;
    var nMaskSize, nMaskCode := CalcMaskSize(c);
    MaskLenIs(c, nMaskSize);
    SomethingThere(c);
    var fFirst := |c.vout| > 0 && !c.vout[0].IsNull();
    var fSecond := |c.vout| > 1 && !c.vout[1].IsNull();
    assert fFirst || fSecond || nMaskCode != 0;
    var nCode := 8 * (nMaskCode - if fFirst || fSecond then 0 else 1)
      + (if c.fCoinBase then 1 else 0) + (if fFirst then 2 else 0) + (if fSecond then 4 else 0);
    var mask := SerializeMask(c, nMaskSize);
    var outs := SerializeOuts(c);
    s := [Num(c.nVersion), Num(nCode)] + mask + outs + [Num(c.nHeight)];
  }

  method UnserializeMask(s: seq<Token>, nMaskCode: nat) returns (ok: bool, vAvail: seq<bool>, rest: seq<Token>)
    ensures ReadMask(s, nMaskCode) == if ok then Some((vAvail, rest)) else None
  {
    hide BitsOf;
    var n := nMaskCode;
    vAvail, rest := [], s;
    Nothing(ReadMask(s, nMaskCode));
    while n > 0
      invariant ReadMask(s, nMaskCode) == Prepend(vAvail, ReadMask(rest, n))
      decreases |rest|
    {
      if |rest| == 0 || !rest[0].Byte? {
        return false, [], rest;
      }
      var chAvail := rest[0].b;
      MoreBefore(vAvail, BitsOf(chAvail), ReadMask(rest[1..], if chAvail != 0 then n - 1 else n));
      var bits := UnserializeByte(chAvail);
      vAvail := vAvail + bits;
      rest := rest[1..];
      if chAvail != 0 {
        n := n - 1;
      }
    }
    assert vAvail + [] == vAvail;
    ok := true;
  }

  method UnserializeByte(chAvail: bv8) returns (bits: seq<bool>)
    ensures bits == BitsOf(chAvail)
  {
    hide BitOf;
    bits := [];
    for p := 0 to 8
      invariant bits == BitsOf(chAvail)[..p]
    {
      bits := bits + [BitOf(chAvail, p)];
    }
  }

  lemma Nothing<T>(r: Option<(seq<T>, seq<Token>)>)
    ensures Prepend([], r) == r
  {
    if r.Some? {
      assert [] + r.value.0 == r.value.0;
    }
  }

  lemma MoreBefore<T>(a: seq<T>, b: seq<T>, r: Option<(seq<T>, seq<Token>)>)
    ensures Prepend(a, Prepend(b, r)) == Prepend(a + b, r)
  {
    if r.Some? {
      assert a + (b + r.value.0) == a + b + r.value.0;
    }
  }

  method UnserializeOuts(s: seq<Token>, vAvail: seq<bool>) returns (ok: bool, vout: seq<TxOut>, rest: seq<Token>)
    ensures ReadOuts(s, vAvail) == if ok then Some((vout, rest)) else None
  {
    hide Decompress;
    vout, rest := [], s;
    assert vAvail[0..] == vAvail;
    Nothing(ReadOuts(s, vAvail));
    var i := 0;
    while i < |vAvail|
      invariant 0 <= i <= |vAvail|
      invariant ReadOuts(s, vAvail) == Prepend(vout, ReadOuts(rest, vAvail[i..]))
    {
      assert vAvail[i..][1..] == vAvail[i + 1..];
      var o := NullOut;
      if vAvail[i] {
        if |rest| == 0 || !rest[0].Out? {
          return false, [], rest;
        }
        var nVal := DecompressAmount(rest[0].nVal);
        o := TxOut(AsInt64(nVal), rest[0].script);
        MoreBefore(vout, [o], ReadOuts(rest[1..], vAvail[i + 1..]));
        rest := rest[1..];
      } else {
        MoreBefore(vout, [o], ReadOuts(rest, vAvail[i + 1..]));
      }
      vout := vout + [o];
      i := i + 1;
    }
    assert vAvail[i..] == [] && vout + [] == vout;
    ok := true;
  }

  method Unserialize(s: seq<Token>) returns (r: Option<Coins>)
    ensures r == Decode(s)
  {
    hide ReadMask, ReadOuts, Trim, Decompress;
    if |s| < 2 || !s[0].Num? || !s[1].Num? || s[1].n < 0 {
      return None;
    }
    var nCode := s[1].n;
    var first, second := nCode / 2 % 2 == 1, nCode / 4 % 2 == 1;
    var nMaskCode := nCode / 8 + if first || second then 0 else 1;
    var ok, mask, rest := UnserializeMask(s[2..], nMaskCode);
    if !ok {
      return None;
    }
    var ok', vout, end := UnserializeOuts(rest, [first, second] + mask);
    if !ok' || |end| == 0 || !end[0].Num? {
      return None;
    }
    vout := Cleanup(vout);
    r := Some(Coins(nCode % 2 == 1, vout, end[0].n, s[0].n));
  }
}
