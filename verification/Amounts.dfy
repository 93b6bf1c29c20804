/** The compact form of amounts: a decimal mantissa and exponent. */
module Amounts {
  import opened Bits
  import opened Money
  import opened Positional

  /** An amount as a mantissa times a power of ten; the exponent is as large as it can be, up to nine. */
  datatype Decimal = Decimal(m: nat, e: nat) {
    predicate Valid() { m > 0 && e <= 9 && (e < 9 ==> m % 10 != 0) }
    function Value(): nat { m * Pow(10, e) }
  }

  function Split(n: nat, e: nat): (r: Decimal)
    requires n > 0 && e <= 9
    ensures r.Valid()
  {
    if n % 10 == 0 && e < 9 then Split(n / 10, e + 1) else Decimal(n, e)
  }

  function Encode(d: Decimal): nat
    requires d.Valid()
  {
    if d.e < 9 then 1 + (d.m / 10 * 9 + d.m % 10 - 1) * 10 + d.e else 1 + (d.m - 1) * 10 + 9
  }

  function Decode(x: nat): (d: Decimal)
    requires x > 0
    ensures d.Valid()
  {
    var e, y := (x - 1) % 10, (x - 1) / 10;
    if e < 9 then Decimal(y / 9 * 10 + y % 9 + 1, e) else Decimal(y + 1, e)
  }

  function Compress(n: nat): nat { if n == 0 then 0 else Encode(Split(n, 0)) }
  function Decompress(x: nat): nat { if x == 0 then 0 else Decode(x).Value() }

  lemma DecodeEncode(d: Decimal)
    requires d.Valid()
    ensures Encode(d) > 0 && Decode(Encode(d)) == d
  {
    var y := if d.e < 9 then d.m / 10 * 9 + d.m % 10 - 1 else d.m - 1;
    var x := Encode(d) - 1;
    SameDivision(10, y, d.e, x / 10, x % 10);
    if d.e < 9 {
      SameDivision(9, d.m / 10, d.m % 10 - 1, y / 9, y % 9);
    }
  }

  lemma EncodeDecode(x: nat)
    requires x > 0
    ensures Encode(Decode(x)) == x
  {
  }

  lemma {:induction false} SplitValue(n: nat, e: nat)
    requires n > 0 && e <= 9
    ensures Split(n, e).Value() == n * Pow(10, e)
  {
    hide Pow;
    if n % 10 == 0 && e < 9 {
      SplitValue(n / 10, e + 1);
      PowNext(10, e);
      MulAssoc(n / 10, 10, Pow(10, e));
    }
  }

  /** The decimal form is the only one of its value. */
  lemma SplitUnique(d: Decimal)
    requires d.Valid()
    ensures d.Value() > 0 && Split(d.Value(), 0) == d
  {
    hide Pow;
    PowNext(10, 0);
    MulMono(1, d.m, 1, Pow(10, d.e));
    SplitDown(d, d.e);
  }

  lemma {:induction false} SplitDown(d: Decimal, k: nat)
    requires d.Valid() && k <= d.e
    ensures d.m * Pow(10, k) > 0 && Split(d.m * Pow(10, k), d.e - k) == d
  {
    hide Pow;
    PowNext(10, 0);
    if k > 0 {
      SplitDown(d, k - 1);
      PowNext(10, k - 1);
      var n := d.m * Pow(10, k - 1);
      assert d.m * Pow(10, k) == 10 * n by { MulAssoc(d.m, 10, Pow(10, k - 1)); MulAssoc(10, d.m, Pow(10, k - 1)); }
    }
  }

  /** Compression is one to one on all amounts. */
  lemma DecompressCompress(n: nat)
    ensures Decompress(Compress(n)) == n
  {
    hide Pow;
    if n > 0 {
      DecodeEncode(Split(n, 0));
      SplitValue(n, 0);
      PowNext(10, 0);
    }
  }

  /** And every number is the compressed form of some amount. */
  lemma CompressDecompress(x: nat)
    ensures Compress(Decompress(x)) == x
  {
    hide Pow;
    if x > 0 {
      SplitUnique(Decode(x));
      EncodeDecode(x);
    }
  }

  /** What the compact form of a mantissa and an exponent is. */
  lemma CompressOf(m: nat, e: nat, n: nat)
    requires Decimal(m, e).Valid() && n == m * Pow(10, e)
    ensures Compress(n) == if e < 9 then 10 * (m / 10 * 9 + m % 10 - 1) + e + 1 else 10 * m
  {
    hide Pow;
    SplitUnique(Decimal(m, e));
  }

  lemma Tens()
    ensures Pow(10, 0) == 1 && Pow(10, 6) == 1000000 && Pow(10, 8) == 100000000 && Pow(10, 9) == 1000000000
  {
    assert Pow(10, 3) == 1000;
    assert Pow(10, 6) == 1000000;
    assert Pow(10, 8) == 100000000;
  }

  /** The amounts that the documentation and the tests of the compact form list. */
  lemma KnownAmounts()
    ensures Compress(0) == 0 && Compress(1) == 1 && Compress(1000000) == 7 && Compress(100000000) == 9
    ensures Compress(5000000000) == 50 && Compress(2100000000000000) == 21000000
    ensures Compress(60000000000) == 600 && Compress(110397) == 993571
  {
    assert Compress(0) == 0;
    hide Compress, Pow;
    Tens();
    CompressOf(1, 0, 1);
    CompressOf(1, 6, 1000000);
    CompressOf(1, 8, 100000000);
    CompressOf(5, 9, 5000000000);
    CompressOf(2100000, 9, 2100000000000000);
    CompressOf(60, 9, 60000000000);
    CompressOf(110397, 0, 110397);
  }

  lemma {:induction false} SplitBelow(n: nat, e: nat)
    requires n > 0 && e <= 9
    ensures Split(n, e).m <= n && (Split(n, e).e > e ==> 10 * Split(n, e).m <= n)
  {
    if n % 10 == 0 && e < 9 {
      SplitBelow(n / 10, e + 1);
    }
  }

  /** No amount of money overflows 64 bits. */
  lemma CompressFits(n: nat)
    requires n <= MAX_MONEY
    ensures Compress(n) <= 9 * n + 10 < UINT64
  {
    if n > 0 {
      SplitBelow(n, 0);
    }
  }

  method CompressAmount(nAmount: nat) returns (x: nat)
    requires nAmount < UINT64
    ensures x == Compress(nAmount) % UINT64
  {
    if nAmount == 0 {
      return 0;
    }
    var n, e := nAmount, 0;
    while n % 10 == 0 && e < 9
      invariant n > 0 && 0 <= e <= 9 && Split(n, e) == Split(nAmount, 0)
      decreases 9 - e
    {
      n := n / 10;
      e := e + 1;
    }
    if e < 9 {
      var d := n % 10;
      assert d >= 1 && d <= 9;
      n := n / 10;
      x := (1 + (n * 9 + d - 1) * 10 + e) % UINT64;
    } else {
      x := (1 + (n - 1) * 10 + 9) % UINT64;
    }
  }

  method DecompressAmount(nAmount: nat) returns (n: nat)
    requires nAmount < UINT64
    ensures n == Decompress(nAmount) % UINT64
  {
    hide Pow;
    if nAmount == 0 {
      return 0;
    }
    var x := nAmount - 1;
    var e := x % 10;
    x := x / 10;
    if e < 9 {
      var d := x % 9 + 1;
      x := x / 9;
      n := x * 10 + d;
    } else {
      n := x + 1;
    }
    ghost var d := Decode(nAmount);
    PowNext(10, 0);
    Fits(n);
    while e > 0
      invariant 0 <= e <= d.e && n == d.m * Pow(10, d.e - e) % UINT64
    {
      PowNext(10, d.e - e);
      TimesTen(d.m, Pow(10, d.e - e));
      n := n * 10 % UINT64;
      e := e - 1;
    }
  }

  lemma Fits(n: nat)
    requires n < UINT64
    ensures n % UINT64 == n
  {
  }

  lemma TimesTen(m: nat, p: nat)
    ensures m * p % UINT64 * 10 % UINT64 == m * (10 * p) % UINT64
  {
    var x := m * p;
    assert m * (10 * p) == 10 * x by { MulAssoc(m, 10, p); MulAssoc(10, m, p); }
    var y := x % UINT64 * 10;
    IsRemainder(y % UINT64, UINT64, y / UINT64 + 10 * (x / UINT64), 10 * x);
  }
}
