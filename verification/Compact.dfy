/** The compact form of 256-bit targets: three bytes of mantissa and a byte of size. */
module Compact {
  import opened Bits
  import opened Positional
  import opened Limbs
  import opened Shifts
  import opened ArithUint

  const WIDTH := 8

  //////////////////////////////////////////////////////////////////////////////
  // Powers of 256
  //////////////////////////////////////////////////////////////////////////////

  function Bytes(k: nat): (r: nat)
    ensures r >= 1
  {
    Exp2(8 * k)
  }

  lemma BytesAdd(a: nat, b: nat)
    ensures Bytes(a + b) == Bytes(a) * Bytes(b)
  {
    Exp2Add(8 * a, 8 * b);
  }

  lemma BytesMono(a: nat, b: nat)
    requires a <= b
    ensures Bytes(a) <= Bytes(b)
  {
    Exp2Mono(8 * a, 8 * b);
  }

  lemma SmallBytes()
    ensures Bytes(0) == 1 && Bytes(1) == 0x100 && Bytes(2) == 0x1_0000 && Bytes(3) == 0x100_0000
    ensures Bytes(32) == Pow(B, WIDTH)
  {
    hide Exp2, Pow;
    Exp2One();
    Exp2Add(1, 1);
    Exp2Add(2, 2);
    Exp2Add(4, 4);
    Exp2Add(8, 8);
    Exp2Add(16, 8);
    LimbBase(8);
  }

  //////////////////////////////////////////////////////////////////////////////
  // What a compact number stands for
  //////////////////////////////////////////////////////////////////////////////

  function Word(c: nat): nat { c % 0x80_0000 }
  function SizeOf(c: nat): nat { c / 0x100_0000 }
  predicate SignBit(c: nat) { c / 0x80_0000 % 2 == 1 }

  /** A mantissa times a power of 256, rounded down. */
  function Expand(w: nat, size: nat): (r: nat) {
    if size <= 3 then
      NotNegative(w, Bytes(3 - size));
      w / Bytes(3 - size)
    else w * Bytes(size - 3)
  }

  /** A byte of size, a bit of sign and 23 bits of mantissa: any such three are those of the number they make up. */
  lemma FieldsOf(c: nat, size: nat, negative: bool, w: nat)
    requires c == 16777216 * size + (if negative then 8388608 else 0) + w && w < 8388608
    ensures SizeOf(c) == size && SignBit(c) == negative && Word(c) == w
  {
    var bit := if negative then 1 else 0;
    IsRemainder(w, 0x80_0000, 2 * size + bit, c);
    IsRemainder(0x80_0000 * bit + w, 0x100_0000, size, c);
    assert c / 0x80_0000 == 2 * size + bit;
  }

  /** The mantissa is moved by bytes, to the left of its three or to the right, where it is cut off. */
  lemma ExpandExact(w: nat, size: nat)
    ensures size <= 3 ==> Expand(w, size) * Exp2(24 - 8 * size) <= w < (Expand(w, size) + 1) * Exp2(24 - 8 * size)
    ensures size >= 3 ==> Expand(w, size) == w * Exp2(8 * size - 24)
  {
    hide Exp2;
    if size <= 3 {
      var m := Bytes(3 - size);
      assert m == Exp2(24 - 8 * size);
      DivBelow(w, w / m + 1, m);
      assert w == w / m * m + w % m;
    }
    if size == 3 {
      assert Exp2(0) == 1 by { SmallBytes(); }
    }
  }

  /** The overflow flag, as the code computes it from the mantissa. */
  predicate Overflows(w: nat, size: nat) {
    w != 0 && (size > 34 || (w > 0xff && size > 33) || (w > 0xffff && size > 32))
  }

  /** The flag is set exactly if the number does not fit into 256 bits. */
  lemma OverflowExact(w: nat, size: nat)
    requires w < 0x80_0000 && size > 3
    ensures Overflows(w, size) <==> Expand(w, size) >= Pow(B, WIDTH)
  {
    hide Pow, Bytes;
    SmallBytes();
    BytesAdd(3, 29);
    if size <= 32 {
      BytesMono(size - 3, 29);
      MulMono(w, 0x80_0000, Bytes(size - 3), Bytes(29));
    } else if size == 33 {
      BytesAdd(2, 30);
      Threshold(w, 0x1_0000, Bytes(30));
    } else if size == 34 {
      BytesAdd(1, 31);
      Threshold(w, 0x100, Bytes(31));
    } else {
      BytesMono(32, size - 3);
      if w > 0 {
        MulMono(1, w, Bytes(32), Bytes(size - 3));
      }
    }
  }

  lemma Threshold(w: nat, t: nat, p: nat)
    requires p > 0
    ensures w * p >= t * p <==> w >= t
  {
    if w >= t {
      MulMono(t, w, p, p);
    } else {
      MulLess(w, t, p);
      assert p * t == t * p;
    }
  }

  /** Decodes a compact number, and tells whether it is negative or too large. */
  method SetCompact(x: BaseUint, nCompact: nat) returns (fNegative: bool, fOverflow: bool)
    requires x.Valid() && x.pn.Length == WIDTH && nCompact < B
    modifies x.pn
    ensures x.Valid() && x.Value() == Expand(Word(nCompact), SizeOf(nCompact)) % Pow(B, WIDTH)
    ensures fOverflow <==> Expand(Word(nCompact), SizeOf(nCompact)) >= Pow(B, WIDTH)
    ensures fNegative <==> SignBit(nCompact) && Expand(Word(nCompact), SizeOf(nCompact)) != 0
  {
    hide Pow, Bytes, Num, Exp2;
    var nSize, nWord := SizeOf(nCompact), Word(nCompact);
    SmallBytes();
    BytesMono(3, 32);
    BytesIs(if nSize <= 3 then 3 - nSize else nSize - 3);
    if nSize <= 3 {
      Shrinks(nWord, Bytes(3 - nSize));
      nWord := nWord / Exp2(8 * (3 - nSize));
      x.Assign(nWord);
      SmallMod(nWord, Pow(B, WIDTH));
    } else {
      OverflowExact(nWord, nSize);
      x.Assign(nWord);
      x.ShiftLeft(8 * (nSize - 3));
      NonzeroProduct(nWord, Bytes(nSize - 3));
    }
    fNegative := nWord != 0 && SignBit(nCompact);
    fOverflow := Overflows(nWord, nSize);
  }

  lemma BytesIs(k: nat)
    ensures Bytes(k) == Exp2(8 * k)
  {
  }

  lemma Shrinks(w: nat, m: nat)
    requires m > 0
    ensures 0 <= w / m <= w
  {
    NotNegative(w, m);
    var q, r := w / m, w % m;
    assert w == q * m + r;
    MulMono(q, q, 1, m);
  }

  lemma NonzeroProduct(w: nat, m: nat)
    requires m > 0
    ensures w * m == 0 <==> w == 0
  {
    if w > 0 {
      MulMono(1, w, 1, m);
    }
  }

  //////////////////////////////////////////////////////////////////////////////
  // The compact form of a number
  //////////////////////////////////////////////////////////////////////////////

  /** The number of bits. */
  function BitLen(v: nat): (n: nat) {
    if v == 0 then 0 else 1 + BitLen(v / 2)
  }

  lemma {:induction false} BitLenIs(v: nat)
    ensures BitLength(v, BitLen(v))
  {
    if v > 0 {
      BitLenIs(v / 2);
    }
  }

  lemma BitLengthUnique(v: nat, m: nat, n: nat)
    requires BitLength(v, m) && BitLength(v, n)
    ensures m == n
  {
    if m < n {
      Exp2Mono(m, n - 1);
    } else if n < m {
      Exp2Mono(n, m - 1);
    }
  }

  /** The size in bytes, with room for a sign bit. */
  function Size(v: nat): nat { BitLen(v) / 8 + 1 }

  /** A number moved so that its s bytes become three. */
  function Aligned3(v: nat, s: nat): (r: nat) {
    if s <= 3 then v * Bytes(3 - s)
    else
      NotNegative(v, Bytes(s - 3));
      v / Bytes(s - 3)
  }

  function Mantissa(v: nat): nat { Aligned3(v, Size(v)) }

  function Compacted(v: nat): (c: nat) {
    if v == 0 then 0 else Mantissa(v) + 0x100_0000 * Size(v)
  }

  lemma DivBelow(x: nat, p: nat, r: nat)
    requires r > 0
    ensures x < p * r ==> x / r < p
    ensures x >= p * r ==> x / r >= p
  {
    NotNegative(x, r);
    var q := x / r;
    assert x == q * r + x % r;
    if x < p * r {
      DivLess(x, r, p);
    } else if q < p {
      MulMono(q + 1, p, r, r);
      Distribute(r, q, 1);
    }
  }

  lemma DivDiv(x: nat, a: nat, b: nat)
    requires a > 0 && b > 0
    ensures x / a >= 0 && x / a / b == x / (a * b)
  {
    NotNegative(x, a);
    var q, r := x / a, x % a;
    NotNegative(q, b);
    var q', r' := q / b, q % b;
    TwoStageDiv(x, a, r, b, r', q');
  }

  lemma AlignedRange(v: nat, n: nat, s: nat)
    requires BitLength(v, n) && 0 < n && 8 * s <= n + 23
    ensures Exp2(n + 23 - 8 * s) <= Aligned3(v, s) < Exp2(n + 24 - 8 * s)
  {
    hide Exp2, Bytes;
    if s <= 3 {
      BytesIs(3 - s);
      var p := Bytes(3 - s);
      Exp2Add(n, 24 - 8 * s);
      MulLess(v, Exp2(n), p);
      assert p * Exp2(n) == Exp2(n) * p;
      Exp2Add(n - 1, 24 - 8 * s);
      MulMono(Exp2(n - 1), v, p, p);
    } else {
      BytesIs(s - 3);
      var p := Bytes(s - 3);
      Exp2Add(n + 24 - 8 * s, 8 * s - 24);
      DivBelow(v, Exp2(n + 24 - 8 * s), p);
      Exp2Add(n + 23 - 8 * s, 8 * s - 24);
      DivBelow(v, Exp2(n + 23 - 8 * s), p);
    }
  }

  /** One more byte of size divides the mantissa by 256. */
  lemma AlignedNext(v: nat, s: nat)
    ensures Aligned3(v, s) / 0x100 == Aligned3(v, s + 1)
  {
    hide Exp2, Bytes;
    SmallBytes();
    if s < 3 {
      BytesAdd(1, 2 - s);
      MulAssoc(v, 0x100, Bytes(2 - s));
      Swapped(v, Bytes(2 - s), 0x100);
    } else {
      BytesAdd(s - 3, 1);
      DivDiv(v, Bytes(s - 3), 0x100);
      OverOne(v);
    }
  }

  lemma OverOne(v: nat)
    ensures v / 1 == v
  {
  }

  lemma Powers23()
    ensures Exp2(23) == 0x80_0000 && Exp2(24) == 0x100_0000
  {
    hide Exp2;
    Exp2One();
    Exp2Add(1, 1);
    Exp2Add(2, 1);
    Exp2Add(2, 2);
    Exp2Add(4, 3);
    Exp2Add(4, 4);
    Exp2Add(8, 8);
    Exp2Add(16, 7);
    Exp2Add(23, 1);
  }

  /** The mantissa never reaches the sign bit, and always uses its upper 16 bits. */
  lemma MantissaRange(v: nat)
    requires v > 0
    ensures 0x8000 <= Mantissa(v) < 0x80_0000
  {
    hide Exp2, Aligned3;
    BitLenIs(v);
    var n, s := BitLen(v), Size(v);
    AlignedRange(v, n, s);
    Powers23();
    Exp2Mono(n + 24 - 8 * s, 23);
    Exp2Mono(15, n + 23 - 8 * s);
    Exp2Add(15, 8);
    SmallBytes();
    BytesIs(1);
  }

  /** The bit that would be taken for a sign is set exactly if the bits fill whole bytes. */
  lemma SignClash(v: nat, n: nat)
    requires BitLength(v, n) && n > 0
    ensures var s := (n + 7) / 8;
      && Aligned3(v, s) < 0x100_0000
      && (Aligned3(v, s) >= 0x80_0000 <==> n == 8 * s)
      && Size(v) == if n == 8 * s then s + 1 else s
  {
    hide Exp2, Aligned3;
    BitLenIs(v);
    BitLengthUnique(v, n, BitLen(v));
    var s := (n + 7) / 8;
    AlignedRange(v, n, s);
    Powers23();
    if n < 8 * s {
      Exp2Mono(n + 24 - 8 * s, 23);
    }
  }

  lemma AlignedSmall(v: nat, n: nat)
    requires BitLength(v, n) && n <= 24
    ensures v < 0x100_0000
  {
    hide Exp2;
    Powers23();
    Exp2Mono(n, 24);
  }

  /** The compact form with its sign bit; zero has none. */
  function Signed(v: nat, fNegative: bool): nat {
    Compacted(v) + if fNegative && v != 0 then 0x80_0000 else 0
  }

  method GetCompact(x: BaseUint, fNegative: bool) returns (nCompact: nat)
    requires x.Valid() && x.pn.Length == WIDTH
    ensures nCompact == Signed(x.Value(), fNegative) && nCompact < B
  {
    hide Exp2, Num, Bytes, Mantissa, Size;
    var bits := x.Bits();
    ghost var v := x.Value();
    LengthZero(v, bits);
    var nSize := (bits + 7) / 8;
    if bits > 0 {
      SignClash(v, bits);
      MantissaRange(v);
      MantissaIs(v);
      BytesIs(if nSize <= 3 then 3 - nSize else nSize - 3);
    }
    if nSize <= 3 {
      AlignedSmall(v, bits);
      SmallMod(v, UINT64);
      var low := x.GetLow64();
      nCompact := low * Exp2(8 * (3 - nSize));
    } else {
      var bn := new BaseUint.Copy(x);
      bn.ShiftRight(8 * (nSize - 3));
      nCompact := bn.GetLow64();
      SmallMod(Aligned3(v, nSize), UINT64);
    }
    AlignedNext(v, nSize);
    if nCompact >= 0x80_0000 {
      nCompact := nCompact / 0x100;
      nSize := nSize + 1;
    }
    assert nCompact < 0x80_0000 && nSize < 256;
    var sign := if fNegative && nCompact != 0 then 0x80_0000 else 0;
    nCompact := nCompact + 0x100_0000 * nSize + sign;
  }

  lemma MantissaIs(v: nat)
    ensures Mantissa(v) == Aligned3(v, Size(v))
  {
  }

  //////////////////////////////////////////////////////////////////////////////
  // Rounding
  //////////////////////////////////////////////////////////////////////////////

  /** What the compact form of a number stands for. */
  function Rounded(v: nat): nat { Expand(Word(Compacted(v)), SizeOf(Compacted(v))) }

  /** The weight of the lowest bit of the mantissa. */
  function Unit(v: nat): (u: nat)
    ensures u > 0
  {
    if Size(v) <= 3 then 1 else Bytes(Size(v) - 3)
  }

  lemma CompactParts(v: nat)
    requires v > 0
    ensures Word(Compacted(v)) == Mantissa(v) && SizeOf(Compacted(v)) == Size(v) && !SignBit(Compacted(v))
  {
    hide Mantissa, Size;
    MantissaRange(v);
    var m, s, c := Mantissa(v), Size(v), Compacted(v);
    IsRemainder(m, 0x80_0000, 2 * s, c);
    IsRemainder(m, 0x100_0000, s, c);
  }

  /** The sign goes into a bit of its own: it comes back for all numbers but zero, and changes nothing else. */
  lemma SignedParts(v: nat, fNegative: bool)
    ensures Word(Signed(v, fNegative)) == Word(Compacted(v)) && SizeOf(Signed(v, fNegative)) == SizeOf(Compacted(v))
    ensures SignBit(Signed(v, fNegative)) <==> fNegative && v != 0
  {
    if v > 0 {
      hide Mantissa, Size;
      CompactParts(v);
      MantissaRange(v);
      if fNegative {
        SignedWord(Mantissa(v), Size(v));
      }
    }
  }

  lemma SignedWord(m: nat, s: nat)
    requires m < 0x80_0000
    ensures var c := m + 0x100_0000 * s + 0x80_0000; Word(c) == m && SizeOf(c) == s && SignBit(c)
  {
    var c := m + 0x100_0000 * s + 0x80_0000;
    IsRemainder(m, 0x80_0000, 2 * s + 1, c);
    IsRemainder(m + 0x80_0000, 0x100_0000, s, c);
  }

  /** Compacting drops what is below the unit, and nothing else. */
  lemma RoundedIs(v: nat)
    ensures Rounded(v) == v - v % Unit(v)
  {
    hide Bytes, Size;
    if v == 0 {
      SmallMod(0, Unit(0));
      RoundedZero();
    } else {
      CompactParts(v);
      if Size(v) <= 3 {
        IsRemainder(0, Bytes(3 - Size(v)), v, v * Bytes(3 - Size(v)));
        OverOne(v);
      } else {
        var u := Bytes(Size(v) - 3);
        assert v == (v / u) * u + v % u;
      }
    }
  }

  lemma RoundedZero()
    ensures Rounded(0) == 0
  {
    hide Bytes;
    SmallDiv(0, Bytes(3));
  }

  /** Rounding is down, by less than one part in 2^15. */
  lemma RoundsDown(v: nat)
    ensures Rounded(v) <= v && v - Rounded(v) < Unit(v) && (v > 0 ==> v - Rounded(v) == 0 || Unit(v) * 0x8000 <= v)
  {
    hide Bytes, Size, Mantissa;
    RoundedIs(v);
    var u := Unit(v);
    ModRange(v, u);
    if v > 0 && Size(v) > 3 {
      MantissaRange(v);
      MantissaIs(v);
      assert v == (v / u) * u + v % u;
      MulMono(0x8000, v / u, u, u);
    }
  }

  lemma ModRange(v: nat, u: nat)
    requires u > 0
    ensures 0 <= v % u < u && v % u <= v
  {
    NotNegative(v, u);
    var q, r := v / u, v % u;
    assert v == q * u + r;
    MulMono(0, q, u, u);
  }

  /** Rounding keeps the highest bit. */
  lemma RoundedLength(v: nat)
    requires v > 0
    ensures Rounded(v) > 0 && BitLen(Rounded(v)) == BitLen(v)
  {
    hide Bytes, Exp2, Rounded;
    RoundsDown(v);
    BitLenIs(v);
    var n, u, r := BitLen(v), Unit(v), Rounded(v);
    assert Exp2(n - 1) <= r by {
      if Size(v) > 3 {
        BytesIs(Size(v) - 3);
        Exp2Add(n - 1 - (8 * Size(v) - 24), 8 * Size(v) - 24);
        RoundedIs(v);
        FloorKeeps(v, u, Exp2(n - 1 - (8 * Size(v) - 24)));
      }
    }
    BitLenIs(r);
    BitLengthUnique(r, n, BitLen(r));
  }

  /** A multiple of the unit that is at most v is at most v rounded down. */
  lemma FloorKeeps(v: nat, u: nat, k: nat)
    requires u > 0 && k * u <= v
    ensures k * u <= v - v % u
  {
    NotNegative(v, u);
    var q, r := v / u, v % u;
    assert v == q * u + r;
    if q < k {
      Below(u, q, r, k);
    } else {
      MulMono(k, q, u, u);
    }
  }

  lemma SameUnit(v: nat, w: nat)
    requires BitLen(v) == BitLen(w)
    ensures Unit(v) == Unit(w)
  {
  }

  /** Compacting again changes nothing. */
  lemma RoundedIdempotent(v: nat)
    ensures Rounded(Rounded(v)) == Rounded(v)
  {
    hide Bytes, Size, Rounded, Unit, BitLen;
    if v == 0 {
      RoundedZero();
    } else {
      RoundedLength(v);
      SameUnit(v, Rounded(v));
      RoundedIs(v);
      RoundedIs(Rounded(v));
      var u := Unit(v);
      NotNegative(v, u);
      assert v == (v / u) * u + v % u;
      IsRemainder(0, u, v / u, Rounded(v));
    }
  }

  /** Compacting keeps the order. */
  lemma RoundedMonotone(v: nat, w: nat)
    requires v <= w
    ensures Rounded(v) <= Rounded(w)
  {
    hide Bytes, Size, Rounded, Unit, BitLen, Exp2;
    RoundsDown(v);
    RoundsDown(w);
    BitLenIs(v);
    BitLenIs(w);
    if v == 0 {
      RoundedZero();
    } else if BitLen(v) < BitLen(w) {
      Exp2Mono(BitLen(v), BitLen(w) - 1);
      RoundedLength(w);
      BitLenIs(Rounded(w));
    } else {
      if BitLen(v) > BitLen(w) {
        Exp2Mono(BitLen(w), BitLen(v) - 1);
      }
      SameUnit(v, w);
      RoundedIs(v);
      RoundedIs(w);
      var u := Unit(v);
      NotNegative(v, u);
      assert v == (v / u) * u + v % u;
      FloorKeeps(w, u, v / u);
    }
  }
}
