/** Big unsigned integers of a fixed number of 32-bit limbs. */
module ArithUint {
  import opened Bits
  import opened Positional
  import opened Limbs
  import opened Shifts

  class BaseUint {
    const pn: array<nat>

    ghost predicate Valid()
      reads pn
    {
      pn.Length >= 2 && AreLimbs(pn[..])
    }

    ghost function Value(): (r: nat)
      reads pn
    {
      Num(pn[..])
    }

    ghost function Modulus(): (r: nat)
      ensures r > 0
    {
      Pow(B, pn.Length)
    }

    /** A number of the same width, in limbs of its own or the very same number. */
    ghost predicate Fits(b: BaseUint)
      reads pn, b.pn
    {
      Valid() && b.Valid() && b.pn.Length == pn.Length && (b == this || b.pn != pn)
    }

    constructor Zero(width: nat)
      requires width >= 2
      ensures Valid() && Value() == 0 && pn.Length == width && fresh(pn)
    {
      pn := new nat[width](_ => 0);
      new;
      NumZero(pn[..]);
    }

    constructor Copy(b: BaseUint)
      requires b.Valid()
      ensures Valid() && pn[..] == b.pn[..] && fresh(pn)
    {
      pn := new nat[b.pn.Length](i requires 0 <= i < b.pn.Length reads b.pn => b.pn[i]);
      new;
      assert pn[..] == b.pn[..];
    }

    /** Addition modulo the width. */
    method Add(b: BaseUint)
      requires Fits(b)
      modifies pn
      ensures Valid() && Value() == old(Value() + b.Value()) % Modulus()
    {
      hide Num, Pow, Carried;
      ghost var x, y := pn[..], b.pn[..];
      ghost var c := Sum(x, y);
      var carry: nat := 0;
      CarryStart(x, c);
      for i := 0 to pn.Length
        invariant carry <= 1 && Carried(pn[..], c, i, carry)
        invariant forall j :: i <= j < pn.Length ==> pn[j] == x[j] && b.pn[j] == y[j]
        invariant b != this ==> b.pn[..] == y
      {
        CarryOn(pn[..], c, i, carry);
        ghost var was := pn[..];
        var n: nat := carry + pn[i] + b.pn[i];
        assert n < UINT64;
        pn[i] := n % B;
        carry := n / B;
        assert pn[..] == was[i := pn[i]];
      }
      CarryEnd(pn[..], c, carry);
      NumSum(x, y);
    }

    /** The complement: all bits inverted. */
    method Complement() returns (ret: BaseUint)
      requires Valid()
      ensures ret.Valid() && ret.pn.Length == pn.Length && fresh(ret) && fresh(ret.pn)
      ensures ret.pn[..] == Flipped(pn[..]) && ret.Value() == Modulus() - 1 - Value()
    {
      hide Num, Pow;
      ret := new BaseUint.Zero(pn.Length);
      for i := 0 to pn.Length
        invariant forall j :: 0 <= j < i ==> ret.pn[j] == B - 1 - pn[j]
      {
        ret.pn[i] := B - 1 - pn[i];
      }
      NumFlipped(pn[..]);
      assert ret.pn[..] == Flipped(pn[..]);
    }

    /** Adds one, stopping at the first limb that does not overflow. */
    method Increment()
      requires Valid()
      modifies pn
      ensures Valid() && Value() == (old(Value()) + 1) % Modulus()
    {
      hide Num, Pow, Carried;
      ghost var x := pn[..];
      ghost var c := x[0 := x[0] + 1];
      NumBump(x);
      CarryStart(x, c);
      CarryOn(x, c, 0, 0);
      var i := 0;
      pn[0] := (pn[0] + 1) % B;
      assert pn[..] == x[0 := pn[0]];
      while pn[i] == 0 && i < pn.Length - 1
        invariant 0 <= i < pn.Length && Carried(pn[..], c, i + 1, if pn[i] == 0 then 1 else 0)
        invariant forall j :: i < j < pn.Length ==> pn[j] == x[j]
      {
        CarryOn(pn[..], c, i + 1, 1);
        ghost var was := pn[..];
        i := i + 1;
        pn[i] := (pn[i] + 1) % B;
        assert pn[..] == was[i := pn[i]];
      }
      if pn[i] == 0 {
        CarryEnd(pn[..], c, 1);
      } else {
        assert pn[..][i + 1..] == c[i + 1..];
        CarryStop(pn[..], c, i + 1);
      }
    }

    /** The additive inverse. */
    method Negate() returns (ret: BaseUint)
      requires Valid()
      ensures ret.Valid() && ret.pn.Length == pn.Length && fresh(ret) && fresh(ret.pn)
      ensures ret.Value() == (Modulus() - Value()) % Modulus()
    {
      ret := Complement();
      ret.Increment();
    }

    /** Subtraction modulo the width. */
    method Sub(b: BaseUint)
      requires Fits(b)
      modifies pn
      ensures Valid() && Value() == old(Value() - b.Value()) % Modulus()
    {
      hide Num, Pow;
      ghost var x, y := Value(), b.Value();
      NumBound(b.pn[..]);
      var neg := b.Negate();
      Add(neg);
      AddNegated(x, y, Modulus());
    }

    /** Multiplication by a 32-bit number, modulo the width. */
    method MulSmall(b32: nat)
      requires Valid() && b32 < B
      modifies pn
      ensures Valid() && Value() == old(Value()) * b32 % Modulus()
    {
      hide Num, Pow, Carried, Times;
      ghost var x := pn[..];
      ghost var c := Scale(x, b32);
      var carry: nat := 0;
      CarryStart(x, c);
      for i := 0 to pn.Length
        invariant carry < B && Carried(pn[..], c, i, carry)
        invariant forall j :: i <= j < pn.Length ==> pn[j] == x[j]
      {
        var lo, hi := MulLimb(carry, b32, pn[i], 0);
        CarryBy(pn[..], c, i, carry, lo, hi);
        ghost var was := pn[..];
        pn[i], carry := lo, hi;
        assert pn[..] == was[i := lo];
      }
      CarryEnd(pn[..], c, carry);
      NumScale(x, b32);
    }

    /** One row of the product: adds a limb times b, from limb j on; what is carried out at the top is dropped. */
    method MulRow(j: nat, f: nat, b: BaseUint, ghost y: seq<nat>, ghost k: nat, ghost x: nat) returns (ghost k': nat)
      requires Fits(b) && j < pn.Length && f < B && b.pn[..] == y && Reaches(pn[..], y, k, x)
      requires b == this ==> forall i :: 0 <= i < pn.Length ==> pn[i] == 0
      modifies pn
      ensures Valid() && b.pn[..] == y && Reaches(pn[..], y, k', x + Pow(B, j) * f)
      ensures b == this ==> forall i :: 0 <= i < pn.Length ==> pn[i] == 0
    {
      hide Num, Pow, Carried, Times, Reaches;
      ghost var was := pn[..];
      ghost var c := RowDigits(was, y, j, f);
      NumRowDigits(was, y, j, f);
      var carry: nat := 0;
      CarryStart(was[j..], c);
      var i := 0;
      while i + j < pn.Length
        invariant 0 <= i <= pn.Length - j && AreLimbs(pn[..]) && b.pn[..] == y && carry < B
        invariant Carried(pn[..][j..], c, i, carry)
        invariant forall h :: 0 <= h < pn.Length && !(j <= h < i + j) ==> pn[h] == was[h]
        invariant b == this ==> carry == 0 && forall h :: 0 <= h < pn.Length ==> pn[h] == 0
      {
        var lo, hi := MulLimb(carry, f, b.pn[i], pn[i + j]);
        if b == this {
          NoProduct(f);
        }
        CarryBy(pn[..][j..], c, i, carry, lo, hi);
        ghost var now := pn[..];
        pn[i + j], carry := lo, hi;
        assert pn[..] == now[i + j := lo] && pn[..][j..] == now[j..][i := lo];
        i := i + 1;
      }
      CarryExact(pn[..][j..], c, carry);
      k' := RowAdds(was, pn[..], y, j, f, carry, k, x);
    }

    /** Multiplication modulo the width; a number cannot be multiplied by itself in place. */
    method Mul(b: BaseUint)
      requires Fits(b)
      modifies pn
      ensures Valid() && Value() == if b == this then 0 else old(Value() * b.Value()) % Modulus()
    {
      hide Num, Pow, Reaches;
      var a := pn[..];
      ghost var bv := b.Value();
      SetZero();
      ghost var y := b.pn[..];
      ghost var k := 0;
      assert a[..0] == [];
      NothingReached(pn[..], y);
      for j := 0 to pn.Length
        invariant Fits(b) && b.pn[..] == y && Reaches(pn[..], y, k, Num(a[..j]))
        invariant b == this ==> forall i :: 0 <= i < pn.Length ==> pn[i] == 0
      {
        NumTake(a, j);
        k := MulRow(j, a[j], b, y, k, Num(a[..j]));
      }
      assert a[..pn.Length] == a;
      if b == this {
        NumZero(pn[..]);
      } else {
        Reached(pn[..], y, k, Num(a));
      }
    }

    method SetZero()
      requires Valid()
      modifies pn
      ensures Valid() && Value() == 0 && forall i :: 0 <= i < pn.Length ==> pn[i] == 0
    {
      for i := 0 to pn.Length
        invariant forall j :: 0 <= j < i ==> pn[j] == 0
      {
        pn[i] := 0;
      }
      NumZero(pn[..]);
    }

    /** Shifting left multiplies by a power of two, modulo the width. */
    method ShiftLeft(shift: nat)
      requires Valid()
      modifies pn
      ensures Valid() && Value() == old(Value()) * Exp2(shift) % Modulus()
    {
      hide Num, Pow, Exp2, Lo, Hi, Or;
      var a := pn[..];
      SetZero();
      var k, s := shift / 32, shift % 32;
      for i := 0 to pn.Length
        invariant forall j :: 0 <= j < pn.Length ==> pn[j] == PartShl(a, k, s, i, j)
      {
        HiIs(a[i], s);
        if i > 0 {
          HiIs(a[i - 1], s);
        }
        if i + k + 1 < pn.Length && s != 0 {
          OrZero(Hi(a[i], s));
          pn[i + k + 1] := Or(pn[i + k + 1], a[i] / Exp2(32 - s));
        }
        if i + k < pn.Length {
          LimbOr(if i > 0 then Hi(a[i - 1], s) else 0, a[i], s);
          pn[i + k] := Or(pn[i + k], Lo(a[i], s));
        }
        Exp2One();
      }
      assert pn[..] == Shl(a, k, s);
      NumShl(a, k, s);
    }

    /** Shifting right divides by a power of two, rounding down. */
    method ShiftRight(shift: nat)
      requires Valid()
      modifies pn
      ensures Valid() && Value() == old(Value()) / Exp2(shift)
    {
      hide Num, Pow, Exp2, Kept, Moved, Or;
      var a := pn[..];
      SetZero();
      var k, s := shift / 32, shift % 32;
      for i := 0 to pn.Length
        invariant forall j :: 0 <= j < pn.Length ==> pn[j] == PartShr(a, k, s, i, j)
      {
        if i > 0 {
          KeptRange(a[i - 1], a[i], s);
        }
        MovedIs(a[i], s);
        MovedNone(a[i]);
        if i - k - 1 >= 0 && s != 0 {
          pn[i - k - 1] := Or(pn[i - k - 1], a[i] * Exp2(32 - s) % B);
        }
        if i - k >= 0 {
          OrZero(Kept(a[i], s));
          pn[i - k] := Or(pn[i - k], a[i] / Exp2(s));
          KeptIs(a[i], s);
        }
      }
      assert pn[..] == Shr(a, k, s);
      NumShr(a, k, s);
    }

    /** The order of the numbers. */
    method CompareTo(b: BaseUint) returns (c: int)
      requires Fits(b)
      ensures c == if Value() < b.Value() then -1 else if Value() > b.Value() then 1 else 0
    {
      hide Num;
      var i := pn.Length - 1;
      while i >= 0
        invariant -1 <= i < pn.Length && forall j :: i < j < pn.Length ==> pn[j] == b.pn[j]
      {
        if pn[i] < b.pn[i] {
          HigherLimb(pn[..], b.pn[..], i);
          return -1;
        }
        if pn[i] > b.pn[i] {
          HigherLimb(b.pn[..], pn[..], i);
          return 1;
        }
        i := i - 1;
      }
      assert pn[..] == b.pn[..];
      return 0;
    }

    /** The place of the highest bit set plus one, or zero. */
    method Bits() returns (n: nat)
      requires Valid()
      ensures BitLength(Value(), n) && n <= 32 * pn.Length
    {
      hide Num, Exp2;
      var pos := pn.Length - 1;
      while pos >= 0
        invariant -1 <= pos < pn.Length && forall j :: pos < j < pn.Length ==> pn[j] == 0
      {
        if pn[pos] != 0 {
          var bits := 31;
          Exp2Of32();
          while bits > 0
            invariant 0 <= bits <= 31 && pn[pos] < Exp2(bits + 1)
          {
            TopBit(pn[pos], bits);
            if BitAt(pn[pos], bits) {
              LimbLength(pn[..], pos, bits + 1);
              return 32 * pos + bits + 1;
            }
            bits := bits - 1;
          }
          Exp2One();
          LimbLength(pn[..], pos, 1);
          return 32 * pos + 1;
        }
        pos := pos - 1;
      }
      NumZero(pn[..]);
      Exp2One();
      return 0;
    }

    /** Sets a bit above which alone bits are set. */
    method SetBit(e: nat, ghost h: nat)
      requires Valid() && e < 32 * pn.Length && Value() == h * Exp2(e + 1)
      modifies pn
      ensures Valid() && Value() == old(Value()) + Exp2(e)
    {
      hide Num, Exp2, Or;
      SetClearBit(pn[..], h, e);
      ghost var was := pn[..];
      pn[e / 32] := Or(pn[e / 32], Exp2(e % 32));
      assert pn[..] == was[e / 32 := was[e / 32] + Exp2(e % 32)];
    }

    /** One place of the long division: subtracts if it fits, and shifts the divisor back. */
    method DivStep(num: BaseUint, div: BaseUint, shift: nat, ghost n: nat, ghost d: nat, ghost h: nat) returns (ghost h': nat)
      requires Apart(num, div) && shift < 32 * pn.Length && Dividing(Value(), num.Value(), n, d, h, shift + 1)
      requires div.Value() == d * Exp2(shift)
      modifies pn, num.pn, div.pn
      ensures Apart(num, div) && Dividing(Value(), num.Value(), n, d, h', shift)
      ensures shift > 0 ==> div.Value() == d * Exp2(shift - 1)
    {
      hide Num, Exp2, Pow;
      ghost var q, r := Value(), num.Value();
      DivideOn(q, r, n, d, h, shift);
      NumBound(num.pn[..]);
      h' := 2 * h;
      var c := num.CompareTo(div);
      if c >= 0 {
        num.Sub(div);
        SmallMod(r - d * Exp2(shift), Modulus());
        SetBit(shift, h);
        h' := 2 * h + 1;
      }
      div.ShiftRight(1);
      Exp2One();
      if shift > 0 {
        Exp2Next(shift - 1);
        HalfAgain(d, Exp2(shift - 1));
      }
    }

    /** Three numbers of the same width, each in limbs of its own. */
    ghost predicate Apart(a: BaseUint, b: BaseUint)
      reads pn, a.pn, b.pn
    {
      && Valid() && a.Valid() && b.Valid() && a.pn.Length == b.pn.Length == pn.Length
      && a != b && a != this && b != this && a.pn != b.pn && a.pn != pn && b.pn != pn
    }

    /** The quotient, rounded down; the remainder is left in num. Dividing by zero fails. */
    method Div(b: BaseUint) returns (ok: bool, num: BaseUint)
      requires Fits(b)
      modifies pn
      ensures Valid() && num.Valid() && num.pn.Length == pn.Length
      ensures ok == (old(b.Value()) != 0) && (!ok ==> Value() == 0)
      ensures ok ==> Value() == old(Value() / b.Value()) && num.Value() == old(Value() % b.Value())
    {
      hide Num, Exp2, Pow;
      ghost var n, d := Value(), b.Value();
      var div := new BaseUint.Copy(b);
      num := new BaseUint.Copy(this);
      SetZero();
      var numBits := num.Bits();
      var divBits := div.Bits();
      LengthZero(d, divBits);
      if divBits == 0 {
        return false, num;
      }
      ok := true;
      if divBits > numBits {
        Shorter(n, numBits, d, divBits);
        return;
      }
      var shift := numBits - divBits;
      Aligned(n, numBits, d, divBits, pn.Length);
      SmallMod(d * Exp2(shift), Modulus());
      div.ShiftLeft(shift);
      ghost var h := 0;
      while shift >= 0
        invariant -1 <= shift < 32 * pn.Length && Apart(num, div) && fresh(num.pn) && fresh(div.pn)
        invariant Dividing(Value(), num.Value(), n, d, h, shift + 1) && (shift >= 0 ==> div.Value() == d * Exp2(shift))
      {
        h := DivStep(num, div, shift, n, d, h);
        shift := shift - 1;
      }
      Divided(Value(), num.Value(), n, d, h);
    }

    /** Assigns a 64-bit number. */
    method Assign(b64: nat)
      requires Valid() && b64 < UINT64
      modifies pn
      ensures Valid() && Value() == b64
    {
      hide Num;
      SetZero();
      pn[0], pn[1] := b64 % B, b64 / B;
      TwoLimbs(pn[..]);
    }

    method GetLow64() returns (r: nat)
      requires Valid()
      ensures r == Value() % UINT64
    {
      hide Num;
      r := pn[0] + B * pn[1];
      LowTwo(pn[..]);
    }

    method EqualTo(b64: nat) returns (r: bool)
      requires Valid() && b64 < UINT64
      ensures r == (Value() == b64)
    {
      hide Num;
      var i := pn.Length - 1;
      while i >= 2
        invariant 1 <= i < pn.Length && forall j :: i < j < pn.Length ==> pn[j] == 0
      {
        if pn[i] != 0 {
          LargeLimb(pn[..], i);
          return false;
        }
        i := i - 1;
      }
      TwoLimbs(pn[..]);
      if pn[1] != b64 / B {
        return false;
      }
      if pn[0] != b64 % B {
        return false;
      }
      return true;
    }
  }

  /** One 64-bit product, with a carry and a limb added, split into its halves. */
  method MulLimb(carry: nat, a: nat, b: nat, d: nat) returns (lo: nat, hi: nat)
    requires a < B && b < B && carry < B && d < B
    ensures lo < B && hi < B && carry + d + Times(b, a) == lo + B * hi
  {
    var n := carry + d + a * b;
    LimbProduct(a, b, carry, d);
    assert n < UINT64;
    lo, hi := n % B, n / B;
  }

  /** In the middle of a long division: the quotient so far has only bits from e on, and the rest is below the divisor there. */
  ghost predicate Dividing(q: nat, r: nat, n: nat, d: nat, h: nat, e: nat) {
    q == h * Exp2(e) && r + q * d == n && r < d * Exp2(e)
  }

  lemma DivideOn(q: nat, r: nat, n: nat, d: nat, h: nat, shift: nat)
    requires Dividing(q, r, n, d, h, shift + 1)
    ensures r < d * Exp2(shift) ==> Dividing(q, r, n, d, 2 * h, shift)
    ensures r >= d * Exp2(shift) ==> Dividing(q + Exp2(shift), r - d * Exp2(shift), n, d, 2 * h + 1, shift)
  {
    hide Exp2;
    Exp2Next(shift);
    var p := Exp2(shift);
    MulAssoc(h, 2, p);
    MulAssoc(d, 2, p);
    Distribute(p, 2 * h, 1);
    Distribute(d, q, p);
  }

  lemma LengthZero(x: nat, n: nat)
    requires BitLength(x, n)
    ensures n == 0 <==> x == 0
  {
    Exp2One();
  }

  lemma Shorter(n: nat, nb: nat, d: nat, db: nat)
    requires BitLength(n, nb) && BitLength(d, db) && nb < db
    ensures d > 0 && n / d == 0 && n % d == n
  {
    Exp2Mono(nb, db - 1);
    IsRemainder(n, d, 0, n);
  }

  /** With the highest bits aligned, the divisor still fits and one more place would exceed the number. */
  lemma Aligned(n: nat, nb: nat, d: nat, db: nat, width: nat)
    requires BitLength(n, nb) && BitLength(d, db) && 0 < db <= nb <= 32 * width
    ensures d * Exp2(nb - db) < Pow(B, width) && Dividing(0, n, n, d, 0, nb - db + 1)
  {
    hide Exp2, Pow;
    var s := nb - db;
    Exp2Add(db, s);
    Exp2Add(db - 1, s + 1);
    MulLess(d, Exp2(db), Exp2(s));
    assert Exp2(s) * Exp2(db) == Exp2(db) * Exp2(s);
    MulMono(Exp2(db - 1), d, Exp2(s + 1), Exp2(s + 1));
    Exp2Mono(nb, 32 * width);
    LimbBase(width);
  }

  lemma Divided(q: nat, r: nat, n: nat, d: nat, h: nat)
    requires Dividing(q, r, n, d, h, 0)
    ensures d > 0 && q == n / d && r == n % d
  {
    Exp2One();
    IsRemainder(r, d, q, n);
  }

  lemma TwoLimbs(s: seq<nat>)
    requires |s| >= 2 && forall i :: 2 <= i < |s| ==> s[i] == 0
    ensures Num(s) == s[0] + B * s[1]
  {
    hide Num, Pow;
    LowLimbs(s, 2);
    NumTake(s, 1);
    NumTake(s, 0);
    NumNone();
    assert s[..0] == [];
    PowNext(B, 0);
  }

  lemma LowTwo(s: seq<nat>)
    requires |s| >= 2 && AreLimbs(s)
    ensures Num(s) % UINT64 == s[0] + B * s[1]
  {
    hide Num, Pow;
    assert s == s[..2] + s[2..];
    NumConcat(s[..2], s[2..]);
    TwoLimbs(s[..2]);
    PowNext(B, 0);
    PowNext(B, 1);
    IsRemainder(s[0] + B * s[1], UINT64, Num(s[2..]), Num(s));
  }

  lemma LargeLimb(s: seq<nat>, i: nat)
    requires 2 <= i < |s| && s[i] > 0
    ensures Num(s) >= UINT64
  {
    hide Num, Pow;
    assert s == s[..i + 1] + s[i + 1..];
    NumConcat(s[..i + 1], s[i + 1..]);
    NumTake(s, i);
    PowNext(B, 0);
    PowNext(B, 1);
    PowMono(B, 2, i);
    MulMono(Pow(B, i), Pow(B, i), 1, s[i]);
  }

  lemma HalfAgain(d: nat, p: nat)
    ensures d * (2 * p) / 2 == d * p
  {
    assert d * (2 * p) == 2 * (d * p);
  }

  /** Limb j after the first i limbs have been shifted left. */
  function PartShl(a: seq<nat>, k: nat, s: nat, i: nat, j: nat): nat
    requires i <= |a| && j < |a|
  {
    if j < i + k then ShlLimb(a, k, s, j) else if j == i + k && i > 0 then Hi(a[i - 1], s) else 0
  }

  /** Limb j after the first i limbs have been shifted right. */
  function PartShr(a: seq<nat>, k: nat, s: nat, i: nat, j: nat): nat
    requires i <= |a| && s <= 32
  {
    (if j + k < i then Kept(a[j + k], s) else 0) + (if j + k + 1 < i then Moved(a[j + k + 1], s) else 0)
  }

  lemma OrZero(x: nat)
    ensures Or(0, x) == x
  {
  }

  lemma KeptIs(x: nat, s: nat)
    ensures Kept(x, s) == x / Exp2(s)
  {
  }

  lemma MovedNone(x: nat)
    ensures Moved(x, 0) == 0
  {
  }

  lemma NoProduct(f: nat)
    ensures Times(0, f) == 0
  {
  }

  lemma NothingReached(now: seq<nat>, y: seq<nat>)
    requires forall i :: 0 <= i < |now| ==> now[i] == 0
    ensures Reaches(now, y, 0, Num([]))
  {
    NumZero(now);
    NumNone();
  }

  lemma Reached(now: seq<nat>, y: seq<nat>, k: nat, x: nat)
    requires AreLimbs(now) && Reaches(now, y, k, x)
    ensures Num(now) == x * Num(y) % Pow(B, |now|)
  {
    hide Num, Pow;
    NumBound(now);
    IsRemainder(Num(now), Pow(B, |now|), k, x * Num(y));
  }

  lemma AddNegated(x: int, y: int, m: nat)
    requires 0 <= y < m
    ensures (x + (m - y) % m) % m == (x - y) % m
  {
    if y > 0 {
      assert (m - y) % m == m - y by { SmallMod(m - y, m); }
      ShiftMod(x - y, m);
    } else {
      ShiftMod(0, m);
      assert 0 % m == 0;
    }
  }

  lemma ShiftMod(x: int, m: nat)
    requires m > 0
    ensures (x + m) % m == x % m
  {
    var q, r := x / m, x % m;
    assert x + m == (q + 1) * m + r;
    ModUnique(x + m, m, q + 1, r);
  }

  lemma ModUnique(x: int, m: nat, q: int, r: nat)
    requires m > 0 && r < m && x == q * m + r
    ensures x % m == r && x / m == q
  {
    var q', r' := x / m, x % m;
    assert q * m + r == q' * m + r';
    if q < q' {
      assert (q + 1) * m <= q' * m by { IntMono(q + 1, q', m); }
    } else if q' < q {
      assert (q' + 1) * m <= q * m by { IntMono(q' + 1, q, m); }
    }
  }

  lemma IntMono(a: int, b: int, m: nat)
    requires a <= b
    ensures a * m <= b * m
  {
  }

  /** A product of limbs and two more limbs fit into 64 bits. */
  lemma LimbProduct(a: nat, b: nat, c: nat, d: nat)
    requires a < B && b < B && c < B && d < B
    ensures a * b + c + d < UINT64 && (a * b + c + d) / B < B
  {
    MulMono(a, B - 1, b, B - 1);
  }
}
