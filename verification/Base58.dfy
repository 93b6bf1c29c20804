/** Base 58 text and the bytes it stands for. */
module Base58 {
  import opened Positional

  const LOW := "123456789" + "ABCDEFGH"
  const MID := "JKLMN" + "PQRSTUVWXYZ"
  const HIGH := "abcdefghijk" + "mnopqrstuvwxyz"
  const PSZ_BASE58 := LOW + MID + HIGH

  //////////////////////////////////////////////////////////////////////////////
  // The alphabet
  //////////////////////////////////////////////////////////////////////////////

  predicate Ascending(s: string) {
    forall i :: 0 < i < |s| ==> s[i - 1] < s[i]
  }

  /** Ascending, of a given length, between two characters. */
  predicate Runs(s: string, n: nat, first: char, last: char) {
    |s| == n > 0 && s[0] == first && s[n - 1] == last && Ascending(s)
  }

  lemma Joined(s: string, t: string, m: nat, n: nat, a: char, b: char, c: char, d: char)
    requires Runs(s, m, a, b) && Runs(t, n, c, d) && b < c
    ensures Runs(s + t, m + n, a, d)
  {
  }

  lemma LowRuns()
    ensures Runs(LOW, 17, '1', 'H')
  {
    Joined("123456789", "ABCDEFGH", 9, 8, '1', '9', 'A', 'H');
  }

  lemma MidRuns()
    ensures Runs(MID, 16, 'J', 'Z')
  {
    Joined("JKLMN", "PQRSTUVWXYZ", 5, 11, 'J', 'N', 'P', 'Z');
  }

  lemma HighRuns()
    ensures Runs(HIGH, 25, 'a', 'z')
  {
    Joined("abcdefghijk", "mnopqrstuvwxyz", 11, 14, 'a', 'k', 'm', 'z');
  }

  lemma Alphabet()
    ensures Runs(PSZ_BASE58, 58, '1', 'z')
  {
    LowRuns();
    MidRuns();
    HighRuns();
    Joined(LOW, MID, 17, 16, '1', 'H', 'J', 'Z');
    Joined(LOW + MID, HIGH, 33, 25, '1', 'Z', 'a', 'z');
  }

  /** Where a character first occurs, or the length. */
  function IndexOf(s: string, c: char): (i: nat)
    ensures i <= |s| && (i < |s| ==> s[i] == c)
  {
    if s == "" || s[0] == c then 0 else 1 + IndexOf(s[1..], c)
  }

  lemma {:induction false} AscendingOrder(s: string, i: nat)
    requires Ascending(s) && 0 < i < |s|
    ensures s[0] < s[i]
  {
    if i > 1 {
      AscendingOrder(s, i - 1);
    }
  }

  lemma {:induction false} IndexOfAt(s: string, i: nat)
    requires Ascending(s) && i < |s|
    ensures IndexOf(s, s[i]) == i
  {
    if i > 0 {
      AscendingOrder(s, i);
      IndexOfAt(s[1..], i - 1);
    }
  }

  predicate InAlphabet(c: char) { IndexOf(PSZ_BASE58, c) < 58 }

  function Digit(c: char): nat { IndexOf(PSZ_BASE58, c) }

  function Char(d: nat): (c: char)
    requires d < 58
  {
    Alphabet();
    PSZ_BASE58[d]
  }

  /** Digits and characters of the alphabet are in one-to-one correspondence; none of them is a space. */
  lemma CharDigit(d: nat)
    requires d < 58
    ensures Digit(Char(d)) == d && InAlphabet(Char(d)) && Char(d) >= '1'
  {
    Alphabet();
    IndexOfAt(PSZ_BASE58, d);
    if d > 0 {
      AscendingOrder(PSZ_BASE58, d);
    }
  }

  lemma DigitChar(c: char)
    requires InAlphabet(c)
    ensures Digit(c) < 58 && Char(Digit(c)) == c && c >= '1'
  {
    Alphabet();
    CharDigit(Digit(c));
  }

  lemma OneIsZero(c: char)
    ensures c == '1' <==> InAlphabet(c) && Digit(c) == 0
  {
    Alphabet();
    IndexOfAt(PSZ_BASE58, 0);
  }

  /** Six runs of consecutive characters. */
  lemma CharIs(d: nat)
    requires d < 58
    ensures Char(d) as int == d + (if d < 9 then 49 else if d < 17 then 56 else if d < 22 then 57 else if d < 33 then 58 else if d < 44 then 64 else 65)
  {
    Alphabet();
    LowRuns();
    MidRuns();
    if d < 17 {
      assert Char(d) == LOW[d];
    } else if d < 33 {
      assert Char(d) == MID[d - 17];
    } else {
      assert Char(d) == HIGH[d - 33];
    }
  }

  /** The alphabet is all digits and letters but 0, I, O and l. */
  lemma AlphabetExactly(c: char)
    ensures InAlphabet(c) <==> ('1' <= c <= '9' || 'A' <= c <= 'Z' || 'a' <= c <= 'z') && c != 'I' && c != 'O' && c != 'l'
  {
    if InAlphabet(c) {
      DigitChar(c);
      CharIs(Digit(c));
    } else if ('1' <= c <= '9' || 'A' <= c <= 'Z' || 'a' <= c <= 'z') && c != 'I' && c != 'O' && c != 'l' {
      var d := c as int - (if c <= '9' then 49 else if c < 'I' then 56 else if c < 'O' then 57 else if c <= 'Z' then 58 else if c < 'l' then 64 else 65);
      CharIs(d);
      CharDigit(d);
      assert false;
    }
  }

  predicate AllIn(w: string) { forall i :: 0 <= i < |w| ==> InAlphabet(w[i]) }

  function DigitsOf(w: string): (r: seq<nat>)
    ensures |r| == |w| && forall i :: 0 <= i < |w| ==> r[i] == Digit(w[i])
  {
    seq(|w|, i requires 0 <= i < |w| => Digit(w[i]))
  }

  //////////////////////////////////////////////////////////////////////////////
  // What text stands for
  //////////////////////////////////////////////////////////////////////////////

  function LeadZeros(s: seq<nat>): nat { |s| - |Stripped(s)| }

  /** A word and bytes with as many leading zeros and the same value. */
  ghost predicate Represents(w: string, v: seq<nat>) {
    && AllIn(w) && Digits(256, v)
    && LeadZeros(DigitsOf(w)) == LeadZeros(v)
    && Val(58, DigitsOf(w)) == Val(256, v)
  }

  function Zeros(n: nat): seq<nat> { seq(n, _ => 0) }

  lemma Parts(s: seq<nat>)
    ensures s == Zeros(LeadZeros(s)) + Stripped(s)
  {
  }

  /** Leading zeros and the value determine the digits. */
  lemma SameDigits(b: nat, s: seq<nat>, t: seq<nat>)
    requires b > 1 && Digits(b, s) && Digits(b, t) && LeadZeros(s) == LeadZeros(t) && Val(b, s) == Val(b, t)
    ensures s == t
  {
    hide Val, Stripped, LeadZeros, Zeros;
    ValStripped(b, s);
    ValStripped(b, t);
    CanonicalUnique(b, Stripped(s), Stripped(t));
    Parts(s);
    Parts(t);
  }

  lemma OneWord(w: string, x: string, v: seq<nat>)
    requires Represents(w, v) && Represents(x, v)
    ensures w == x
  {
    forall i | 0 <= i < |w| ensures Digit(w[i]) < 58 && Char(Digit(w[i])) == w[i] { DigitChar(w[i]); }
    forall i | 0 <= i < |x| ensures Digit(x[i]) < 58 && Char(Digit(x[i])) == x[i] { DigitChar(x[i]); }
    SameDigits(58, DigitsOf(w), DigitsOf(x));
    forall i | 0 <= i < |w| ensures w[i] == x[i] {
      assert DigitsOf(w)[i] == DigitsOf(x)[i];
    }
  }

  lemma OneMeaning(w: string, u: seq<nat>, v: seq<nat>)
    requires Represents(w, u) && Represents(w, v)
    ensures u == v
  {
    SameDigits(256, u, v);
  }

  //////////////////////////////////////////////////////////////////////////////
  // The buffers suffice
  //////////////////////////////////////////////////////////////////////////////

  function DecodeSize(m: nat): (n: nat)
    ensures 1000 * (n - 1) <= 733 * m < 1000 * n
  {
    m * 733 / 1000 + 1
  }

  function EncodeSize(m: nat): (n: nat)
    ensures 100 * (n - 1) <= 138 * m < 100 * n
  {
    m * 138 / 100 + 1
  }

  lemma Powers58()
    ensures Pow(58, 1) == 58
    ensures Pow(58, 2) == 3364
    ensures Pow(58, 3) == 195112
    ensures Pow(58, 4) == 11316496
    ensures Pow(58, 5) == 656356768
    ensures Pow(58, 6) == 38068692544
    ensures Pow(58, 7) == 2207984167552
    ensures Pow(58, 8) == 128063081718016
    ensures Pow(58, 9) == 7427658739644928
    ensures Pow(58, 10) == 430804206899405824
    ensures Pow(58, 11) == 24986644000165537792
    ensures Pow(58, 12) == 1449225352009601191936
    ensures Pow(58, 13) == 84055070416556869132288
    ensures Pow(58, 14) == 4875194084160298409672704
    ensures Pow(58, 15) == 282761256881297307761016832
  {
    hide Pow;
    PowNext(58, 0);
    PowNext(58, 1);
    PowNext(58, 2);
    PowNext(58, 3);
    PowNext(58, 4);
    PowNext(58, 5);
    PowNext(58, 6);
    PowNext(58, 7);
    PowNext(58, 8);
    PowNext(58, 9);
    PowNext(58, 10);
    PowNext(58, 11);
    PowNext(58, 12);
    PowNext(58, 13);
    PowNext(58, 14);
  }

  lemma Powers256()
    ensures Pow(256, 1) == 256
    ensures Pow(256, 2) == 65536
    ensures Pow(256, 3) == 16777216
    ensures Pow(256, 4) == 4294967296
    ensures Pow(256, 5) == 1099511627776
    ensures Pow(256, 6) == 281474976710656
    ensures Pow(256, 7) == 72057594037927936
    ensures Pow(256, 8) == 18446744073709551616
    ensures Pow(256, 9) == 4722366482869645213696
    ensures Pow(256, 10) == 1208925819614629174706176
    ensures Pow(256, 11) == 309485009821345068724781056
    ensures Pow(256, 12) == 79228162514264337593543950336
    ensures Pow(256, 13) == 20282409603651670423947251286016
  {
    hide Pow;
    PowNext(256, 0);
    PowNext(256, 1);
    PowNext(256, 2);
    PowNext(256, 3);
    PowNext(256, 4);
    PowNext(256, 5);
    PowNext(256, 6);
    PowNext(256, 7);
    PowNext(256, 8);
    PowNext(256, 9);
    PowNext(256, 10);
    PowNext(256, 11);
    PowNext(256, 12);
  }

  /** Small blocks, most of the way to the next whole byte. */
  lemma Small58(b: nat)
    requires b < 15
    ensures Pow(58, b) <= Pow(256, SmallSize(b))
  {
    hide Pow;
    PowNext(58, 0);
    PowNext(256, 0);
    Powers58();
    Powers256();
  }

  lemma Block15()
    ensures Pow(58, 15) <= Pow(256, 11)
  {
    hide Pow;
    Powers58();
    Powers256();
  }

  lemma Block71()
    ensures Pow(58, 71) <= Pow(256, 52)
  {
    hide Pow;
    Powers58();
    PowAdd(58, 15, 15);
    assert Pow(58, 30) == 79953928393091004080532279173738402825689466587316224;
    PowAdd(58, 30, 30);
    assert Pow(58, 60) == 6392630665487523829925705590507004456832030712891733088851577912861189652777515686114891080333114973618176;
    PowAdd(58, 60, 11);
    assert Pow(58, 71) == 159730386663078066345306447337161584696769904898410078913243029577507397293846405390982563136983769384625594118558891106107392;
    Powers256();
    PowAdd(256, 13, 13);
    assert Pow(256, 26) == 411376139330301510538742295639337626245683966408394965837152256;
    PowAdd(256, 26, 26);
    assert Pow(256, 52) == 169230328010303641331690318856389386196071598838855992136870091590247882556495704531248437872567112920983350278405979725889536;
  }

  function SmallSize(b: nat): nat { b * 733 / 1000 + if b == 0 then 0 else 1 }

  /** The bytes allocated exceed what is needed by a margin that four blocks of 15 do not use up. */
  lemma Margin(b: nat)
    requires 0 < b < 15
    ensures (b * 733) % 1000 >= 20
  {
  }

  lemma WholePart(x: nat, n: nat)
    requires x >= 1000 * n
    ensures x / 1000 >= n
  {
  }

  lemma SizesAdd(q: nat, a: nat, b: nat)
    requires a <= 4 && b < 15
    ensures 52 * q + 11 * a + SmallSize(b) <= DecodeSize(71 * q + 15 * a + b)
  {
    var t, n := (71 * q + 15 * a + b) * 733, 52 * q + 11 * a;
    if b == 0 {
      assert t + 1000 >= 1000 * n;
      WholePart(t + 1000, n);
    } else {
      Margin(b);
      assert t >= 1000 * (n + b * 733 / 1000);
      WholePart(t, n + b * 733 / 1000);
    }
  }

  lemma Product3(a: nat, b: nat, c: nat, x: nat, y: nat, z: nat)
    requires a <= x && b <= y && c <= z
    ensures a * b * c <= x * y * z
  {
    MulMono(a, x, b, y);
    MulMono(a * b, x * y, c, z);
  }

  lemma PowAdd3(b: nat, m: nat, n: nat, k: nat)
    ensures Pow(b, m + n + k) == Pow(b, m) * Pow(b, n) * Pow(b, k)
  {
    PowAdd(b, m, n);
    PowAdd(b, m + n, k);
  }

  /** Any m digits of base 58 fit into the bytes allocated for them. */
  lemma DecodeFits(m: nat)
    ensures Pow(58, m) <= Pow(256, DecodeSize(m))
  {
    hide Pow;
    var q, r := m / 71, m % 71;
    var a, b := r / 15, r % 15;
    Block71();
    BlocksFit(58, 71, 256, 52, q);
    Block15();
    BlocksFit(58, 15, 256, 11, a);
    Small58(b);
    PowAdd3(58, 71 * q, 15 * a, b);
    PowAdd3(256, 52 * q, 11 * a, SmallSize(b));
    Product3(Pow(58, 71 * q), Pow(58, 15 * a), Pow(58, b), Pow(256, 52 * q), Pow(256, 11 * a), Pow(256, SmallSize(b)));
    SizesAdd(q, a, b);
    PowMono(256, 52 * q + 11 * a + SmallSize(b), DecodeSize(m));
  }

  lemma Small256(r: nat)
    requires r < 8
    ensures Pow(256, r) <= Pow(58, EncodeSize(r))
  {
    hide Pow;
    PowNext(256, 0);
    Powers58();
    Powers256();
  }

  lemma EncodeSizesAdd(q: nat, r: nat)
    ensures 11 * q + EncodeSize(r) <= EncodeSize(8 * q + r)
  {
  }

  /** Any m bytes fit into the base 58 digits allocated for them. */
  lemma EncodeFits(m: nat)
    ensures Pow(256, m) <= Pow(58, EncodeSize(m))
  {
    hide Pow;
    var q, r := m / 8, m % 8;
    assert Pow(256, 8) <= Pow(58, 11) by { Powers58(); Powers256(); }
    BlocksFit(256, 8, 58, 11, q);
    Small256(r);
    PowAdd(256, 8 * q, r);
    PowAdd(58, 11 * q, EncodeSize(r));
    MulMono(Pow(256, 8 * q), Pow(58, 11 * q), Pow(256, r), Pow(58, EncodeSize(r)));
    EncodeSizesAdd(q, r);
    PowMono(58, 11 * q + EncodeSize(r), EncodeSize(m));
  }

  //////////////////////////////////////////////////////////////////////////////
  // Encoding
  //////////////////////////////////////////////////////////////////////////////

  lemma {:induction false} LeadIs(s: seq<nat>, z: nat)
    requires z <= |s| && (forall i :: 0 <= i < z ==> s[i] == 0) && (z < |s| ==> s[z] != 0)
    ensures LeadZeros(s) == z && Stripped(s) == s[z..]
  {
    if z > 0 {
      LeadIs(s[1..], z - 1);
    }
  }

  lemma ValTail(b: nat, s: seq<nat>, z: nat)
    requires z <= |s| && (forall i :: 0 <= i < z ==> s[i] == 0) && (z < |s| ==> s[z] != 0)
    ensures Val(b, s[z..]) == Val(b, s)
  {
    LeadIs(s, z);
    ValStripped(b, s);
  }

  /** Skips the leading zeros. */
  method SkipZeros(s: seq<nat>) returns (z: nat)
    ensures z <= |s| && (forall i :: 0 <= i < z ==> s[i] == 0) && (z < |s| ==> s[z] != 0)
  {
    z := 0;
    while z < |s| && s[z] == 0
      invariant z <= |s| && forall i :: 0 <= i < z ==> s[i] == 0
    {
      z := z + 1;
    }
  }

  /** Takes in one more digit; the carry never runs out of a buffer that is large enough. */
  method TakeDigit(a: array<nat>, newBase: nat, base: nat, ghost before: seq<nat>, d: nat)
    requires base > 0 && newBase > 0 && Digits(base, before) && d < base && Digits(newBase, a[..])
    requires Val(newBase, a[..]) == Val(base, before) && Pow(base, |before| + 1) <= Pow(newBase, a.Length)
    modifies a
    ensures Digits(newBase, a[..]) && Val(newBase, a[..]) == Val(base, before + [d])
  {
    hide Val, Pow;
    ValSnoc(base, before, d);
    var carry := MulAdd(a, newBase, base, d);
    ValBound(base, before + [d]);
    NoCarry(newBase, carry, a[..]);
    assert carry == 0;
  }

  /** Rewrites bytes in base 58. */
  method ToBase58(digits: seq<nat>) returns (a: array<nat>)
    requires Digits(256, digits)
    ensures fresh(a) && Digits(58, a[..]) && Val(58, a[..]) == Val(256, digits)
  {
    hide Val, Pow;
    a := new nat[EncodeSize(|digits|)](_ => 0);
    EncodeFits(|digits|);
    ValZeros(58, a[..]);
    ValZeros(256, []);
    assert digits[..0] == [];
    for k := 0 to |digits|
      invariant Digits(58, a[..]) && Val(58, a[..]) == Val(256, digits[..k])
    {
      assert digits[..k + 1] == digits[..k] + [digits[k]];
      PowMono(256, k + 1, |digits|);
      TakeDigit(a, 58, 256, digits[..k], digits[k]);
    }
    assert digits[..|digits|] == digits;
  }

  lemma {:induction false} ValZeros(b: nat, s: seq<nat>)
    requires forall i :: 0 <= i < |s| ==> s[i] == 0
    ensures Val(b, s) == 0
  {
    if s != [] {
      ValZeros(b, s[..|s| - 1]);
    }
  }

  lemma Encoded(vch: seq<nat>, z: nat, b58: seq<nat>, it: nat, str: string)
    requires Digits(256, vch) && Digits(58, b58) && Val(58, b58) == Val(256, vch)
    requires z <= |vch| && (forall i :: 0 <= i < z ==> vch[i] == 0) && (z < |vch| ==> vch[z] != 0)
    requires it <= |b58| && (forall i :: 0 <= i < it ==> b58[i] == 0) && (it < |b58| ==> b58[it] != 0)
    requires |str| == z + |b58| - it && forall i :: 0 <= i < |str| ==> str[i] == if i < z then '1' else Char(b58[it + i - z])
    ensures Represents(str, vch)
  {
    hide Val, Stripped;
    var ds := DigitsOf(str);
    forall i | 0 <= i < |str| ensures InAlphabet(str[i]) && ds[i] == if i < z then 0 else b58[it + i - z] {
      if i < z {
        OneIsZero('1');
      } else {
        CharDigit(b58[it + i - z]);
      }
    }
    LeadIs(vch, z);
    LeadIs(ds, z);
    assert ds[z..] == b58[it..];
    ValTail(58, ds, z);
    ValTail(58, b58, it);
  }

  method EncodeBase58(vch: seq<nat>) returns (str: string)
    requires Digits(256, vch)
    ensures Represents(str, vch)
  {
    hide Val, Pow, Char, Represents;
    var zeroes := SkipZeros(vch);
    ValTail(256, vch, zeroes);
    var b58 := ToBase58(vch[zeroes..]);
    var it := SkipZeros(b58[..]);
    ghost var start := it;
    str := seq(zeroes, _ => '1');
    while it < b58.Length
      invariant start <= it <= b58.Length && |str| == zeroes + it - start
      invariant forall i :: 0 <= i < |str| ==> str[i] == if i < zeroes then '1' else Char(b58[start + i - zeroes])
    {
      str := str + [Char(b58[it])];
      it := it + 1;
    }
    Encoded(vch, zeroes, b58[..], start, str);
  }

  //////////////////////////////////////////////////////////////////////////////
  // Decoding
  //////////////////////////////////////////////////////////////////////////////

  predicate IsSpace(c: char) {
    c == ' ' || c == '\t' || c == '\n' || c == '\r' || c as int == 11 || c as int == 12
  }

  /** Exactly the six white-space characters. */
  lemma SpaceExactly(c: char)
    ensures IsSpace(c) <==> c as int == 32 || 9 <= c as int <= 13
  {
  }

  predicate AllSpace(s: string) { forall i :: 0 <= i < |s| ==> IsSpace(s[i]) }

  /** The characters up to the terminating zero. */
  function CString(s: string): (r: string)
    ensures r <= s && (|r| < |s| ==> s[|r|] == '\0') && forall i :: 0 <= i < |r| ==> r[i] != '\0'
  {
    if s == "" || s[0] == '\0' then "" else [s[0]] + CString(s[1..])
  }

  /** The first place from i on with, or without, a space; or the end. */
  function Find(s: string, i: nat, space: bool): (r: nat)
    requires i <= |s|
    ensures i <= r <= |s| && (r < |s| ==> IsSpace(s[r]) == space) && forall j :: i <= j < r ==> IsSpace(s[j]) != space
    decreases |s| - i
  {
    if i == |s| || IsSpace(s[i]) == space then i else Find(s, i + 1, space)
  }

  /** The first word of a text. */
  function Word(s: string): (w: string) {
    var a := Find(s, 0, false);
    s[a..Find(s, a, true)]
  }

  /** Nothing but spaces comes after the first word, and the word is in the alphabet. */
  predicate Decodable(s: string) {
    AllIn(Word(s)) && AllSpace(s[Find(s, Find(s, 0, false), true)..])
  }

  lemma {:induction false} FindIs(s: string, i: nat, space: bool, r: nat)
    requires i <= r <= |s| && (r < |s| ==> IsSpace(s[r]) == space) && forall j :: i <= j < r ==> IsSpace(s[j]) != space
    ensures Find(s, i, space) == r
    decreases r - i
  {
    if i < r {
      FindIs(s, i + 1, space, r);
    }
  }

  lemma NotSpaces(w: string)
    requires AllIn(w)
    ensures forall i :: 0 <= i < |w| ==> !IsSpace(w[i]) && w[i] != '\0'
  {
    hide IndexOf;
    forall i | 0 <= i < |w| ensures !IsSpace(w[i]) && w[i] != '\0' { DigitChar(w[i]); }
  }

  /** A word of the alphabet between spaces. */
  predicate Between(s: string, l: string, w: string, r: string) {
    s == l + w + r && AllSpace(l) && AllSpace(r) && AllIn(w)
  }

  lemma WordBetween(s: string, l: string, w: string, r: string)
    requires Between(s, l, w, r)
    ensures Decodable(s) && Word(s) == w
  {
    hide InAlphabet, IsSpace;
    NotSpaces(w);
    if w == "" {
      FindIs(s, 0, false, |s|);
      FindIs(s, |s|, true, |s|);
    } else {
      FindIs(s, 0, false, |l|);
      FindIs(s, |l|, true, |l| + |w|);
      assert s[|l|..|l| + |w|] == w && s[|l| + |w|..] == r;
    }
  }

  /** Decodable text is exactly a word of the alphabet between spaces, and only one word. */
  lemma DecodableExact(s: string)
    ensures Decodable(s) <==> exists l, w, r :: Between(s, l, w, r)
    ensures forall l, w, r :: Between(s, l, w, r) ==> w == Word(s)
  {
    hide InAlphabet, IsSpace;
    if Decodable(s) {
      var a := Find(s, 0, false);
      assert Between(s, s[..a], Word(s), s[Find(s, a, true)..]);
    }
    forall l, w, r | Between(s, l, w, r) ensures Decodable(s) && w == Word(s) {
      WordBetween(s, l, w, r);
    }
  }

  lemma Decoded(w: string, z: nat, b256: seq<nat>, it: nat)
    requires AllIn(w) && Digits(256, b256) && z <= |w| && Val(256, b256) == Val(58, DigitsOf(w[z..]))
    requires (forall i :: 0 <= i < z ==> w[i] == '1') && (z < |w| ==> w[z] != '1')
    requires it <= |b256| && (forall i :: 0 <= i < it ==> b256[i] == 0) && (it < |b256| ==> b256[it] != 0)
    ensures Represents(w, Zeros(z) + b256[it..])
  {
    hide Val, Stripped, Digit, InAlphabet;
    var ds, v := DigitsOf(w), Zeros(z) + b256[it..];
    forall i | 0 <= i <= z && i < |w| ensures ds[i] == 0 <==> i < z {
      OneIsZero(w[i]);
    }
    LeadIs(ds, z);
    LeadIs(v, z);
    assert ds[z..] == DigitsOf(w[z..]) && v[z..] == b256[it..];
    ValTail(58, ds, z);
    ValTail(256, v, z);
    ValTail(256, b256, it);
  }

  lemma WordStep(psz: string, start: nat, i: nat)
    requires start <= i < |psz|
    ensures DigitsOf(psz[start..i + 1]) == DigitsOf(psz[start..i]) + [Digit(psz[i])]
    ensures AllIn(psz[start..i]) && InAlphabet(psz[i]) ==> AllIn(psz[start..i + 1])
  {
    hide InAlphabet, Digit;
    assert psz[start..i + 1] == psz[start..i] + [psz[i]];
  }

  lemma FindNext(s: string, i: nat)
    requires i < |s| && !IsSpace(s[i])
    ensures Find(s, i, true) == Find(s, i + 1, true)
  {
  }

  lemma Foreign(psz: string, start: nat, i: nat)
    requires start <= i < |psz| && i < Find(psz, start, true) && !InAlphabet(psz[i])
    ensures !AllIn(psz[start..Find(psz, start, true)])
  {
    hide InAlphabet;
    assert psz[start..Find(psz, start, true)][i - start] == psz[i];
  }

  /** Takes in the characters from i on up to a space; fails at one that is not in the alphabet. */
  method FromBase58(psz: string, start: nat) returns (ok: bool, a: array<nat>, i: nat)
    requires start <= |psz|
    ensures ok == AllIn(psz[start..Find(psz, start, true)])
    ensures ok ==> i == Find(psz, start, true) && Digits(256, a[..]) && Val(256, a[..]) == Val(58, DigitsOf(psz[start..i]))
  {
    hide Val, Pow, InAlphabet, DigitsOf, AllIn;
    i := start;
    a := new nat[DecodeSize(|psz| - start)](_ => 0);
    DecodeFits(|psz| - start);
    ValZeros(256, a[..]);
    EmptyWord(psz, start);
    while i < |psz| && !IsSpace(psz[i])
      invariant start <= i <= |psz| && Find(psz, i, true) == Find(psz, start, true)
      invariant AllIn(psz[start..i]) && Digits(58, DigitsOf(psz[start..i]))
      invariant Digits(256, a[..]) && Val(256, a[..]) == Val(58, DigitsOf(psz[start..i]))
    {
      var ch := IndexOf(PSZ_BASE58, psz[i]);
      FindNext(psz, i);
      InAlphabetIs(psz[i]);
      if ch == |PSZ_BASE58| {
        Foreign(psz, start, i);
        return false, a, i;
      }
      PowMono(58, i - start + 1, |psz| - start);
      TakeDigit(a, 256, 58, DigitsOf(psz[start..i]), ch);
      WordStep(psz, start, i);
      i := i + 1;
    }
    ok := true;
  }

  lemma EmptyWord(psz: string, start: nat)
    requires start <= |psz|
    ensures AllIn(psz[start..start]) && Digits(58, DigitsOf(psz[start..start])) && Val(58, DigitsOf(psz[start..start])) == 0
  {
    assert DigitsOf(psz[start..start]) == [];
    ValZeros(58, []);
  }

  lemma InAlphabetIs(c: char)
    ensures |PSZ_BASE58| == 58 && (InAlphabet(c) <==> IndexOf(PSZ_BASE58, c) < 58)
  {
    Alphabet();
  }

  /** Skips spaces from i on. */
  method SkipSpaces(psz: string, i: nat) returns (p: nat)
    requires i <= |psz|
    ensures p == Find(psz, i, false)
  {
    p := i;
    while p < |psz| && IsSpace(psz[p])
      invariant i <= p <= |psz| && Find(psz, p, false) == Find(psz, i, false)
    {
      p := p + 1;
    }
  }

  /** Skips and counts ones from i on. */
  method SkipOnes(psz: string, i: nat) returns (p: nat, zeroes: nat)
    requires i <= |psz|
    ensures i <= p <= |psz| && zeroes == p - i && Find(psz, p, true) == Find(psz, i, true)
    ensures (forall j :: i <= j < p ==> psz[j] == '1') && (p < |psz| ==> psz[p] != '1')
  {
    p, zeroes := i, 0;
    while p < |psz| && psz[p] == '1'
      invariant i <= p <= |psz| && zeroes == p - i && Find(psz, p, true) == Find(psz, i, true)
      invariant forall j :: i <= j < p ==> psz[j] == '1'
    {
      zeroes := zeroes + 1;
      p := p + 1;
    }
  }

  lemma RestIsSpace(psz: string, e: nat)
    requires e <= |psz|
    ensures Find(psz, e, false) == |psz| <==> AllSpace(psz[e..])
  {
    hide IsSpace;
    if Find(psz, e, false) == |psz| {
      assert forall i :: 0 <= i < |psz| - e ==> psz[e..][i] == psz[e + i];
    } else {
      assert psz[e..][Find(psz, e, false) - e] == psz[Find(psz, e, false)];
    }
  }

  /** Decodes exactly the text that is a word of the alphabet between spaces. */
  method DecodeBase58(str: string) returns (ok: bool, vch: seq<nat>)
    ensures ok == Decodable(CString(str))
    ensures ok ==> Represents(Word(CString(str)), vch)
  {
    hide Val, InAlphabet, Represents, Find, CString, AllSpace, IsSpace;
    var psz := CString(str);
    var first := SkipSpaces(psz, 0);
    var p, zeroes := SkipOnes(psz, first);
    ghost var w, e := Word(psz), Find(psz, p, true);
    assert w == psz[first..e] && w[zeroes..] == psz[p..e];
    OnesIn(w, zeroes);
    var good, b256, i := FromBase58(psz, p);
    if !good {
      return false, [];
    }
    i := SkipSpaces(psz, i);
    RestIsSpace(psz, e);
    if i != |psz| {
      return false, [];
    }
    var it := SkipZeros(b256[..]);
    Decoded(w, zeroes, b256[..], it);
    vch := Zeros(zeroes) + b256[it..];
    ok := true;
  }

  /** Leading ones are in the alphabet. */
  lemma OnesIn(w: string, z: nat)
    requires z <= |w| && forall i :: 0 <= i < z ==> w[i] == '1'
    ensures AllIn(w) == AllIn(w[z..])
  {
    OneIsZero('1');
    assert forall i :: z <= i < |w| ==> w[i] == w[z..][i - z];
  }

  //////////////////////////////////////////////////////////////////////////////
  // Round trips
  //////////////////////////////////////////////////////////////////////////////

  method DecodeEncoded(vch: seq<nat>) returns (ok: bool, back: seq<nat>)
    requires Digits(256, vch)
    ensures ok && back == vch
  {
    hide Represents;
    var str := EncodeBase58(vch);
    Printable(str, vch);
    ok, back := DecodeBase58(str);
    OneMeaning(str, back, vch);
  }

  /** Encoded text is a single word without a terminating zero in it. */
  lemma Printable(w: string, v: seq<nat>)
    requires Represents(w, v)
    ensures CString(w) == w && Decodable(w) && Word(w) == w
  {
    hide InAlphabet, Val, IsSpace, LeadZeros, DigitsOf, Find;
    NotSpaces(w);
    assert "" + w + "" == w;
    WordBetween(w, "", w, "");
  }

  method EncodeDecoded(str: string) returns (ok: bool, back: string)
    ensures ok == Decodable(CString(str)) && (ok ==> back == Word(CString(str)))
  {
    hide Represents;
    var vch;
    ok, vch := DecodeBase58(str);
    if ok {
      BytesOf(Word(CString(str)), vch);
      back := EncodeBase58(vch);
      OneWord(back, Word(CString(str)), vch);
    } else {
      back := "";
    }
  }

  lemma BytesOf(w: string, v: seq<nat>)
    requires Represents(w, v)
    ensures Digits(256, v)
  {
  }
}
