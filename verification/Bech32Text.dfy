module Bech32Text {
  // Bech32 strings: a human-readable part, a separator, and values with a checksum.

  import opened Bech32
  import opened Bech32Distance

  type Letter = c: char | c as int < 256

  //////////////////////////////////////////////////////////////////////////////
  // The character set
  //////////////////////////////////////////////////////////////////////////////

  const C0: seq<Letter> := "qpzry9x8"
  const C1: seq<Letter> := "gf2tvdw0"
  const C2: seq<Letter> := "s3jn54kh"
  const C3: seq<Letter> := "ce6mua7l"
  const CHARSET: seq<Letter> := C0 + C1 + C2 + C3

  const R3: seq<int> := [15, -1, 10, 17, 21, 20, 26, 30, 7, 5, -1, -1, -1, -1, -1, -1]
  const R4: seq<int> := [-1, 29, -1, 24, 13, 25, 9, 8, 23, -1, 18, 22, 31, 27, 19, -1]
  const R5: seq<int> := [1, 0, 3, 16, 11, 28, 12, 14, 6, 4, 2, -1, -1, -1, -1, -1]

  /** The table for decoding, sixteen entries a row; the rows of lower case repeat those of upper case. */
  function CharsetRev(c: nat): int
    requires c < 128
  {
    if c < 48 then -1 else if c < 64 then R3[c - 48] else if c < 80 then R4[c - 64] else if c < 96 then R5[c - 80]
    else if c < 112 then R4[c - 96] else R5[c - 112]
  }

  predicate Printable(c: Letter) { 33 <= c as int <= 126 }
  predicate IsLower(c: Letter) { 'a' <= c <= 'z' }
  predicate IsUpper(c: Letter) { 'A' <= c <= 'Z' }

  function LowerCase(c: Letter): Letter {
    if IsUpper(c) then (c as int + 32) as char else c
  }

  function Rev(c: Letter): int {
    if Printable(c) then CharsetRev(c as int) else -1
  }

  lemma Row0(n: nat)
    requires n < 8
    ensures Rev(C0[n]) == n && Printable(C0[n]) && !IsUpper(C0[n]) && C0[n] != '1'
  {
  }

  lemma Row1(n: nat)
    requires n < 8
    ensures Rev(C1[n]) == 8 + n && Printable(C1[n]) && !IsUpper(C1[n]) && C1[n] != '1'
  {
  }

  lemma Row2(n: nat)
    requires n < 8
    ensures Rev(C2[n]) == 16 + n && Printable(C2[n]) && !IsUpper(C2[n]) && C2[n] != '1'
  {
  }

  lemma Row3(n: nat)
    requires n < 8
    ensures Rev(C3[n]) == 24 + n && Printable(C3[n]) && !IsUpper(C3[n]) && C3[n] != '1'
  {
  }

  /** Decoding a character of the set gives its place in it. */
  lemma CharsetFacts(n: nat)
    requires n < 32
    ensures |CHARSET| == 32
    ensures Rev(CHARSET[n]) == n && Printable(CHARSET[n]) && !IsUpper(CHARSET[n]) && CHARSET[n] != '1'
  {
    if n < 8 {
      Row0(n);
    } else if n < 16 {
      Row1(n - 8);
    } else if n < 24 {
      Row2(n - 16);
    } else {
      Row3(n - 24);
    }
  }

  lemma RowRanges(i: nat)
    requires i < 16
    ensures -1 <= R3[i] < 32 && -1 <= R4[i] < 32 && -1 <= R5[i] < 32
  {
  }

  lemma RevRange(c: Letter)
    ensures -1 <= Rev(c) < 32
  {
    if Printable(c) && c as int >= 48 {
      RowRanges((c as int) % 16);
    }
  }

  lemma CharsetAt(n: nat)
    requires n < 32
    ensures |CHARSET| == 32
    ensures CHARSET[n] == if n < 8 then C0[n] else if n < 16 then C1[n - 8] else if n < 24 then C2[n - 16] else C3[n - 24]
  {
  }

  lemma RevBack3(i: nat)
    requires i < 16 && R3[i] >= 0
    ensures R3[i] < 32 && |CHARSET| == 32 && CHARSET[R3[i]] as int == 48 + i
  {
    RowRanges(i);
    CharsetAt(R3[i]);
  }

  lemma RevBack4(i: nat)
    requires i < 16 && R4[i] >= 0
    ensures R4[i] < 32 && |CHARSET| == 32 && CHARSET[R4[i]] as int == 96 + i
  {
    RowRanges(i);
    CharsetAt(R4[i]);
  }

  lemma RevBack5(i: nat)
    requires i < 16 && R5[i] >= 0
    ensures R5[i] < 32 && |CHARSET| == 32 && CHARSET[R5[i]] as int == 112 + i && i < 11
  {
    RowRanges(i);
    CharsetAt(R5[i]);
  }

  /** Only the case of a decoded character is lost. */
  lemma RevBack(c: Letter)
    requires Rev(c) >= 0
    ensures Rev(c) < 32 && |CHARSET| == 32 && CHARSET[Rev(c)] == LowerCase(c)
  {
    var i := c as int;
    if i < 64 {
      RevBack3(i - 48);
    } else if i < 80 {
      RevBack4(i - 64);
    } else if i < 96 {
      RevBack5(i - 80);
    } else if i < 112 {
      RevBack4(i - 96);
    } else {
      RevBack5(i - 112);
    }
  }

  //////////////////////////////////////////////////////////////////////////////
  // Values and characters
  //////////////////////////////////////////////////////////////////////////////

  function CharOf(v: bv8): Letter
    requires v < 32
  {
    CharsetFacts(0);
    CHARSET[v as int]
  }

  function ValueOf(c: Letter): bv8
    requires Rev(c) >= 0
  {
    RevRange(c);
    Rev(c) as bv8
  }

  lemma SmallConversions(v: bv8, n: nat)
    ensures v < 32 ==> v as int < 32 && (v as int) as bv8 == v
    ensures n < 32 ==> (n as bv8) < 32 && (n as bv8) as int == n
  {
  }

  lemma CharValue(v: bv8)
    requires v < 32
    ensures var c := CharOf(v); Rev(c) >= 0 && ValueOf(c) == v && Printable(c) && !IsUpper(c) && c != '1'
  {
    hide CharsetRev;
    SmallConversions(v, 0);
    CharsetFacts(v as int);
  }

  lemma ValueChar(c: Letter)
    requires Rev(c) >= 0
    ensures ValueOf(c) < 32 && CharOf(ValueOf(c)) == LowerCase(c)
  {
    hide CharsetRev;
    RevBack(c);
    SmallConversions(0, Rev(c));
  }

  function Chars(v: Data): (r: seq<Letter>)
    requires FiveBit(v)
    ensures |r| == |v| && forall i :: 0 <= i < |v| ==> r[i] == CharOf(v[i])
  {
    seq(|v|, i requires 0 <= i < |v| => CharOf(v[i]))
  }

  predicate AllRev(s: seq<Letter>) { forall i :: 0 <= i < |s| ==> Rev(s[i]) >= 0 }

  function Values(s: seq<Letter>): (r: Data)
    requires AllRev(s)
    ensures |r| == |s| && forall i :: 0 <= i < |s| ==> r[i] == ValueOf(s[i])
  {
    seq(|s|, i requires 0 <= i < |s| => ValueOf(s[i]))
  }

  function Lower(s: seq<Letter>): (r: seq<Letter>)
    ensures |r| == |s| && forall i :: 0 <= i < |s| ==> r[i] == LowerCase(s[i])
  {
    seq(|s|, i requires 0 <= i < |s| => LowerCase(s[i]))
  }

  lemma ValuesOfChars(v: Data)
    requires FiveBit(v)
    ensures AllRev(Chars(v)) && Values(Chars(v)) == v
    ensures forall i :: 0 <= i < |v| ==> Printable(Chars(v)[i]) && !IsUpper(Chars(v)[i]) && Chars(v)[i] != '1'
  {
    hide Rev, CharOf, ValueOf;
    forall i | 0 <= i < |v|
      ensures Rev(Chars(v)[i]) >= 0 && ValueOf(Chars(v)[i]) == v[i]
      ensures Printable(Chars(v)[i]) && !IsUpper(Chars(v)[i]) && Chars(v)[i] != '1'
    {
      CharValue(v[i]);
    }
  }

  lemma CharsOfValues(s: seq<Letter>)
    requires AllRev(s)
    ensures FiveBit(Values(s)) && Chars(Values(s)) == Lower(s)
  {
    hide Rev, CharOf, ValueOf, LowerCase;
    forall i | 0 <= i < |s| ensures ValueOf(s[i]) < 32 && CharOf(ValueOf(s[i])) == LowerCase(s[i]) {
      ValueChar(s[i]);
    }
  }

  //////////////////////////////////////////////////////////////////////////////
  // Encoding and decoding
  //////////////////////////////////////////////////////////////////////////////

  function HighBits(c: Letter): bv8 { (c as int / 32) as bv8 }
  function LowBits(c: Letter): bv8 { (c as int % 32) as bv8 }

  /** The high bits of each character, a zero, and the low bits of each. */
  function Expanded(hrp: seq<Letter>): Data {
    seq(|hrp|, i requires 0 <= i < |hrp| => HighBits(hrp[i])) + [0] + seq(|hrp|, i requires 0 <= i < |hrp| => LowBits(hrp[i]))
  }

  lemma BitsOf(c: Letter)
    ensures HighBits(c) < 8 && LowBits(c) < 32 && 32 * (HighBits(c) as int) + (LowBits(c) as int) == c as int
  {
    SmallConversions(0, c as int / 32);
    SmallConversions(0, c as int % 32);
    BelowEight(c as int / 32);
  }

  lemma BelowEight(n: nat)
    requires n < 8
    ensures (n as bv8) < 8
  {
  }

  /** The expansion has all bits of the prefix, each character split at its sixth bit, and a zero between the two parts. */
  lemma ExpandedIs(hrp: seq<Letter>)
    ensures |Expanded(hrp)| == 2 * |hrp| + 1 && Expanded(hrp)[|hrp|] == 0 && FiveBit(Expanded(hrp))
    ensures var high, low := Expanded(hrp)[..|hrp|], Expanded(hrp)[|hrp| + 1..];
      forall i :: 0 <= i < |hrp| ==> high[i] < 8 && low[i] < 32 && 32 * (high[i] as int) + (low[i] as int) == hrp[i] as int
  {
    hide HighBits, LowBits, FiveBit;
    var r, n := Expanded(hrp), |hrp|;
    var high, low := r[..n], r[n + 1..];
    forall i | 0 <= i < n ensures high[i] < 8 && low[i] < 32 && 32 * (high[i] as int) + (low[i] as int) == hrp[i] as int {
      BitsOf(hrp[i]);
    }
    AllFive(high, low);
    assert r == high + [0] + low;
  }

  lemma AllFive(high: Data, low: Data)
    requires |high| == |low| && forall i :: 0 <= i < |low| ==> high[i] < 8 && low[i] < 32
    ensures FiveBit(high + [0] + low)
  {
  }

  /** Different prefixes of one length expand differently, and only in the places of the characters that differ. */
  lemma ExpandedDiffers(hrp: seq<Letter>, other: seq<Letter>, i: nat)
    requires |hrp| == |other| && i < |hrp|
    ensures var r, q, n := Expanded(hrp), Expanded(other), |hrp|;
      |r| == |q| == 2 * n + 1 && (r[i] == q[i] && r[n + 1 + i] == q[n + 1 + i] <==> hrp[i] == other[i])
  {
    hide Expanded;
    ExpandedIs(hrp);
    ExpandedIs(other);
    var n := |hrp|;
    assert Expanded(hrp)[n + 1..][i] == Expanded(hrp)[n + 1 + i] && Expanded(other)[n + 1..][i] == Expanded(other)[n + 1 + i];
    if hrp[i] == other[i] {
      ExpandedSame(hrp, other, i);
    }
  }

  lemma ExpandedSame(hrp: seq<Letter>, other: seq<Letter>, i: nat)
    requires |hrp| == |other| && i < |hrp| && hrp[i] == other[i]
    ensures |Expanded(hrp)| == |Expanded(other)| == 2 * |hrp| + 1
    ensures Expanded(hrp)[i] == Expanded(other)[i] && Expanded(hrp)[|hrp| + 1 + i] == Expanded(other)[|hrp| + 1 + i]
  {
    hide HighBits, LowBits;
  }

  predicate Verifies(hrp: seq<Letter>, values: Data) {
    Fold(1, Expanded(hrp) + values) == 1
  }

  function WithChecksum(hrp: seq<Letter>, values: Data): (r: Data)
    ensures |r| == |values| + 6 && (FiveBit(r) <==> FiveBit(values))
  {
    var r := values + Checksum(Expanded(hrp) + values);
    assert forall i :: 0 <= i < |values| ==> r[i] == values[i];
    r
  }

  function Encoded(hrp: seq<Letter>, values: Data): seq<Letter> {
    if FiveBit(values) then hrp + ['1'] + Chars(WithChecksum(hrp, values)) else []
  }

  /** The last place of the separator, or -1. */
  function LastOne(s: seq<Letter>): (r: int)
    ensures -1 <= r < |s| && (r >= 0 ==> s[r] == '1') && forall i :: r < i < |s| ==> s[i] != '1'
  {
    if s == [] then -1 else if s[|s| - 1] == '1' then |s| - 1 else LastOne(s[..|s| - 1])
  }

  predicate AllPrintable(s: seq<Letter>) { forall i :: 0 <= i < |s| ==> Printable(s[i]) }
  predicate HasLower(s: seq<Letter>) { exists i :: 0 <= i < |s| && IsLower(s[i]) }
  predicate HasUpper(s: seq<Letter>) { exists i :: 0 <= i < |s| && IsUpper(s[i]) }

  /** All that is asked of a string before its checksum. */
  predicate WellFormed(s: seq<Letter>) {
    && AllPrintable(s) && !(HasLower(s) && HasUpper(s)) && |s| <= 1023
    && LastOne(s) > 0 && LastOne(s) + 7 <= |s| && AllRev(s[LastOne(s) + 1..])
  }

  predicate Decodes(s: seq<Letter>) {
    WellFormed(s) && Verifies(Lower(s[..LastOne(s)]), Values(s[LastOne(s) + 1..]))
  }

  function Decoded(s: seq<Letter>): (seq<Letter>, Data) {
    if Decodes(s) then
      var values := Values(s[LastOne(s) + 1..]);
      (Lower(s[..LastOne(s)]), values[..|values| - 6])
    else ([], [])
  }

  //////////////////////////////////////////////////////////////////////////////
  // Round trips
  //////////////////////////////////////////////////////////////////////////////

  /** What can be encoded so that it decodes to itself. */
  predicate Legal(hrp: seq<Letter>, values: Data) {
    hrp != [] && AllPrintable(hrp) && !HasUpper(hrp) && FiveBit(values) && |hrp| + 7 + |values| <= 1023
  }

  lemma ChecksumOk(hrp: seq<Letter>, values: Data)
    ensures Verifies(hrp, WithChecksum(hrp, values))
  {
    hide Fold, Expanded;
    ChecksumVerifies(Expanded(hrp) + values);
    var c := Checksum(Expanded(hrp) + values);
    assert Expanded(hrp) + values + c == Expanded(hrp) + (values + c);
  }

  lemma LastOneIs(s: seq<Letter>, p: nat)
    requires p < |s| && s[p] == '1' && forall i :: p < i < |s| ==> s[i] != '1'
    ensures LastOne(s) == p
  {
  }

  /** The parts of an encoded string are found again. */
  lemma EncodedParts(hrp: seq<Letter>, values: Data)
    requires FiveBit(values)
    ensures var s := Encoded(hrp, values);
      && |s| == |hrp| + 7 + |values| && LastOne(s) == |hrp| && s[..|hrp|] == hrp
      && s[|hrp| + 1..] == Chars(WithChecksum(hrp, values)) && AllRev(s[|hrp| + 1..])
      && Values(s[|hrp| + 1..]) == WithChecksum(hrp, values)
  {
    hide Rev, ValueOf, CharOf, WithChecksum;
    var c := WithChecksum(hrp, values);
    ValuesOfChars(c);
    var s := Encoded(hrp, values);
    assert s[|hrp| + 1..] == Chars(c);
    forall i | |hrp| < i < |s| ensures s[i] != '1' {
      assert s[i] == Chars(c)[i - |hrp| - 1];
    }
    LastOneIs(s, |hrp|);
  }

  lemma LowerKeeps(s: seq<Letter>)
    ensures Lower(s) == s <==> !HasUpper(s)
  {
    if HasUpper(s) {
      var i :| 0 <= i < |s| && IsUpper(s[i]);
      assert Lower(s)[i] != s[i];
    }
  }

  lemma EncodedFine(hrp: seq<Letter>, values: Data)
    requires FiveBit(values)
    ensures var s := Encoded(hrp, values);
      && (AllPrintable(s) <==> AllPrintable(hrp)) && (HasUpper(s) <==> HasUpper(hrp))
  {
    hide Rev, ValueOf, CharOf, WithChecksum;
    var c, s := WithChecksum(hrp, values), Encoded(hrp, values);
    ValuesOfChars(c);
    assert forall i :: 0 <= i < |hrp| ==> s[i] == hrp[i];
    assert s[|hrp|] == '1';
    forall i | |hrp| < i < |s| ensures Printable(s[i]) && !IsUpper(s[i]) {
      assert s[i] == Chars(c)[i - |hrp| - 1];
    }
  }

  /** Decoding what was encoded gives it back. */
  lemma DecodeEncode(hrp: seq<Letter>, values: Data)
    requires Legal(hrp, values)
    ensures Decodes(Encoded(hrp, values)) && Decoded(Encoded(hrp, values)) == (hrp, values)
  {
    EncodedParts(hrp, values);
    EncodedFine(hrp, values);
    LowerKeeps(hrp);
    ChecksumOk(hrp, values);
    assert WithChecksum(hrp, values)[..|values|] == values;
  }

  /** Nothing else comes back, but for the pair that stands for failure. */
  lemma DecodeEncodeExact(hrp: seq<Letter>, values: Data)
    ensures Decoded(Encoded(hrp, values)) == (hrp, values) <==> Legal(hrp, values) || (hrp == [] && values == [])
  {
    hide Rev, CharOf, ValueOf, WithChecksum, Verifies, AllPrintable, HasUpper, HasLower;
    if Legal(hrp, values) {
      DecodeEncode(hrp, values);
    } else if FiveBit(values) {
      EncodedParts(hrp, values);
      EncodedFine(hrp, values);
      LowerKeeps(hrp);
    }
  }

  lemma LowerParts(s: seq<Letter>, p: nat)
    requires p < |s| && s[p] == '1'
    ensures Lower(s[..p]) + ['1'] + Lower(s[p + 1..]) == Lower(s)
  {
    hide LowerCase;
    OneHasNoCase();
  }

  lemma OneHasNoCase()
    ensures LowerCase('1') == '1'
  {
  }

  /** Encoding what was decoded gives the string back, in lower case: no two checksums fit the same values. */
  lemma EncodeDecode(s: seq<Letter>)
    requires Decodes(s)
    ensures Encoded(Decoded(s).0, Decoded(s).1) == Lower(s)
  {
    hide Rev, CharOf, ValueOf, Fold, Expanded;
    var p := LastOne(s);
    var tail := s[p + 1..];
    var hrp, values := Lower(s[..p]), Values(tail);
    var n := |values| - 6;
    var v := values[..n];
    CharsOfValues(tail);
    assert FiveBit(v);
    ChecksumOk(hrp, v);
    var again := WithChecksum(hrp, v);
    assert forall i :: 0 <= i < n ==> again[i] == v[i];
    BurstDetected(Expanded(hrp), values, again, n);
    LowerParts(s, p);
  }

  lemma LowerLetter(c: Letter)
    ensures var l := LowerCase(c);
      (Printable(l) <==> Printable(c)) && Rev(l) == Rev(c) && LowerCase(l) == l && !IsUpper(l) && (l == '1' <==> c == '1')
  {
  }

  lemma LowerTail(s: seq<Letter>)
    requires AllRev(s)
    ensures AllRev(Lower(s)) && Values(Lower(s)) == Values(s)
  {
    hide Rev, LowerCase;
    forall i | 0 <= i < |s| ensures Rev(Lower(s)[i]) == Rev(s[i]) {
      LowerLetter(s[i]);
    }
  }

  /** Lower case changes nothing but the letters. */
  lemma LowerShape(s: seq<Letter>)
    ensures LastOne(Lower(s)) == LastOne(s) && Lower(Lower(s)) == Lower(s) && !HasUpper(Lower(s))
    ensures AllPrintable(Lower(s)) <==> AllPrintable(s)
    ensures AllRev(Lower(s)) <==> AllRev(s)
  {
    hide Rev, LowerCase, Printable, IsUpper, LastOne;
    var l := Lower(s);
    forall i | 0 <= i < |s|
      ensures (Printable(l[i]) <==> Printable(s[i])) && Rev(l[i]) == Rev(s[i]) && LowerCase(l[i]) == l[i] && !IsUpper(l[i])
      ensures l[i] == '1' <==> s[i] == '1'
    {
      LowerLetter(s[i]);
    }
    var r := LastOne(s);
    if r >= 0 {
      assert l[r] == '1';
    }
    assert forall i :: 0 <= i < |s| ==> (l[i] == '1' <==> s[i] == '1');
    SameLast(l, s);
  }

  lemma SameLast(s: seq<Letter>, t: seq<Letter>)
    requires |s| == |t| && forall i :: 0 <= i < |t| ==> (s[i] == '1' <==> t[i] == '1')
    ensures LastOne(s) == LastOne(t)
  {
    assert LastOne(t) >= 0 ==> s[LastOne(t)] == '1';
    assert LastOne(s) >= 0 ==> t[LastOne(s)] == '1';
  }

  lemma LowerSlices(s: seq<Letter>, p: nat)
    requires p < |s|
    ensures Lower(s)[..p] == Lower(s[..p]) && Lower(s)[p + 1..] == Lower(s[p + 1..])
  {
    hide LowerCase;
  }

  /** A string in one case decodes as its lower-case form does. */
  lemma LowerDecodes(s: seq<Letter>)
    requires !(HasLower(s) && HasUpper(s))
    ensures Decodes(Lower(s)) <==> Decodes(s)
  {
    hide Rev, Fold, Expanded, Values, HasLower, HasUpper, AllPrintable, AllRev;
    var p := LastOne(s);
    LowerShape(s);
    if p > 0 {
      LowerSlices(s, p);
      LowerShape(s[..p]);
      LowerShape(s[p + 1..]);
      if AllRev(s[p + 1..]) {
        LowerTail(s[p + 1..]);
      }
    }
  }

  /** Exactly the encodings of legal pairs, in one case or the other, are decoded. */
  lemma DecodesExactly(s: seq<Letter>)
    ensures Decodes(s) <==>
      !(HasLower(s) && HasUpper(s)) && exists hrp, values :: Legal(hrp, values) && Encoded(hrp, values) == Lower(s)
  {
    hide Rev, Fold, Expanded, Values, Encoded, Verifies, Chars;
    if Decodes(s) {
      var p := LastOne(s);
      EncodeDecode(s);
      LowerShape(s[..p]);
      CharsOfValues(s[p + 1..]);
      assert AllPrintable(s[..p]);
      var hrp, values := Decoded(s).0, Decoded(s).1;
      assert Legal(hrp, values);
    } else if !(HasLower(s) && HasUpper(s)) && exists hrp, values :: Legal(hrp, values) && Encoded(hrp, values) == Lower(s) {
      var hrp, values :| Legal(hrp, values) && Encoded(hrp, values) == Lower(s);
      DecodeEncode(hrp, values);
      LowerDecodes(s);
      assert false;
    }
  }

  lemma FoldNext(vs: Data, v: bv8, before: bv32, after: bv32)
    requires Fold(1, vs) == before && Step(before, v as bv32) == after
    ensures Fold(1, vs + [v]) == after
  {
    assert (vs + [v])[..|vs|] == vs;
  }

  lemma ShortestSteps()
    ensures Step(1, 3) == 0x23 && Step(0x23, 0) == 0x460 && Step(0x460, 1) == 0x8c01 && Step(0x8c01, 10) == 0x11802a
    ensures Step(0x11802a, 28) == 0x230055c && Step(0x230055c, 25) == 0x3d6afc2b && Step(0x3d6afc2b, 31) == 0x2f84386
    ensures Step(0x2f84386, 20) == 0x24622766 && Step(0x24622766, 31) == 1
  {
  }

  /** The shortest valid string of the standard: prefix a, no data, checksum 2uel5l. */
  lemma ShortestString()
    ensures Fold(1, [3, 0, 1, 10, 28, 25, 31, 20, 31]) == 1
  {
    var v: Data := [3, 0, 1, 10, 28, 25, 31, 20, 31];
    assert Fold(1, v[..0]) == 1;
    ShortestSteps();
    hide Fold, Step;
    FoldNext(v[..0], 3, 1, 0x23);
    assert v[..0] + [3] == v[..1];
    FoldNext(v[..1], 0, 0x23, 0x460);
    assert v[..1] + [0] == v[..2];
    FoldNext(v[..2], 1, 0x460, 0x8c01);
    assert v[..2] + [1] == v[..3];
    FoldNext(v[..3], 10, 0x8c01, 0x11802a);
    assert v[..3] + [10] == v[..4];
    FoldNext(v[..4], 28, 0x11802a, 0x230055c);
    assert v[..4] + [28] == v[..5];
    FoldNext(v[..5], 25, 0x230055c, 0x3d6afc2b);
    assert v[..5] + [25] == v[..6];
    FoldNext(v[..6], 31, 0x3d6afc2b, 0x2f84386);
    assert v[..6] + [31] == v[..7];
    FoldNext(v[..7], 20, 0x2f84386, 0x24622766);
    assert v[..7] + [20] == v[..8];
    FoldNext(v[..8], 31, 0x24622766, 1);
    assert v[..8] + [31] == v[..9];
    assert v[..9] == v;
  }

  lemma ShortestVerifies()
    ensures Verifies(['a'], [10, 28, 25, 31, 20, 31]) && Values(['2', 'u', 'e', 'l', '5', 'l']) == [10, 28, 25, 31, 20, 31]
  {
    hide Fold, Step;
    ShortestString();
    var v: Data := Expanded(['a']) + [10, 28, 25, 31, 20, 31];
    assert 'a' as int == 97 && LowBits('a') == 1 && HighBits('a') == 3;
    assert v == [3, 0, 1, 10, 28, 25, 31, 20, 31];
  }

  //////////////////////////////////////////////////////////////////////////////
  // Errors
  //////////////////////////////////////////////////////////////////////////////

  /** Two prefixes that differ in one character never both verify with the same values. */
  lemma PrefixError(hrp: seq<Letter>, other: seq<Letter>, values: Data, i: nat)
    requires |hrp| == |other| <= 1016 && i < |hrp| && hrp[i] != other[i] && FiveBit(values)
    requires forall k :: 0 <= k < |hrp| && k != i ==> hrp[k] == other[k]
    ensures !(Verifies(hrp, values) && Verifies(other, values))
  {
    hide Fold, Expanded, FiveBit;
    var n := |hrp|;
    var v, w := Expanded(hrp) + values, Expanded(other) + values;
    ExpandedIs(hrp);
    ExpandedIs(other);
    ExpandedDiffers(hrp, other, i);
    assert v[i] == Expanded(hrp)[i] && w[i] == Expanded(other)[i];
    assert v[n + 1 + i] == Expanded(hrp)[n + 1 + i] && w[n + 1 + i] == Expanded(other)[n + 1 + i];
    forall t | 0 <= t < |v| && t != i && t != n + 1 + i ensures v[t] == w[t] {
      SamePlace(hrp, other, i, t, values);
    }
    FiveBitCat(Expanded(hrp), values);
    FiveBitCat(Expanded(other), values);
    TwoPlaces(v, w, i, n + 1 + i);
  }

  lemma TwoPlaces(v: Data, w: Data, p: nat, q: nat)
    requires |v| == |w| && FiveBit(v) && FiveBit(w) && p < q < |v| && q - p < 1023 && v != w
    requires forall t :: 0 <= t < |v| && t != p && t != q ==> v[t] == w[t]
    ensures Fold(1, v) != Fold(1, w)
  {
    hide Fold, FiveBit;
    assert [] + v == v && [] + w == w;
    if Fold(1, v) == Fold(1, w) {
      TwoErrors([], v, w, p, q);
    }
  }

  lemma SamePlace(hrp: seq<Letter>, other: seq<Letter>, i: nat, t: nat, values: Data)
    requires |hrp| == |other| && forall k :: 0 <= k < |hrp| && k != i ==> hrp[k] == other[k]
    requires t < 2 * |hrp| + 1 + |values| && t != i && t != |hrp| + 1 + i
    ensures |Expanded(hrp)| == |Expanded(other)| == 2 * |hrp| + 1
    ensures (Expanded(hrp) + values)[t] == (Expanded(other) + values)[t]
  {
    hide Expanded;
    var n := |hrp|;
    ExpandedIs(hrp);
    ExpandedIs(other);
    if t < n {
      ExpandedSame(hrp, other, t);
    } else if n < t <= 2 * n {
      ExpandedSame(hrp, other, t - n - 1);
    }
  }

  lemma FiveBitCat(a: Data, b: Data)
    requires FiveBit(a) && FiveBit(b)
    ensures FiveBit(a + b)
  {
  }

  /** A string with one character of its prefix changed, other than in its case, is refused. */
  lemma PrefixErrorRefused(s: seq<Letter>, i: nat, c: Letter)
    requires Decodes(s) && i < LastOne(s) && LowerCase(c) != LowerCase(s[i])
    ensures !Decodes(s[i := c])
  {
    hide Fold, Expanded, Rev, ValueOf, CharOf, LowerCase, Verifies, FiveBit;
    var t, p := s[i := c], LastOne(s);
    LastOneIs(t, p);
    assert t[p + 1..] == s[p + 1..];
    CharsOfValues(s[p + 1..]);
    PrefixError(Lower(s[..p]), Lower(t[..p]), Values(s[p + 1..]), i);
  }

  /** A string that differs from a valid one in at most three characters after the separator, other than in case, is refused. */
  lemma DataErrorsRefused(s: seq<Letter>, t: seq<Letter>)
    requires Decodes(s) && |t| == |s| && LastOne(t) == LastOne(s) && Lower(t[..LastOne(s)]) == Lower(s[..LastOne(s)])
    requires Lower(s) != Lower(t) && WellFormed(t)
    requires |Differences(Values(s[LastOne(s) + 1..]), Values(t[LastOne(s) + 1..]))| <= 3
    ensures !Decodes(t)
  {
    hide Verifies, Rev, ValueOf, Lower, FiveBit, Differences, LastOne, AllPrintable, HasLower, HasUpper, Values, Chars;
    var p := LastOne(s);
    var a, b := s[p + 1..], t[p + 1..];
    ValuesDiffer(s, t, p);
    CharsOfValues(a);
    CharsOfValues(b);
    OneVerifies(Lower(s[..p]), Values(a), Values(b));
  }

  lemma OneVerifies(hrp: seq<Letter>, v: Data, w: Data)
    requires |v| == |w| <= 1023 && FiveBit(v) && FiveBit(w) && v != w && |Differences(v, w)| <= 3 && Verifies(hrp, v)
    ensures !Verifies(hrp, w)
  {
    hide Fold, Expanded, FiveBit, Differences;
    FewPlaces(Expanded(hrp), v, w);
  }

  lemma ValuesDiffer(s: seq<Letter>, t: seq<Letter>, p: nat)
    requires p < |s| == |t| && s[p] == t[p] == '1' && AllRev(s[p + 1..]) && AllRev(t[p + 1..])
    requires Lower(s[..p]) == Lower(t[..p]) && Lower(s) != Lower(t)
    ensures Values(s[p + 1..]) != Values(t[p + 1..])
  {
    hide Rev, ValueOf, CharOf, Lower, AllRev;
    CharsOfValues(s[p + 1..]);
    CharsOfValues(t[p + 1..]);
    LowerParts(s, p);
    LowerParts(t, p);
  }

  lemma FewPlaces(e: Data, v: Data, w: Data)
    requires |v| == |w| <= 1023 && FiveBit(v) && FiveBit(w) && v != w && |Differences(v, w)| <= 3
    ensures Fold(1, e + v) != Fold(1, e + w)
  {
    hide Fold, FiveBit;
    AllWithin(v, w);
    if Fold(1, e + v) == Fold(1, e + w) {
      FourPlaces(e, v, w);
    }
  }

  lemma AllWithin(v: Data, w: Data)
    requires |v| == |w| <= 1023
    ensures Within(Differences(v, w), 1023)
  {
  }

  //////////////////////////////////////////////////////////////////////////////
  // The code
  //////////////////////////////////////////////////////////////////////////////

  method ExpandHRP(hrp: seq<Letter>) returns (ret: Data)
    ensures ret == Expanded(hrp)
    ensures |ret| == 2 * |hrp| + 1 && ret[|hrp|] == 0
    ensures var high, low := ret[..|hrp|], ret[|hrp| + 1..];
      forall i :: 0 <= i < |hrp| ==> high[i] < 8 && low[i] < 32 && 32 * (high[i] as int) + (low[i] as int) == hrp[i] as int
  {
    hide HighBits, LowBits;
    var n := |hrp|;
    var buf := new bv8[2 * n + 1](_ => 0);
    for i := 0 to n
      invariant forall k :: 0 <= k < i ==> buf[k] == HighBits(hrp[k])
      invariant forall k :: n < k <= n + i ==> buf[k] == LowBits(hrp[k - n - 1])
    {
      buf[i] := HighBits(hrp[i]);
      buf[i + n + 1] := LowBits(hrp[i]);
    }
    buf[n] := 0;
    ret := buf[..];
    assert ret == Expanded(hrp);
    ExpandedIs(hrp);
  }

  method VerifyChecksum(hrp: seq<Letter>, values: Data) returns (ok: bool)
    ensures ok == Verifies(hrp, values)
  {
    hide Fold, Expanded;
    var e := ExpandHRP(hrp);
    var c := PolyMod(e + values);
    ok := c == 1;
  }

  method CreateChecksum(hrp: seq<Letter>, values: Data) returns (ret: Data)
    ensures ret == Checksum(Expanded(hrp) + values) && Verifies(hrp, values + ret)
  {
    hide Fold, Expanded, X, Group;
    var enc := ExpandHRP(hrp);
    enc := enc + values;
    var mod := PolyMod(enc + Zeros(6));
    mod := X(mod, 1);
    ret := [];
    for i := 0 to 6
      invariant ret == Groups(mod)[..i]
    {
      ret := ret + [Group(mod, i)];
    }
    ChecksumOk(hrp, values);
  }

  method Encode(hrp: seq<Letter>, values: Data) returns (ret: seq<Letter>)
    ensures ret == Encoded(hrp, values)
  {
    hide CharOf, Checksum, Expanded, Fold;
    var checksum := CreateChecksum(hrp, values);
    var combined := values + checksum;
    assert combined == WithChecksum(hrp, values);
    ret := hrp + ['1'];
    for k := 0 to |combined|
      invariant FiveBit(combined[..k]) && ret == hrp + ['1'] + Chars(combined[..k])
    {
      var c := combined[k];
      if c >= 32 {
        return [];
      }
      ret := ret + [CharOf(c)];
      assert combined[..k + 1] == combined[..k] + [c];
    }
    assert combined[..|combined|] == combined;
  }

  /** Whether the characters may stand in a string together. */
  method CheckCharacters(str: seq<Letter>) returns (ok: bool)
    ensures ok == (AllPrintable(str) && !(HasLower(str) && HasUpper(str)))
  {
    var lower, upper := false, false;
    for i := 0 to |str|
      invariant forall j :: 0 <= j < i ==> Printable(str[j])
      invariant lower == exists j :: 0 <= j < i && IsLower(str[j])
      invariant upper == exists j :: 0 <= j < i && IsUpper(str[j])
    {
      var c := str[i];
      if c as int < 33 || c as int > 126 {
        return false;
      }
      if c >= 'a' && c <= 'z' {
        lower := true;
      }
      if c >= 'A' && c <= 'Z' {
        upper := true;
      }
    }
    ok := !(lower && upper);
  }

  method DecodeValues(tail: seq<Letter>) returns (ok: bool, values: Data)
    ensures ok == AllRev(tail) && (ok ==> values == Values(tail))
  {
    hide Rev, ValueOf;
    values := [];
    for i := 0 to |tail|
      invariant AllRev(tail[..i]) && values == Values(tail[..i])
    {
      var rev := Rev(tail[i]);
      RevRange(tail[i]);
      if rev == -1 {
        return false, [];
      }
      ValueIs(tail[i]);
      values := values + [rev as bv8];
      assert tail[..i + 1] == tail[..i] + [tail[i]];
    }
    assert tail[..|tail|] == tail;
    ok := true;
  }

  lemma ValueIs(c: Letter)
    requires Rev(c) >= 0
    ensures Rev(c) < 256 && ValueOf(c) == Rev(c) as bv8
  {
    RevRange(c);
  }

  method ToLower(s: seq<Letter>) returns (r: seq<Letter>)
    ensures r == Lower(s)
  {
    hide LowerCase;
    r := [];
    for i := 0 to |s|
      invariant r == Lower(s[..i])
    {
      r := r + [LowerCase(s[i])];
    }
    assert s[..|s|] == s;
  }

  method Decode(str: seq<Letter>) returns (hrp: seq<Letter>, data: Data)
    ensures (hrp, data) == Decoded(str)
  {
    hide AllPrintable, HasLower, HasUpper, AllRev, Verifies, Lower, LastOne;
    var ok := CheckCharacters(str);
    if !ok {
      return [], [];
    }
    var pos := LastOne(str);
    if |str| > 1023 || pos == -1 || pos == 0 || pos + 7 > |str| {
      return [], [];
    }
    var good, values := DecodeValues(str[pos + 1..]);
    if !good {
      return [], [];
    }
    hrp := ToLower(str[..pos]);
    var verified := VerifyChecksum(hrp, values);
    if !verified {
      return [], [];
    }
    data := values[..|values| - 6];
  }
}
