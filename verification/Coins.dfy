module Coins {
  // The unspent outputs of one transaction, as the UTXO set keeps them.

  datatype TxOut = TxOut(nValue: int, script: seq<nat>) {
    predicate IsNull() { nValue == -1 }
  }

  const NullOut := TxOut(-1, [])

  datatype Coins = Coins(fCoinBase: bool, vout: seq<TxOut>, nHeight: int, nVersion: int) {

    predicate IsAvailable(n: nat) { n < |vout| && !vout[n].IsNull() }

    /** Entirely spent. */
    predicate IsPruned() { forall i :: 0 <= i < |vout| ==> vout[i].IsNull() }

    /** No spent output at the end of the array. */
    predicate IsClean() { vout != [] ==> !vout[|vout| - 1].IsNull() }

    /** Drops the spent outputs at the end of the array. */
    function Cleaned(): Coins { this.(vout := Trim(vout)) }
  }

  const EmptyCoins := Coins(false, [], 0, 0)

  function Trim(vout: seq<TxOut>): seq<TxOut> {
    if vout != [] && vout[|vout| - 1].IsNull() then Trim(vout[..|vout| - 1]) else vout
  }

  /** Cleaning up drops nothing but trailing spent outputs, and all of them. */
  lemma {:induction false} TrimExact(vout: seq<TxOut>)
    ensures Trim(vout) <= vout
    ensures forall i :: |Trim(vout)| <= i < |vout| ==> vout[i].IsNull()
    ensures Trim(vout) != [] ==> !Trim(vout)[|Trim(vout)| - 1].IsNull()
  {
    if vout != [] && vout[|vout| - 1].IsNull() {
      TrimExact(vout[..|vout| - 1]);
    }
  }

  lemma CleanedExact(c: Coins)
    ensures c.Cleaned().IsClean()
    ensures forall n: nat :: c.Cleaned().IsAvailable(n) == c.IsAvailable(n)
    ensures forall n: nat :: c.IsAvailable(n) ==> c.Cleaned().IsAvailable(n) && c.Cleaned().vout[n] == c.vout[n]
    ensures c.Cleaned().IsPruned() == c.IsPruned()
    ensures c.IsClean() ==> c.Cleaned() == c
    ensures c.IsPruned() <==> c.Cleaned().vout == []
  {
    TrimExact(c.vout);
  }

  /** The loop of `Cleanup`. */
  method Cleanup(vout: seq<TxOut>) returns (r: seq<TxOut>)
    ensures r == Trim(vout)
  {
    r := vout;
    while |r| > 0 && r[|r| - 1].IsNull()
      invariant Trim(r) == Trim(vout)
      decreases |r|
    {
      r := r[..|r| - 1];
    }
  }

  /** Spends exactly the output asked for: it goes, every other output keeps its value. */
  method Spend(c: Coins, nPos: nat) returns (ok: bool, r: Coins)
    ensures ok == c.IsAvailable(nPos)
    ensures !ok ==> r == c
    ensures ok ==> r.IsClean() && !r.IsAvailable(nPos)
    ensures forall n: nat :: n != nPos ==> r.IsAvailable(n) == c.IsAvailable(n)
    ensures forall n: nat :: n != nPos && c.IsAvailable(n) ==> r.IsAvailable(n) && r.vout[n] == c.vout[n]
    ensures r.fCoinBase == c.fCoinBase && r.nHeight == c.nHeight && r.nVersion == c.nVersion
  {
    if nPos >= |c.vout| || c.vout[nPos].IsNull() {
      return false, c;
    }
    var spent := c.(vout := c.vout[nPos := NullOut]);
    var vout := Cleanup(spent.vout);
    r := spent.(vout := vout);
    ok := true;
    CleanedExact(spent);
  }
}
