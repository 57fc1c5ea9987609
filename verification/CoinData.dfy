/** Transaction outputs and the unspent part of a transaction. */
module CoinData {
  type Byte = b: nat | b < 256

  /** A transaction output; the value -1 marks one that is spent. */
  datatype TxOut = TxOut(nValue: int, script: seq<Byte>) {
    predicate IsNull() { nValue == -1 }
  }

  const NULL_OUT := TxOut(-1, [])

  /** What is left of the coins a transaction created. */
  datatype Coins = Coins(fCoinBase: bool, fCoinStake: bool, vout: seq<TxOut>, nHeight: int, nVersion: int) {
    /** Nothing is left to spend. */
    predicate IsPruned() {
      forall i | 0 <= i < |vout| :: vout[i].IsNull()
    }

    /** No spent output at the end. */
    predicate IsClean() {
      vout == [] || !vout[|vout| - 1].IsNull()
    }
  }

  const NO_COINS := Coins(false, false, [], 0, 0)

  /** The outputs up to the last unspent one. */
  function Trim(vout: seq<TxOut>): (r: seq<TxOut>)
    ensures r <= vout && (r == [] || !r[|r| - 1].IsNull())
    ensures forall i | |r| <= i < |vout| :: vout[i].IsNull()
  {
    if vout == [] || !vout[|vout| - 1].IsNull() then vout else Trim(vout[..|vout| - 1])
  }

  method Cleanup(c: Coins) returns (r: Coins)
    ensures r == c.(vout := Trim(c.vout)) && r.IsClean()
    ensures r.IsPruned() <==> c.IsPruned()
    ensures r.IsPruned() <==> r.vout == []
  {
    var vout := c.vout;
    while |vout| > 0 && vout[|vout| - 1].IsNull()
      invariant vout <= c.vout && Trim(vout) == Trim(c.vout)
    {
      vout := vout[..|vout| - 1];
    }
    r := c.(vout := vout);
  }

  /** On clean coins, having no outputs at all is the same as having none unspent. */
  lemma CleanPruned(c: Coins)
    requires c.IsClean()
    ensures c.IsPruned() <==> c.vout == []
  {
  }

  // ---------------------------------------------------------------- spending and undoing

  /** What is kept of a spent output; the last four fields only when it was the last one left. */
  datatype Undo = Undo(out: TxOut, fCoinBase: bool, fCoinStake: bool, nHeight: int, nVersion: int)

  /** What spending output n leaves. */
  function Spent(c: Coins, n: nat): Coins
    requires n < |c.vout|
  {
    c.(vout := Trim(c.vout[n := NULL_OUT]))
  }

  method Spend(c: Coins, n: nat) returns (ok: bool, c': Coins, undo: Undo)
    ensures ok <==> n < |c.vout| && !c.vout[n].IsNull()
    ensures !ok ==> c' == c
    ensures ok ==> c' == Spent(c, n) && c'.IsClean() && undo == UndoOf(c, n)
  {
    undo := Undo(NULL_OUT, false, false, 0, 0);
    if n >= |c.vout| || c.vout[n].IsNull() {
      return false, c, undo;
    }
    undo := undo.(out := c.vout[n]);
    c' := Cleanup(c.(vout := c.vout[n := NULL_OUT]));
    if |c'.vout| == 0 {
      undo := Undo(undo.out, c'.fCoinBase, c'.fCoinStake, c'.nHeight, c'.nVersion);
    }
    ok := true;
  }

  function UndoOf(c: Coins, n: nat): Undo
    requires n < |c.vout|
  {
    if Spent(c, n).vout == [] then Undo(c.vout[n], c.fCoinBase, c.fCoinStake, c.nHeight, c.nVersion)
    else Undo(c.vout[n], false, false, 0, 0)
  }

  function Padded(vout: seq<TxOut>, n: nat): (r: seq<TxOut>)
    ensures |r| == if |vout| < n then n else |vout|
    ensures forall i | 0 <= i < |r| :: r[i] == if i < |vout| then vout[i] else NULL_OUT
  {
    if |vout| < n then vout + seq(n - |vout|, i => NULL_OUT) else vout
  }

  /** Putting a spent output back when its block is disconnected. */
  method Restore(c: Coins, undo: Undo, n: nat) returns (c': Coins)
    ensures c' == Restored(c, undo, n)
  {
    c' := c;
    if undo.nHeight != 0 {
      c' := NO_COINS;
      c' := c'.(fCoinBase := undo.fCoinBase, nHeight := undo.nHeight, nVersion := undo.nVersion);
    }
    if |c'.vout| < n + 1 {
      c' := c'.(vout := Padded(c'.vout, n + 1));
    }
    c' := c'.(vout := c'.vout[n := undo.out]);
  }

  function Restored(c: Coins, undo: Undo, n: nat): Coins {
    var base :=
      if undo.nHeight == 0 then c
      else NO_COINS.(fCoinBase := undo.fCoinBase, nHeight := undo.nHeight, nVersion := undo.nVersion);
    base.(vout := Padded(base.vout, n + 1)[n := undo.out])
  }

  /** Spent outputs carry no value and no script. */
  predicate NullsAreBlank(c: Coins) {
    forall i | 0 <= i < |c.vout| && c.vout[i].IsNull() :: c.vout[i] == NULL_OUT
  }

  lemma PaddedTrim(vout: seq<TxOut>, n: nat, out: TxOut)
    requires n < |vout| && (vout[|vout| - 1].IsNull() ==> n == |vout| - 1)
    requires forall i | 0 <= i < |vout| && vout[i].IsNull() :: vout[i] == NULL_OUT || i == n
    ensures Padded(Trim(vout[n := NULL_OUT]), n + 1)[n := out] == vout[n := out]
  {
    var w := vout[n := NULL_OUT];
    forall i | 0 <= i < |w| && w[i].IsNull() ensures w[i] == NULL_OUT {}
    if n < |vout| - 1 {
      assert !w[|w| - 1].IsNull();
      assert Trim(w) == w;
    }
    assert |Padded(Trim(w), n + 1)| == |w|;
  }

  /** Disconnecting undoes spending, except that the coin-stake mark of a transaction whose last
      output was spent is lost: it is saved in the undo record but never read back. When the emptied
      entry is already gone, height zero loses the other fields as well. */
  lemma UndoRestores(c: Coins, n: nat)
    requires n < |c.vout| && !c.vout[n].IsNull() && c.IsClean() && NullsAreBlank(c)
    ensures Restored(Spent(c, n), UndoOf(c, n), n) == c <==>
            Spent(c, n).vout != [] || c.nHeight == 0 || !c.fCoinStake
    ensures Spent(c, n).vout == [] ==>
              (Restored(NO_COINS, UndoOf(c, n), n) == c <==>
               !c.fCoinStake && (c.nHeight != 0 || (!c.fCoinBase && c.nVersion == 0)))
  {
    PaddedTrim(c.vout, n, c.vout[n]);
    assert c.vout[n := c.vout[n]] == c.vout;
  }

  /** A coin stake with one output at height seven, spent and restored: it is no coin stake any more. */
  method RestoresNoStake() returns (before: Coins, after: Coins)
    ensures before.fCoinStake && before.nHeight == 7 && before.IsClean() && NullsAreBlank(before)
    ensures after == before.(fCoinStake := false)
  {
    before := Coins(false, true, [TxOut(50, [])], 7, 1);
    var ok, spent, undo := Spend(before, 0);
    after := Restore(spent, undo, 0);
  }
}
