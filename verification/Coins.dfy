/** The unspent outputs of one transaction (`CCoins`), as a value. */
module Coins {
  import opened Basics

  /** A transaction output. A spent output is null: its value is -1. */
  datatype TxOut = TxOut(value: int, script: seq<nat>) {
    predicate IsNull() {
      value == -1
    }
  }

  const NULL_TXOUT := TxOut(-1, [])

  datatype Coins = Coins(coinBase: bool, vout: seq<TxOut>, height: int, version: int) {

    /** Entirely spent. */
    predicate IsPruned() {
      forall i | 0 <= i < |vout| :: vout[i].IsNull()
    }

    /** Not a list of outputs that are all spent. */
    predicate IsTidy() {
      IsPruned() ==> vout == []
    }

    predicate IsAvailable(n: nat) {
      n < |vout| && !vout[n].IsNull()
    }
  }

  const EMPTY_COINS := Coins(false, [], 0, 0)

  lemma EmptyIsPruned()
    ensures EMPTY_COINS.IsPruned() && EMPTY_COINS.IsTidy()
  {
  }

  /** The outputs without their trailing null ones. */
  function Trimmed(vout: seq<TxOut>): (r: seq<TxOut>)
    ensures r <= vout
    ensures r != [] ==> !r[|r| - 1].IsNull()
    ensures forall i | |r| <= i < |vout| :: vout[i].IsNull()
  {
    if vout != [] && vout[|vout| - 1].IsNull() then Trimmed(vout[..|vout| - 1]) else vout
  }

  function Cleaned(c: Coins): Coins {
    c.(vout := Trimmed(c.vout))
  }

  /** What the entry is worth to a reader: a pruned entry counts as absent. */
  function Seen(c: Coins): Option<Coins> {
    if c.IsPruned() then None else Some(c)
  }

  /** `CCoins::Cleanup` drops trailing spent outputs one by one. */
  method Cleanup(c: Coins) returns (r: Coins)
    ensures r == Cleaned(c)
  {
    var vout := c.vout;
    while |vout| > 0 && vout[|vout| - 1].IsNull()
      invariant vout <= c.vout
      invariant Trimmed(vout) == Trimmed(c.vout)
    {
      vout := vout[..|vout| - 1];
    }
    r := c.(vout := vout);
  }

  /** `CCoins::Spend`: fails on an output that is not there, otherwise nulls it and cleans up. */
  method Spend(c: Coins, pos: nat) returns (ok: bool, r: Coins)
    ensures ok == c.IsAvailable(pos)
    ensures !ok ==> r == c
    ensures ok ==> forall i: nat :: r.IsAvailable(i) <==> c.IsAvailable(i) && i != pos
    ensures ok ==> forall i: nat :: r.IsAvailable(i) ==> i < |c.vout| && r.vout[i] == c.vout[i]
    ensures ok ==> r == Cleaned(r) && r.(vout := []) == c.(vout := [])
  {
    if pos >= |c.vout| || c.vout[pos].IsNull() {
      return false, c;
    }
    r := Cleanup(c.(vout := c.vout[pos := NULL_TXOUT]));
    ok := true;
    CleanedIsStable(c.(vout := c.vout[pos := NULL_TXOUT]));
  }

  /** Cleaning never touches an unspent output, so it never changes whether an entry is pruned, and doing it twice is
      doing it once. */
  lemma CleanedIsStable(c: Coins)
    ensures forall i: nat :: Cleaned(c).IsAvailable(i) <==> c.IsAvailable(i)
    ensures Cleaned(c).IsPruned() <==> c.IsPruned()
    ensures Cleaned(c).IsPruned() <==> Cleaned(c).vout == []
    ensures Cleaned(c).IsTidy()
    ensures Cleaned(Cleaned(c)) == Cleaned(c)
  {
    var t := Trimmed(c.vout);
    forall i | 0 <= i < |c.vout|
      ensures !c.vout[i].IsNull() ==> i < |t| && t[i] == c.vout[i]
    {
    }
    if t != [] {
      assert !Cleaned(c).vout[|t| - 1].IsNull();
    }
  }
}
