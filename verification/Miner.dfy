/** The block assembler (`BlockAssembler`). Comparisons of fee rates and priorities are arbitrary choices. */
module Miner {
  import opened MinerPool
  import opened Sums
  import Sets

  const MAX_BLOCK_WEIGHT := 4000000
  const MAX_BLOCK_SERIALIZED_SIZE := 4000000

  /** What became of a package. */
  datatype Outcome = Mined | TooLarge | NotAllowed

  /** Why the selection of packages came to an end. */
  datatype Ending = Exhausted | FeeTooLow | NearlyFull

  function Clamp(lo: int, hi: int, x: int): int {
    var below := if x < hi then x else hi;
    if lo < below then below else lo
  }

  class BlockAssembler {
    const pool: Pool
    const nBlockMaxWeight: int
    const nBlockMaxSize: int
    var fIncludeWitness: bool
    var fNeedSizeAccounting: bool

    var vtx: seq<TxId>
    var vTxFees: seq<int>
    var vTxSigOpsCost: seq<int>
    var nBlockWeight: int
    var nBlockSize: int
    var nBlockTx: int
    var nBlockSigOpsCost: int
    var nFees: int
    var inBlock: set<TxId>

    var lastFewTxs: int
    var blockFinished: bool

    constructor (pool: Pool, blockMaxWeight: int, blockMaxSize: int)
      ensures this.pool == pool && Limited()
      ensures 4000 <= blockMaxWeight <= MAX_BLOCK_WEIGHT - 4000 ==> nBlockMaxWeight == blockMaxWeight
      ensures 1000 <= blockMaxSize <= MAX_BLOCK_SERIALIZED_SIZE - 1000 ==> nBlockMaxSize == blockMaxSize
      ensures fNeedSizeAccounting <==> blockMaxSize < MAX_BLOCK_SERIALIZED_SIZE - 1000
    {
      this.pool := pool;
      nBlockMaxWeight := Clamp(4000, MAX_BLOCK_WEIGHT - 4000, blockMaxWeight);
      var size := Clamp(1000, MAX_BLOCK_SERIALIZED_SIZE - 1000, blockMaxSize);
      nBlockMaxSize := size;
      fNeedSizeAccounting := size < MAX_BLOCK_SERIALIZED_SIZE - 1000;
    }

    /** The limits leave room for the coinbase. */
    predicate Limited() {
      4000 <= nBlockMaxWeight <= MAX_BLOCK_WEIGHT - 4000 && 1000 <= nBlockMaxSize <= MAX_BLOCK_SERIALIZED_SIZE - 1000
    }

    function State(): Block
      reads this`vtx, this`vTxFees, this`vTxSigOpsCost, this`nBlockWeight, this`nBlockSize, this`nBlockTx,
            this`nBlockSigOpsCost, this`nFees, this`inBlock
    {
      Block(vtx, vTxFees, vTxSigOpsCost, nBlockWeight, nBlockSize, nBlockTx, nBlockSigOpsCost, nFees, inBlock)
    }

    /** The block is in order and all totals are those of its transactions. */
    ghost predicate Sound()
      reads this
    {
      PoolOk(pool) && SoundBlock(pool, fIncludeWitness, State(), fNeedSizeAccounting)
    }

    ghost predicate Within()
      reads this
    {
      && nBlockWeight <= nBlockMaxWeight
      && nBlockSigOpsCost < MAX_BLOCK_SIGOPS_COST
      && (fNeedSizeAccounting ==> nBlockSize <= nBlockMaxSize)
    }

    function TheLimits(): Limits
      reads this`fNeedSizeAccounting, this`fIncludeWitness
    {
      Limits(nBlockMaxWeight, nBlockMaxSize, fNeedSizeAccounting, fIncludeWitness)
    }

    /** How many transactions are not in the block. */
    function Room(): nat
      reads this`inBlock
    {
      |pool.all - inBlock|
    }

    method ResetBlock()
      requires PoolOk(pool) && Limited()
      modifies this
      ensures Sound() && Within() && vtx == [] && nBlockSize == 1000
      ensures fNeedSizeAccounting == old(fNeedSizeAccounting)
    {
      hide PoolOk, SoundBlock;
      inBlock, vtx, vTxFees, vTxSigOpsCost := {}, [], [], [];
      nBlockSize, nBlockWeight, nBlockSigOpsCost := 1000, 4000, 400;
      fIncludeWitness := false;
      nBlockTx, nFees, lastFewTxs, blockFinished := 0, 0, 0, false;
      EmptySound(pool, State(), fNeedSizeAccounting);
    }

    method IsStillDependent(t: TxId) returns (r: bool)
      ensures r <==> !(pool.parents(t) <= inBlock)
    {
      var left := pool.parents(t);
      while |left| > 0
        invariant left <= pool.parents(t)
        invariant pool.parents(t) - left <= inBlock
        decreases |left|
      {
        ghost var some := Sets.Member(left);
        var parent :| parent in left;
        if parent !in inBlock {
          return true;
        }
        left := left - {parent};
      }
      assert pool.parents(t) == pool.parents(t) - left;
      r := false;
    }

    /** Drops what is in the block already. */
    method OnlyUnconfirmed(testSet: set<TxId>) returns (r: set<TxId>)
      ensures r == testSet - inBlock
    {
      r := testSet;
      var left := testSet;
      while |left| > 0
        invariant left <= testSet
        invariant r == (testSet - inBlock) + left
        decreases |left|
      {
        ghost var some := Sets.Member(left);
        var it :| it in left;
        if it in inBlock {
          r := r - {it};
        }
        left := left - {it};
      }
    }

    method TestPackage(packageSize: int, packageSigOpsCost: int) returns (ok: bool)
      ensures ok <==> nBlockWeight + WITNESS_SCALE_FACTOR * packageSize < nBlockMaxWeight
                      && nBlockSigOpsCost + packageSigOpsCost < MAX_BLOCK_SIGOPS_COST
    {
      if nBlockWeight + WITNESS_SCALE_FACTOR * packageSize >= nBlockMaxWeight {
        return false;
      }
      if nBlockSigOpsCost + packageSigOpsCost >= MAX_BLOCK_SIGOPS_COST {
        return false;
      }
      ok := true;
    }

    /** All of the package is eligible and, when bytes are accounted for, fits; in whatever order it is gone through. */
    method TestPackageTransactions(package: set<TxId>) returns (ok: bool)
      requires PoolOk(pool) && |package| > 0
      ensures ok <==> (forall t | t in package :: Eligible(pool, fIncludeWitness, t))
                      && (fNeedSizeAccounting ==> nBlockSize + Sum(pool.bytes, package) < nBlockMaxSize)
    {
      hide PoolOk;
      NumbersNonNegative(pool);
      var nPotentialBlockSize := nBlockSize;
      var left := package;
      while |left| > 0
        invariant left <= package
        invariant forall t | t in package && t !in left :: Eligible(pool, fIncludeWitness, t)
        invariant fNeedSizeAccounting ==>
                    nPotentialBlockSize + Sum(pool.bytes, left) == nBlockSize + Sum(pool.bytes, package)
        invariant fNeedSizeAccounting && left != package ==> nPotentialBlockSize < nBlockMaxSize
        decreases |left|
      {
        ghost var some := Sets.Member(left);
        var it :| it in left;
        SumRemove(pool.bytes, left, it);
        SumNonNegative(pool.bytes, left - {it});
        if !pool.isFinal(it) {
          return false;
        }
        if !fIncludeWitness && pool.hasWitness(it) {
          return false;
        }
        if fNeedSizeAccounting {
          var nTxSize := pool.bytes(it);
          if nPotentialBlockSize + nTxSize >= nBlockMaxSize {
            return false;
          }
          nPotentialBlockSize := nPotentialBlockSize + nTxSize;
        }
        left := left - {it};
      }
      ok := true;
    }

    /** Whether a transaction still fits; gives up for good when the block is nearly full. */
    method TestForBlock(t: TxId) returns (ok: bool)
      modifies this`lastFewTxs, this`blockFinished
      ensures ok <==> && nBlockWeight + pool.weight(t) < nBlockMaxWeight
                      && (fNeedSizeAccounting ==> nBlockSize + pool.bytes(t) < nBlockMaxSize)
                      && nBlockSigOpsCost + pool.sigops(t) < MAX_BLOCK_SIGOPS_COST
                      && pool.isFinal(t)
      ensures ok ==> blockFinished == old(blockFinished) && lastFewTxs == old(lastFewTxs)
      ensures blockFinished && !old(blockFinished) ==>
                || nBlockWeight > nBlockMaxWeight - 400
                || (fNeedSizeAccounting && nBlockSize > nBlockMaxSize - 100)
                || nBlockSigOpsCost > MAX_BLOCK_SIGOPS_COST - 8
                || lastFewTxs > 50
    {
      if nBlockWeight + pool.weight(t) >= nBlockMaxWeight {
        if nBlockWeight > nBlockMaxWeight - 400 || lastFewTxs > 50 {
          blockFinished := true;
          return false;
        }
        if nBlockWeight > nBlockMaxWeight - 4000 {
          lastFewTxs := lastFewTxs + 1;
        }
        return false;
      }
      if fNeedSizeAccounting {
        if nBlockSize + pool.bytes(t) >= nBlockMaxSize {
          if nBlockSize > nBlockMaxSize - 100 || lastFewTxs > 50 {
            blockFinished := true;
            return false;
          }
          if nBlockSize > nBlockMaxSize - 1000 {
            lastFewTxs := lastFewTxs + 1;
          }
          return false;
        }
      }
      if nBlockSigOpsCost + pool.sigops(t) >= MAX_BLOCK_SIGOPS_COST {
        if nBlockSigOpsCost > MAX_BLOCK_SIGOPS_COST - 8 {
          blockFinished := true;
          return false;
        }
        return false;
      }
      if !pool.isFinal(t) {
        return false;
      }
      ok := true;
    }

    method AddToBlock(t: TxId)
      modifies this`vtx, this`vTxFees, this`vTxSigOpsCost, this`nBlockSize, this`nBlockWeight, this`nBlockTx,
               this`nBlockSigOpsCost, this`nFees, this`inBlock
      ensures State() == Added(pool, old(State()), t, fNeedSizeAccounting)
    {
      vtx := vtx + [t];
      vTxFees := vTxFees + [pool.fee(t)];
      vTxSigOpsCost := vTxSigOpsCost + [pool.sigops(t)];
      if fNeedSizeAccounting {
        nBlockSize := nBlockSize + pool.bytes(t);
      }
      nBlockWeight := nBlockWeight + pool.weight(t);
      nBlockTx := nBlockTx + 1;
      nBlockSigOpsCost := nBlockSigOpsCost + pool.sigops(t);
      nFees := nFees + pool.fee(t);
      inBlock := inBlock + {t};
    }

    /** Takes the newly added transactions out of the totals of their descendants: each loses exactly those of its
        ancestors that were added. */
    method UpdatePackagesForAdded(alreadyAdded: set<TxId>, modified0: map<TxId, Modified>)
      returns (modified: map<TxId, Modified>)
      requires modified0.Keys <= pool.all && modified0.Keys !! alreadyAdded
      ensures Reduced(pool, modified0, modified, alreadyAdded, alreadyAdded)
    {
      hide Reduced, Taken;
      modified := modified0;
      ghost var taken: set<TxId> := {};
      var left := alreadyAdded;
      ReducedStart(pool, modified0, alreadyAdded);
      while |left| > 0
        invariant left <= alreadyAdded && taken == alreadyAdded - left
        invariant Reduced(pool, modified0, modified, alreadyAdded, taken)
        decreases |left|
      {
        ghost var some := Sets.Member(left);
        var it :| it in left;
        ghost var mid := modified;
        modified := UpdateDescendants(it, alreadyAdded, modified);
        ReducedStep(pool, modified0, mid, modified, alreadyAdded, taken, it);
        taken := taken + {it};
        left := left - {it};
      }
      assert taken == alreadyAdded;
    }

    /** The inner loop: all descendants of one added transaction. */
    method UpdateDescendants(it: TxId, alreadyAdded: set<TxId>, modified0: map<TxId, Modified>)
      returns (modified: map<TxId, Modified>)
      requires it in alreadyAdded
      ensures Taken(pool, modified0, modified, alreadyAdded, it, {})
    {
      hide Taken, TakenOut;
      modified := modified0;
      var descendants := set d | d in pool.all && it in pool.Package(d);
      var left := descendants;
      TakenStart(pool, modified, alreadyAdded, it, left);
      while |left| > 0
        invariant left <= descendants
        invariant Taken(pool, modified0, modified, alreadyAdded, it, left)
        decreases |left|
      {
        ghost var some := Sets.Member(left);
        var desc :| desc in left;
        TakenStep(pool, modified0, modified, alreadyAdded, it, left, desc);
        if desc !in alreadyAdded {
          modified := modified[desc := TakenOut(pool, modified, it, desc)];
        }
        left := left - {desc};
      }
      assert left == {};
    }

    /** `std::sort` by ancestor count. */
    method SortForBlock(package: set<TxId>) returns (sorted: seq<TxId>)
      ensures SortedPackage(pool, package, sorted)
    {
      hide SortedPackage;
      sorted := [];
      var left := package;
      SortStart(pool, package);
      while |left| > 0
        invariant left <= package
        invariant SortedPackage(pool, package - left, sorted)
        invariant forall i, t | 0 <= i < |sorted| && t in left ::
                    pool.countWithAncestors(sorted[i]) <= pool.countWithAncestors(t)
        decreases |left|
      {
        var t := Fewest(left);
        SortStep(pool, package, left, sorted, t);
        sorted := sorted + [t];
        left := left - {t};
      }
      assert package - left == package;
    }

    method Fewest(s: set<TxId>) returns (t: TxId)
      requires |s| > 0
      ensures t in s && forall x | x in s :: pool.countWithAncestors(t) <= pool.countWithAncestors(x)
    {
      ghost var some := Sets.Member(s);
      t :| t in s;
      var left := s - {t};
      while |left| > 0
        invariant left <= s && t in s && t !in left
        invariant forall x | x in s && x !in left :: pool.countWithAncestors(t) <= pool.countWithAncestors(x)
        decreases |left|
      {
        some := Sets.Member(left);
        var x :| x in left;
        if pool.countWithAncestors(x) < pool.countWithAncestors(t) {
          t := x;
        }
        left := left - {x};
      }
    }

    /** Adds a package in order, and drops its members from the modified set. */
    method AddSorted(sorted: seq<TxId>, modified0: map<TxId, Modified>, ghost t: TxId)
      returns (modified: map<TxId, Modified>)
      requires Sound() && t in pool.all && SortedPackage(pool, Missing(pool, inBlock, t), sorted)
      requires forall x | x in Missing(pool, inBlock, t) :: Eligible(pool, fIncludeWitness, x)
      modifies this`vtx, this`vTxFees, this`vTxSigOpsCost, this`nBlockSize, this`nBlockWeight, this`nBlockTx,
               this`nBlockSigOpsCost, this`nFees, this`inBlock
      ensures State() == AddedAll(pool, old(State()), sorted, fNeedSizeAccounting) && Sound()
      ensures forall d :: d in modified <==> d in modified0 && d !in sorted
      ensures forall d | d in modified :: modified[d] == modified0[d]
    {
      hide PoolOk, SoundBlock, SortedPackage, Added;
      modified := modified0;
      ghost var start := State();
      assert sorted[..0] == [];
      var i := 0;
      while i < |sorted|
        invariant 0 <= i <= |sorted|
        invariant State() == AddedAll(pool, start, sorted[..i], fNeedSizeAccounting)
        invariant forall d :: d in modified <==> d in modified0 && d !in sorted[..i]
        invariant forall d | d in modified :: modified[d] == modified0[d]
      {
        AddedNext(pool, start, sorted, i, fNeedSizeAccounting);
        SetOfPrefix(sorted, i);
        AddToBlock(sorted[i]);
        modified := modified - {sorted[i]};
        i := i + 1;
      }
      assert sorted[..i] == sorted;
      AddedAllSound(pool, fIncludeWitness, start, t, sorted, i, fNeedSizeAccounting);
    }

    /** Adds the package of t, whose totals have been tested. */
    method AddPackage(t: TxId, ancestors: set<TxId>, modified0: map<TxId, Modified>, ghost failed: set<TxId>)
      returns (modified: map<TxId, Modified>)
      requires Sound() && Within() && t in pool.all && t !in inBlock && ancestors == Missing(pool, inBlock, t)
      requires AllModifiedOk(pool, inBlock, modified0, failed)
      requires forall x | x in ancestors :: Eligible(pool, fIncludeWitness, x)
      requires nBlockWeight + WITNESS_SCALE_FACTOR * Sum(pool.size, ancestors) < nBlockMaxWeight
      requires nBlockSigOpsCost + Sum(pool.sigops, ancestors) < MAX_BLOCK_SIGOPS_COST
      requires fNeedSizeAccounting ==> nBlockSize + Sum(pool.bytes, ancestors) < nBlockMaxSize
      modifies this`vtx, this`vTxFees, this`vTxSigOpsCost, this`nBlockSize, this`nBlockWeight, this`nBlockTx,
               this`nBlockSigOpsCost, this`nFees, this`inBlock
      ensures Sound() && Within() && AllModifiedOk(pool, inBlock, modified, failed)
      ensures old(vtx) <= vtx && old(inBlock) <= inBlock && t in inBlock
              && OutGrew(pool, old(State()), State(), TheLimits())
      ensures forall d | d in modified0 :: d in modified || d in inBlock
    {
      hide PoolOk, SoundBlock, SortedPackage, AllModifiedOk, ModifiedOk, AddedAll, Missing, Closed, Reduced, Sum,
           OutGrew;
      ghost var start := State();
      BlockIsClosed(pool, fIncludeWitness, start, fNeedSizeAccounting);
      MissingIsOut(pool, inBlock, t);
      var sorted := SortForBlock(ancestors);
      var erased := AddSorted(sorted, modified0, t);
      PackageTotals(pool, ancestors, sorted);
      AddedTotals(pool, start, sorted, fNeedSizeAccounting);
      PackageKeepsOut(pool, start, TheLimits(), sorted, t);
      PackageIsNew(pool, start.inBlock, ancestors, sorted, inBlock, erased.Keys);
      SortedMembers(pool, ancestors, sorted);
      ErasedOk(pool, start.inBlock, modified0, erased, ancestors, failed);
      modified := UpdatePackagesForAdded(ancestors, erased);
      ReducedOk(pool, start.inBlock, erased, modified, ancestors, failed);
      ReducedKeeps(pool, erased, modified, ancestors);
    }

    /** While packages are selected: the block is sound and extends what it started with, the totals are exact but for
        packages that failed, and what has been seen is in the block, excluded, or a modified package. */
    ghost predicate Selecting(start: seq<TxId>, modified: map<TxId, Modified>, failed: set<TxId>, seen: set<TxId>)
      reads this
    {
      && Sound() && Within() && start <= vtx
      && AllModifiedOk(pool, inBlock, modified, failed)
      && AllSettled(pool, State(), TheLimits(), modified, failed, seen)
    }

    /** The totals that are looked at for t. */
    function TotalsOf(t: TxId, fUsingModified: bool, modified: map<TxId, Modified>): Modified
      requires fUsingModified ==> t in modified
    {
      if fUsingModified then modified[t] else Modified(pool.sizeWithAncestors(t), pool.sigopsWithAncestors(t))
    }

    /** One package: tested by its totals, then by its transactions, and added if it passes. One that fails is excluded,
        and dropped from the modified packages. */
    method TryPackage(t: TxId, fUsingModified: bool, modified0: map<TxId, Modified>, ghost start: seq<TxId>,
                      ghost failed: set<TxId>, ghost seen: set<TxId>)
      returns (outcome: Outcome, modified: map<TxId, Modified>)
      requires Selecting(start, modified0, failed, seen)
      requires if fUsingModified then t in modified0
               else t in pool.all && t !in inBlock && t !in modified0 && t !in failed
      modifies this`vtx, this`vTxFees, this`vTxSigOpsCost, this`nBlockSize, this`nBlockWeight, this`nBlockTx,
               this`nBlockSigOpsCost, this`nFees, this`inBlock
      ensures Selecting(start, modified, if outcome != Mined && fUsingModified then failed + {t} else failed,
                        seen + {t})
      ensures outcome == Mined ==> t in inBlock && Room() < old(Room())
      ensures outcome != Mined ==>
                State() == old(State()) && Room() == old(Room()) && Excluded(pool, State(), TheLimits(), t)
      ensures outcome != Mined ==>
                if fUsingModified then t !in modified && |modified.Keys| == |modified0.Keys| - 1
                    else modified == modified0
    {
      hide PoolOk, SoundBlock, AllModifiedOk, AllSettled, Excluded, OutGrew, Sum;
      modified := modified0;
      PackageTotalsSuffice(pool, inBlock, modified, failed, t);
      assert t !in inBlock;
      var package := TotalsOf(t, fUsingModified, modified);
      var ok := TestPackage(package.size, package.sigops);
      if !ok {
        if t in failed {
          FailedBefore(pool, State(), TheLimits(), modified, failed, seen, t);
        } else {
          TooLargeIsExcluded(pool, State(), TheLimits(), package, t);
        }
        modified := Fail(t, fUsingModified, modified, start, failed, seen);
        return TooLarge, modified;
      }
      var ancestors := OnlyUnconfirmed(pool.ancestors(t));
      ancestors := ancestors + {t};
      assert ancestors == Missing(pool, inBlock, t);
      assert t in ancestors;
      ok := TestPackageTransactions(ancestors);
      if !ok {
        FailedIsExcluded(pool, State(), TheLimits(), t);
        modified := Fail(t, fUsingModified, modified, start, failed, seen);
        return NotAllowed, modified;
      }
      ghost var before := State();
      modified := AddPackage(t, ancestors, modified, failed);
      FewerLeft(pool.all, before.inBlock, inBlock, t);
      SettledGrown(pool, before, State(), TheLimits(), modified0, modified, failed, seen, t);
      outcome := Mined;
    }

    /** A package that cannot be added. */
    method Fail(t: TxId, fUsingModified: bool, modified0: map<TxId, Modified>, ghost start: seq<TxId>,
                ghost failed: set<TxId>, ghost seen: set<TxId>)
      returns (modified: map<TxId, Modified>)
      requires Selecting(start, modified0, failed, seen) && Excluded(pool, State(), TheLimits(), t)
      requires fUsingModified ==> t in modified0
      ensures Selecting(start, modified, if fUsingModified then failed + {t} else failed, seen + {t})
      ensures if fUsingModified then t !in modified && |modified.Keys| == |modified0.Keys| - 1
              else modified == modified0
    {
      hide PoolOk, SoundBlock, AllModifiedOk, AllSettled, Excluded;
      modified := modified0;
      if fUsingModified {
        Dropped(pool, inBlock, modified, failed, t);
        SettledDropped(pool, State(), TheLimits(), modified, failed, seen, t);
        modified := modified - {t};
      } else {
        SettledMore(pool, State(), TheLimits(), modified, failed, seen, t);
      }
    }

    /** The next transaction of the pool, or one of the modified ones. */
    method Choose(order: seq<TxId>, mi: nat, modified: map<TxId, Modified>) returns (fUsingModified: bool, iter: TxId)
      requires mi < |order| || (mi == |order| && |modified.Keys| > 0)
      ensures if fUsingModified then iter in modified else mi < |order| && iter == order[mi]
    {
      var fBetter := *;
      fUsingModified := mi == |order| || (|modified.Keys| > 0 && fBetter);
      if fUsingModified {
        iter :| iter in modified.Keys;
      } else {
        iter := order[mi];
      }
    }

    /** Tries a package and keeps count of the failures; gives up after many of them close to the limit. */
    method Consider(t: TxId, fUsingModified: bool, modified0: map<TxId, Modified>, failed0: set<TxId>,
                    consecutive0: nat, ghost start: seq<TxId>, ghost seen: set<TxId>)
      returns (modified: map<TxId, Modified>, failedTx: set<TxId>, nConsecutiveFailed: nat, fGiveUp: bool)
      requires Selecting(start, modified0, failed0, seen)
      requires if fUsingModified then t in modified0
               else t in pool.all && t !in inBlock && t !in modified0 && t !in failed0
      modifies this`vtx, this`vTxFees, this`vTxSigOpsCost, this`nBlockSize, this`nBlockWeight, this`nBlockTx,
               this`nBlockSigOpsCost, this`nFees, this`inBlock
      ensures Selecting(start, modified, failedTx, seen + {t})
      ensures fGiveUp ==> nBlockWeight > nBlockMaxWeight - 4000
      ensures
        || Room() < old(Room())
        || (Room() == old(Room()) && |modified.Keys| == |modified0.Keys| - if fUsingModified then 1 else 0)
    {
      hide Excluded, Selecting, State, TheLimits, Room;
      var outcome;
      outcome, modified := TryPackage(t, fUsingModified, modified0, start, failed0, seen);
      failedTx, nConsecutiveFailed, fGiveUp := failed0, consecutive0, false;
      if outcome == Mined {
        nConsecutiveFailed := 0;
      } else {
        if fUsingModified {
          failedTx := failedTx + {t};
        }
        if outcome == TooLarge {
          nConsecutiveFailed := nConsecutiveFailed + 1;
          fGiveUp := nConsecutiveFailed > 1000 && nBlockWeight > nBlockMaxWeight - 4000;
        }
      }
    }

    /** `order` is the pool in order of feerate. Whether the best modified package is better than the next one of the
        pool is an arbitrary choice; `cheap` says in which rounds a package pays less than the minimum feerate. The loop
        ends because every round adds to the block, moves on in the pool or drops a modified package. Unless it stops
        for a low fee or close to the limit, nothing is left out whose missing ancestors would fit with it. */
    method AddPackageTxs(order: seq<TxId>, cheap: nat -> bool) returns (ending: Ending)
      requires Sound() && Within() && forall i | 0 <= i < |order| :: order[i] in pool.all
      modifies this`vtx, this`vTxFees, this`vTxSigOpsCost, this`nBlockSize, this`nBlockWeight, this`nBlockTx,
               this`nBlockSigOpsCost, this`nFees, this`inBlock
      ensures Sound() && Within() && old(vtx) <= vtx
      ensures ending == Exhausted ==>
                forall i | 0 <= i < |order| :: order[i] in inBlock || Excluded(pool, State(), TheLimits(), order[i])
      ensures ending == FeeTooLow ==> exists k :: cheap(k)
      ensures ending == NearlyFull ==> nBlockWeight > nBlockMaxWeight - 4000
    {
      hide Excluded, Grew, Selecting, Sound, Within, State, TheLimits, Room;
      var mapModifiedTx := StartModified();
      var failedTx: set<TxId> := {};
      ghost var seen: set<TxId> := {};
      var mi, nConsecutiveFailed, round := 0, 0, 0;
      ending := Exhausted;
      while mi < |order| || |mapModifiedTx.Keys| > 0
        invariant 0 <= mi <= |order|
        invariant Selecting(old(vtx), mapModifiedTx, failedTx, seen) && ending == Exhausted
        invariant forall i | 0 <= i < mi :: order[i] in seen
        decreases Room(), |order| - mi + |mapModifiedTx.Keys|
      {
        if mi < |order| && (order[mi] in mapModifiedTx || order[mi] in inBlock || order[mi] in failedTx) {
          SeenAgain(old(vtx), mapModifiedTx, failedTx, seen, order[mi]);
          seen := seen + {order[mi]};
          mi := mi + 1;
          continue;
        }
        var fUsingModified, iter := Choose(order, mi, mapModifiedTx);
        if !fUsingModified {
          mi := mi + 1;
        }
        if cheap(round) {
          ending := FeeTooLow;
          break;
        }
        round := round + 1;
        var fGiveUp;
        mapModifiedTx, failedTx, nConsecutiveFailed, fGiveUp :=
          Consider(iter, fUsingModified, mapModifiedTx, failedTx, nConsecutiveFailed, old(vtx), seen);
        seen := seen + {iter};
        if fGiveUp {
          ending := NearlyFull;
          break;
        }
      }
      SelectingIsSound(old(vtx), mapModifiedTx, failedTx, seen);
    }

    lemma SeenAgain(start: seq<TxId>, modified: map<TxId, Modified>, failed: set<TxId>, seen: set<TxId>, t: TxId)
      requires Selecting(start, modified, failed, seen) && (t in modified || t in inBlock || t in failed)
      ensures Selecting(start, modified, failed, seen + {t})
    {
      hide PoolOk, SoundBlock, AllModifiedOk, AllSettled, Excluded;
      SettledAgain(pool, State(), TheLimits(), modified, failed, seen, t);
    }

    lemma SelectingIsSound(start: seq<TxId>, modified: map<TxId, Modified>, failed: set<TxId>, seen: set<TxId>)
      requires Selecting(start, modified, failed, seen)
      ensures Sound() && Within() && start <= vtx
      ensures |modified.Keys| == 0 ==> forall t | t in seen :: t in inBlock || Excluded(pool, State(), TheLimits(), t)
    {
      hide PoolOk, SoundBlock, AllModifiedOk, AllSettled, Excluded;
      if |modified.Keys| == 0 {
        SettledEnd(pool, State(), TheLimits(), modified, failed, seen);
      }
    }

    /** The descendants of what is in the block already. */
    method StartModified() returns (modified: map<TxId, Modified>)
      requires Sound() && Within()
      ensures Selecting(vtx, modified, {}, {}) && Reduced(pool, map[], modified, inBlock, inBlock)
    {
      hide PoolOk, SoundBlock, AllModifiedOk, Reduced, AllSettled, Excluded;
      NothingModified(pool);
      modified := UpdatePackagesForAdded(inBlock, map[]);
      ReducedOk(pool, {}, map[], modified, inBlock, {});
      assert {} + inBlock == inBlock;
      NothingSettled(pool, State(), TheLimits(), modified);
    }

    /** The initial contents of the priority queue. */
    method AllQueued() returns (vecPriority: seq<TxId>)
      requires inBlock == {}
      ensures QueueOk(pool, inBlock, vecPriority, {}) && forall t | t in pool.all :: t in vecPriority
    {
      vecPriority := [];
      var left := pool.all;
      while |left| > 0
        invariant left <= pool.all
        invariant QueueOk(pool, inBlock, vecPriority, left) && forall t | t in pool.all :: t in left || t in vecPriority
        decreases |left|
      {
        var t :| t in left;
        QueuePush(pool, inBlock, vecPriority, left, t);
        vecPriority := vecPriority + [t];
        left := left - {t};
      }
      assert left == {};
    }

    /** Puts the children that were waiting back into the queue. */
    method Requeue(t: TxId, queue: seq<TxId>, waiting: set<TxId>) returns (vecPriority: seq<TxId>, waitPri: set<TxId>)
      requires QueueOk(pool, inBlock, queue, waiting)
      ensures QueueOk(pool, inBlock, vecPriority, waitPri)
      ensures forall c :: c in vecPriority <==> c in queue || (c in waiting && c in pool.all && t in pool.parents(c))
      ensures forall c :: c in waitPri <==> c in waiting && !(c in pool.all && t in pool.parents(c))
    {
      hide QueueOk;
      vecPriority, waitPri := queue, waiting;
      var children := set c | c in pool.all && t in pool.parents(c);
      var left := children;
      while |left| > 0
        invariant QueueOk(pool, inBlock, vecPriority, waitPri) && left <= children
        invariant forall c :: c in vecPriority <==> c in queue || (c in waiting && c in children && c !in left)
        invariant forall c :: c in waitPri <==> c in waiting && !(c in children && c !in left)
        decreases |left|
      {
        var child :| child in left;
        if child in waitPri {
          WaitingIsOut(pool, inBlock, vecPriority, waitPri, child);
          QueuePush(pool, inBlock, vecPriority, waitPri, child);
          vecPriority := vecPriority + [child];
          waitPri := waitPri - {child};
        }
        left := left - {child};
      }
    }

    /** One transaction of the queue: added if it may and fits, or left to wait. True if the phase is over. */
    method PriorityStep(iter: TxId, queue: seq<TxId>, waiting: set<TxId>, prioritySize: nat, lowPriority: TxId -> bool)
      returns (done: bool, vecPriority: seq<TxId>, waitPri: set<TxId>)
      requires Sound() && Within() && fNeedSizeAccounting && QueueOk(pool, inBlock, queue, waiting)
      requires Queued(pool, inBlock, waiting, iter) && iter !in queue
      requires AllHandled(pool, State(), TheLimits(), queue, waiting, {iter})
      modifies this`vtx, this`vTxFees, this`vTxSigOpsCost, this`nBlockSize, this`nBlockWeight, this`nBlockTx,
               this`nBlockSigOpsCost, this`nFees, this`inBlock, this`lastFewTxs, this`blockFinished
      ensures Sound() && Within() && QueueOk(pool, inBlock, vecPriority, waitPri)
      ensures (Room() == old(Room()) && vecPriority == queue) || Room() < old(Room())
      ensures !done ==> AllHandled(pool, State(), TheLimits(), vecPriority, waitPri, {})
      ensures done ==> nBlockSize >= prioritySize || (iter in inBlock && lowPriority(iter))
    {
      hide PoolOk, SoundBlock, QueueOk, AllHandled, Grew;
      done, vecPriority, waitPri := false, queue, waiting;
      assert iter !in inBlock;
      if !fIncludeWitness && pool.hasWitness(iter) {
        HandledUnfit(pool, State(), TheLimits(), queue, waiting, iter);
        return;
      }
      var dependent := IsStillDependent(iter);
      if dependent {
        QueueWait(pool, inBlock, queue, waiting, iter);
        HandledWait(pool, State(), TheLimits(), queue, waiting, iter);
        waitPri := waitPri + {iter};
        return;
      }
      var ok := TestForBlock(iter);
      if ok {
        ghost var before := State();
        AddFitting(iter, queue, waiting);
        if nBlockSize >= prioritySize || lowPriority(iter) {
          return true, vecPriority, waitPri;
        }
        vecPriority, waitPri := Requeue(iter, vecPriority, waitPri);
        HandledAdded(pool, before, State(), TheLimits(), queue, waiting, vecPriority, waitPri, iter);
      } else {
        HandledUnfit(pool, State(), TheLimits(), queue, waiting, iter);
      }
    }

    /** Adds a transaction of the queue that fits and whose parents are in the block. */
    method AddFitting(t: TxId, ghost queue: seq<TxId>, ghost waiting: set<TxId>)
      requires Sound() && Within() && fNeedSizeAccounting && QueueOk(pool, inBlock, queue, waiting)
      requires Queued(pool, inBlock, waiting, t) && t !in queue && pool.parents(t) <= inBlock
               && !Unfit(pool, State(), TheLimits(), t)
      modifies this`vtx, this`vTxFees, this`vTxSigOpsCost, this`nBlockSize, this`nBlockWeight, this`nBlockTx,
               this`nBlockSigOpsCost, this`nFees, this`inBlock
      ensures Sound() && Within() && QueueOk(pool, inBlock, queue, waiting)
      ensures inBlock == old(inBlock) + {t} && Grew(old(State()), State(), true) && Room() < old(Room())
    {
      hide PoolOk, SoundBlock, QueueOk, Added, Grew;
      BlockIsClosed(pool, fIncludeWitness, State(), true);
      ParentsSuffice(pool, inBlock, t);
      AddedSound(pool, fIncludeWitness, State(), t, true);
      QueueAdded(pool, inBlock, queue, waiting, t);
      FewerLeft(pool.all, inBlock, inBlock + {t}, t);
      AddedFields(pool, State(), t);
      AddedGrows(pool, State(), t);
      AddToBlock(t);
    }

    /** Bytes are accounted for during this phase whatever the configuration; the block is still empty. When the phase
        runs out of transactions, all that are left would not fit, may not be mined or have a parent that is left. */
    method AddPriorityTxs(blockPrioritySize: nat, lowPriority: TxId -> bool) returns (exhausted: bool)
      requires Sound() && Within() && vtx == [] && nBlockSize == 1000 <= nBlockMaxSize
      modifies this
      ensures Sound() && Within() && fNeedSizeAccounting == old(fNeedSizeAccounting)
              && fIncludeWitness == old(fIncludeWitness)
      ensures exhausted ==> forall t | t in pool.all ::
                t in inBlock || !(pool.parents(t) <= inBlock) || Unfit(pool, State(), TheLimits().(sizes := true), t)
      ensures !exhausted ==>
                || blockPrioritySize <= nBlockSize || nBlockMaxSize <= nBlockSize || blockFinished
                || exists t :: t in inBlock && lowPriority(t)
    {
      var nBlockPrioritySize := if blockPrioritySize < nBlockMaxSize then blockPrioritySize else nBlockMaxSize;
      if nBlockPrioritySize == 0 {
        return false;
      }
      var fSizeAccounting := fNeedSizeAccounting;
      SizesFromStart(pool, fIncludeWitness, State(), fNeedSizeAccounting);
      fNeedSizeAccounting := true;
      exhausted := PriorityLoop(nBlockPrioritySize, lowPriority);
      SizesDropped(pool, fIncludeWitness, State(), fSizeAccounting);
      fNeedSizeAccounting := fSizeAccounting;
    }

    method PriorityLoop(nBlockPrioritySize: nat, lowPriority: TxId -> bool) returns (exhausted: bool)
      requires Sound() && Within() && fNeedSizeAccounting && inBlock == {}
      modifies this`vtx, this`vTxFees, this`vTxSigOpsCost, this`nBlockSize, this`nBlockWeight, this`nBlockTx,
               this`nBlockSigOpsCost, this`nFees, this`inBlock, this`lastFewTxs, this`blockFinished
      ensures Sound() && Within()
      ensures exhausted ==> forall t | t in pool.all ::
                t in inBlock || !(pool.parents(t) <= inBlock) || Unfit(pool, State(), TheLimits(), t)
      ensures !exhausted ==> nBlockSize >= nBlockPrioritySize || blockFinished || exists t ::
                t in inBlock && lowPriority(t)
    {
      hide PoolOk, SoundBlock, QueueOk, AllHandled, Unfit;
      var vecPriority := AllQueued();
      var waitPri: set<TxId> := {};
      HandledStart(pool, State(), TheLimits(), vecPriority);
      while |vecPriority| > 0 && !blockFinished
        invariant Sound() && Within() && QueueOk(pool, inBlock, vecPriority, waitPri)
        invariant AllHandled(pool, State(), TheLimits(), vecPriority, waitPri, {})
        decreases Room(), |vecPriority|
      {
        var i: nat :| i < |vecPriority|;
        QueuePop(pool, inBlock, vecPriority, waitPri, i);
        HandledPop(pool, State(), TheLimits(), vecPriority, waitPri, i);
        var iter := vecPriority[i];
        vecPriority := vecPriority[..i] + vecPriority[i + 1..];
        var done;
        done, vecPriority, waitPri := PriorityStep(iter, vecPriority, waitPri, nBlockPrioritySize, lowPriority);
        if done {
          return false;
        }
      }
      exhausted := |vecPriority| == 0;
      if exhausted {
        assert vecPriority == [];
        HandledEnd(pool, State(), TheLimits(), waitPri);
      }
    }

    /** A whole block: parents before children, nothing twice, and within all limits; and nothing is left out whose
        missing ancestors would fit with it, unless the selection stopped for a low fee or close to the limit. */
    method CreateNewBlock(order: seq<TxId>, includeWitness: bool, blockPrioritySize: nat, lowPriority: TxId -> bool,
                          cheap: nat -> bool)
      returns (ending: Ending)
      requires PoolOk(pool) && Limited()
      requires forall i | 0 <= i < |order| :: order[i] in pool.all
      modifies this
      ensures Sound() && Within()
      ensures forall i, q | 0 <= i < |vtx| && q in pool.parents(vtx[i]) :: q in vtx[..i]
      ensures forall i, j | 0 <= i < j < |vtx| :: vtx[i] != vtx[j]
      ensures ending == Exhausted ==>
                forall i | 0 <= i < |order| :: order[i] in inBlock || Excluded(pool, State(), TheLimits(), order[i])
      ensures ending == FeeTooLow ==> exists k :: cheap(k)
      ensures ending == NearlyFull ==> nBlockWeight > nBlockMaxWeight - 4000
      ensures fIncludeWitness == includeWitness && fNeedSizeAccounting == old(fNeedSizeAccounting)
    {
      hide PoolOk, Excluded;
      ResetBlock();
      fIncludeWitness := includeWitness;
      var exhausted := AddPriorityTxs(blockPrioritySize, lowPriority);
      ending := AddPackageTxs(order, cheap);
      InOrder(pool, vtx, inBlock);
    }
  }
}
