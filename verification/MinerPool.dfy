/**
 The memory pool as block assembly sees it: a finite graph of transactions with their ancestors, and the totals that the
 pool caches for each transaction. Then what the assembler keeps: which transactions are in the block in which order,
 and the totals of packages that lost some ancestors to the block.
 */
module MinerPool {
  import Sets
  import opened Sums

  type TxId = nat

  const MAX_BLOCK_SIGOPS_COST := 80000
  const WITNESS_SCALE_FACTOR := 4

  /** The entries of the pool by the hash of the transaction. `size` is the virtual size, `bytes` the serialised one. */
  datatype Pool = Pool(
    all: set<TxId>,
    fee: TxId -> int, size: TxId -> int, weight: TxId -> int, sigops: TxId -> int, bytes: TxId -> int,
    isFinal: TxId -> bool, hasWitness: TxId -> bool,
    parents: TxId -> set<TxId>, ancestors: TxId -> set<TxId>,
    bytesPerSigop: nat, countWithAncestors: TxId -> int, sizeWithAncestors: TxId -> int,
        sigopsWithAncestors: TxId -> int)
  {
    function Package(t: TxId): set<TxId> {
      ancestors(t) + {t}
    }
  }

  /** `GetVirtualTransactionSize`: a quarter of the weight, rounded up, or more for many signature operations. */
  function VirtualSize(weight: int, sigopWeight: int): (r: int)
    ensures WITNESS_SCALE_FACTOR * r >= weight && WITNESS_SCALE_FACTOR * r >= sigopWeight
  {
    ((if weight < sigopWeight then sigopWeight else weight) + WITNESS_SCALE_FACTOR - 1) / WITNESS_SCALE_FACTOR
  }

  ghost predicate NumbersOk(p: Pool, t: TxId) {
    && p.weight(t) >= 0 && p.sigops(t) >= 0 && p.bytes(t) >= 0
    && p.size(t) == VirtualSize(p.weight(t), p.sigops(t) * p.bytesPerSigop)
  }

  /** Ancestors are the parents and their ancestors, and never the transaction itself. */
  ghost predicate LinksOk(p: Pool, t: TxId) {
    t in p.all ==>
      && p.parents(t) <= p.ancestors(t) <= p.all && t !in p.ancestors(t)
      && (forall a | a in p.ancestors(t) :: p.ancestors(a) <= p.ancestors(t))
      && (forall a | a in p.ancestors(t) :: a in p.parents(t) || exists q :: q in p.parents(t) && a in p.ancestors(q))
  }

  /** The cached totals are right. */
  ghost predicate TotalsOk(p: Pool, t: TxId) {
    t in p.all ==>
      && p.countWithAncestors(t) == |p.Package(t)|
      && p.sizeWithAncestors(t) == Sum(p.size, p.Package(t))
      && p.sigopsWithAncestors(t) == Sum(p.sigops, p.Package(t))
  }

  ghost predicate PoolOk(p: Pool) {
    && (forall t :: NumbersOk(p, t))
    && (forall t :: LinksOk(p, t))
    && (forall t :: TotalsOk(p, t))
  }

  /** A transaction has more ancestors than any of its ancestors. */
  lemma CountGrows(p: Pool, a: TxId, t: TxId)
    requires PoolOk(p) && t in p.all && a in p.ancestors(t)
    ensures a in p.all && p.countWithAncestors(a) < p.countWithAncestors(t)
  {
    assert LinksOk(p, t) && TotalsOk(p, t);
    assert LinksOk(p, a) && TotalsOk(p, a);
    assert p.Package(a) <= p.ancestors(t);
    Sets.SubsetSize(p.Package(a), p.ancestors(t));
  }

  // ---------- The block ----------

  /** The i-th transaction is new and comes after all its parents. */
  ghost predicate PlacedOk(p: Pool, vtx: seq<TxId>, i: int) {
    0 <= i < |vtx| ==>
      && vtx[i] in p.all && vtx[i] !in vtx[..i]
      && forall q | q in p.parents(vtx[i]) :: q in vtx[..i]
  }

  /** No transaction without its ancestors. */
  ghost predicate ClosedAt(p: Pool, inBlock: set<TxId>, t: TxId) {
    t in inBlock ==> t in p.all && p.ancestors(t) <= inBlock
  }

  ghost predicate Closed(p: Pool, inBlock: set<TxId>) {
    forall t :: ClosedAt(p, inBlock, t)
  }

  ghost predicate BlockOk(p: Pool, vtx: seq<TxId>, inBlock: set<TxId>) {
    && (forall i :: PlacedOk(p, vtx, i))
    && Closed(p, inBlock)
    && (forall t :: t in inBlock <==> t in vtx)
  }

  /** The block under construction, with its running totals. */
  datatype Block = Block(
    vtx: seq<TxId>, fees: seq<int>, costs: seq<int>,
    weight: int, size: int, count: int, sigops: int, feeTotal: int, inBlock: set<TxId>)

  /** A transaction that may go into the block on its own account. */
  predicate Eligible(p: Pool, includeWitness: bool, t: TxId) {
    p.isFinal(t) && (includeWitness || !p.hasWitness(t))
  }

  ghost predicate ListedOk(p: Pool, includeWitness: bool, b: Block, i: int) {
    0 <= i < |b.vtx| && |b.fees| == |b.costs| == |b.vtx| ==>
      Eligible(p, includeWitness, b.vtx[i]) && b.fees[i] == p.fee(b.vtx[i]) && b.costs[i] == p.sigops(b.vtx[i])
  }

  /** The totals are those of the transactions; that of the bytes only when it is kept. */
  ghost predicate TotalsAre(p: Pool, b: Block, sizes: bool) {
    && b.weight == 4000 + Total(p.weight, b.vtx)
    && b.sigops == 400 + Total(p.sigops, b.vtx)
    && b.feeTotal == Total(p.fee, b.vtx)
    && b.count == |b.vtx| == |b.fees| == |b.costs|
    && (sizes ==> b.size == 1000 + Total(p.bytes, b.vtx))
  }

  /** The block is in order: parents first, nothing twice, every transaction eligible, and the totals right. */
  ghost predicate SoundBlock(p: Pool, includeWitness: bool, b: Block, sizes: bool) {
    && BlockOk(p, b.vtx, b.inBlock)
    && TotalsAre(p, b, sizes)
    && forall i :: ListedOk(p, includeWitness, b, i)
  }

  lemma EmptySound(p: Pool, b: Block, sizes: bool)
    requires b == Block([], [], [], 4000, 1000, 0, 400, 0, {})
    ensures SoundBlock(p, false, b, sizes)
  {
  }

  function Added(p: Pool, b: Block, t: TxId, sizes: bool): Block {
    Block(b.vtx + [t], b.fees + [p.fee(t)], b.costs + [p.sigops(t)],
          b.weight + p.weight(t), b.size + (if sizes then p.bytes(t) else 0), b.count + 1, b.sigops + p.sigops(t),
          b.feeTotal + p.fee(t), b.inBlock + {t})
  }

  /** b' is b with more transactions. */
  ghost predicate Grew(b: Block, b': Block, sizes: bool) {
    && b.vtx <= b'.vtx && b.inBlock <= b'.inBlock
    && b.weight <= b'.weight && b.sigops <= b'.sigops && (sizes ==> b.size <= b'.size)
  }

  lemma AddedSound(p: Pool, includeWitness: bool, b: Block, t: TxId, sizes: bool)
    requires PoolOk(p) && SoundBlock(p, includeWitness, b, sizes) && Eligible(p, includeWitness, t)
    requires t in p.all && t !in b.inBlock && p.ancestors(t) <= b.inBlock
    ensures SoundBlock(p, includeWitness, Added(p, b, t, sizes), sizes)
  {
    hide PoolOk, BlockOk, TotalsAre;
    BlockAppend(p, b.vtx, b.inBlock, t);
    AddedTotalsAre(p, b, t, sizes);
    LengthsAgree(p, b, sizes);
    var b' := Added(p, b, t, sizes);
    forall i
      ensures ListedOk(p, includeWitness, b', i)
    {
      assert ListedOk(p, includeWitness, b, i);
    }
  }

  lemma LengthsAgree(p: Pool, b: Block, sizes: bool)
    requires TotalsAre(p, b, sizes)
    ensures |b.fees| == |b.costs| == |b.vtx|
  {
  }

  lemma AddedTotalsAre(p: Pool, b: Block, t: TxId, sizes: bool)
    requires TotalsAre(p, b, sizes)
    ensures TotalsAre(p, Added(p, b, t, sizes), sizes)
  {
    TotalAppend(p.weight, b.vtx, t);
    TotalAppend(p.sigops, b.vtx, t);
    TotalAppend(p.bytes, b.vtx, t);
    TotalAppend(p.fee, b.vtx, t);
  }

  lemma BlockAppend(p: Pool, vtx: seq<TxId>, inBlock: set<TxId>, t: TxId)
    requires PoolOk(p) && BlockOk(p, vtx, inBlock) && t in p.all && t !in inBlock && p.ancestors(t) <= inBlock
    ensures BlockOk(p, vtx + [t], inBlock + {t})
  {
    var vtx', inBlock' := vtx + [t], inBlock + {t};
    assert LinksOk(p, t);
    forall i
      ensures PlacedOk(p, vtx', i)
    {
      assert PlacedOk(p, vtx, i);
      if 0 <= i < |vtx| {
        assert vtx'[..i] == vtx[..i];
      } else if i == |vtx| {
        assert vtx'[..i] == vtx;
      }
    }
    forall x
      ensures ClosedAt(p, inBlock', x)
    {
      assert ClosedAt(p, inBlock, x);
    }
    forall x
      ensures x in inBlock' <==> x in vtx'
    {
    }
  }

  /** Once the parents are in the block, so are all ancestors. */
  lemma ParentsSuffice(p: Pool, inBlock: set<TxId>, t: TxId)
    requires PoolOk(p) && Closed(p, inBlock) && t in p.all && p.parents(t) <= inBlock
    ensures p.ancestors(t) <= inBlock
  {
    assert LinksOk(p, t);
    forall a | a in p.ancestors(t)
      ensures a in inBlock
    {
      if a !in p.parents(t) {
        var q :| q in p.parents(t) && a in p.ancestors(q);
        assert ClosedAt(p, inBlock, q);
      }
    }
  }

  // ---------- Packages ----------

  /** What would have to be added to the block for t. */
  ghost function Missing(p: Pool, inBlock: set<TxId>, t: TxId): set<TxId> {
    p.Package(t) - inBlock
  }

  /** Cached totals of a package after some of its ancestors went into the block. */
  datatype Modified = Modified(size: int, sigops: int)

  /** The totals of d to start from: the modified ones, or else those of the pool. */
  function Base(p: Pool, modified: map<TxId, Modified>, d: TxId): Modified {
    if d in modified then modified[d] else Modified(p.sizeWithAncestors(d), p.sigopsWithAncestors(d))
  }

  /** The totals that count exactly what is missing. */
  ghost function Exact(p: Pool, inBlock: set<TxId>, d: TxId): Modified {
    Modified(Sum(p.size, Missing(p, inBlock, d)), Sum(p.sigops, Missing(p, inBlock, d)))
  }

  /** The totals of d count what is missing: exactly, or too much if d was dropped as a modified package before. */
  ghost predicate ModifiedOk(p: Pool, inBlock: set<TxId>, modified: map<TxId, Modified>, failed: set<TxId>, d: TxId) {
    && (d in modified ==> d in p.all && d !in inBlock)
    && (d in p.all && d !in inBlock ==>
          var base, exact := Base(p, modified, d), Exact(p, inBlock, d);
          && base.size >= exact.size && base.sigops >= exact.sigops
          && (d !in failed ==> base == exact))
  }

  ghost predicate AllModifiedOk(p: Pool, inBlock: set<TxId>, modified: map<TxId, Modified>, failed: set<TxId>) {
    forall d :: ModifiedOk(p, inBlock, modified, failed, d)
  }

  lemma NumbersNonNegative(p: Pool)
    requires PoolOk(p)
    ensures forall t :: p.size(t) >= 0
    ensures forall t :: p.sigops(t) >= 0
    ensures forall t :: p.bytes(t) >= 0
    ensures forall t :: p.weight(t) >= 0
  {
    forall t
      ensures p.size(t) >= 0 && p.sigops(t) >= 0 && p.bytes(t) >= 0 && p.weight(t) >= 0
    {
      assert NumbersOk(p, t);
    }
  }

  /** The pool's own totals count every ancestor, so they never under-count what is missing. */
  lemma CachedSuffice(p: Pool, inBlock: set<TxId>, t: TxId)
    requires PoolOk(p) && t in p.all
    ensures p.sizeWithAncestors(t) >= Sum(p.size, Missing(p, inBlock, t))
    ensures p.sigopsWithAncestors(t) >= Sum(p.sigops, Missing(p, inBlock, t))
  {
    assert TotalsOk(p, t);
    NumbersNonNegative(p);
    SumSubset(p.size, Missing(p, inBlock, t), p.Package(t));
    SumSubset(p.sigops, Missing(p, inBlock, t), p.Package(t));
  }

  /** A package that fits by its cached totals fits by its weight and signature operations. */
  lemma {:induction false} WeightOfPackage(p: Pool, s: set<TxId>)
    requires PoolOk(p)
    ensures Sum(p.weight, s) <= WITNESS_SCALE_FACTOR * Sum(p.size, s)
    decreases |s|
  {
    if |s| > 0 {
      var x := Pick(s);
      assert NumbersOk(p, x);
      WeightOfPackage(p, s - {x});
    }
  }

  // ---------- Adding a sorted package ----------

  ghost predicate NoRepeats(s: seq<TxId>) {
    forall i, j | 0 <= i < j < |s| :: s[i] != s[j]
  }

  ghost predicate SortedByCount(p: Pool, s: seq<TxId>) {
    forall i, j | 0 <= i < j < |s| :: p.countWithAncestors(s[i]) <= p.countWithAncestors(s[j])
  }

  /** The package in an order with ancestors first. */
  ghost predicate SortedPackage(p: Pool, package: set<TxId>, s: seq<TxId>) {
    NoRepeats(s) && SortedByCount(p, s) && (forall t :: t in s <==> t in package)
  }

  /** When the package of t is added in that order, every transaction finds its ancestors in the block. */
  lemma AncestorsFirst(p: Pool, inBlock: set<TxId>, t: TxId, s: seq<TxId>, i: nat)
    requires PoolOk(p) && t in p.all && SortedPackage(p, Missing(p, inBlock, t), s) && i < |s|
    ensures s[i] in p.all && s[i] !in inBlock && s[i] !in s[..i]
    ensures forall a | a in p.ancestors(s[i]) :: a in inBlock || a in s[..i]
  {
    var x := s[i];
    assert x in s && LinksOk(p, t);
    assert LinksOk(p, x);
    assert p.ancestors(x) <= p.Package(t);
    forall a | a in p.ancestors(x)
      ensures a in inBlock || a in s[..i]
    {
      if a !in inBlock {
        assert a in s;
        var j :| 0 <= j < |s| && s[j] == a;
        CountGrows(p, a, x);
        assert j < i;
      }
    }
  }

  lemma SetOfPrefix(s: seq<TxId>, i: nat)
    requires i < |s|
    ensures forall t :: t in s[..i + 1] <==> t in s[..i] || t == s[i]
  {
    assert s[..i + 1] == s[..i] + [s[i]];
  }

  // ---------- Updating the packages of descendants ----------

  /** d is a descendant of `it` that was not added together with it. */
  predicate Affected(p: Pool, added: set<TxId>, it: TxId, d: TxId) {
    d in p.all && d !in added && it in p.ancestors(d)
  }

  function TakenOut(p: Pool, modified: map<TxId, Modified>, it: TxId, d: TxId): Modified {
    Modified(Base(p, modified, d).size - p.size(it), Base(p, modified, d).sigops - p.sigops(it))
  }

  /** What one added transaction does to the totals of d, if it is its turn. */
  ghost predicate TakenAt(p: Pool, before: map<TxId, Modified>, after: map<TxId, Modified>, added: set<TxId>, it: TxId,
                          left: set<TxId>, d: TxId) {
    var hit := Affected(p, added, it, d) && d !in left;
    && (d in after <==> d in before || hit)
    && (d in after ==> after[d] == if hit then TakenOut(p, before, it, d) else before[d])
  }

  /** The descendants of `it` that are not left to do have been updated. */
  ghost predicate Taken(p: Pool, before: map<TxId, Modified>, after: map<TxId, Modified>, added: set<TxId>, it: TxId,
                        left: set<TxId>) {
    forall d :: TakenAt(p, before, after, added, it, left, d)
  }

  lemma TakenStart(p: Pool, before: map<TxId, Modified>, added: set<TxId>, it: TxId, left: set<TxId>)
    requires forall d | d in p.all && it in p.ancestors(d) :: d in left
    ensures Taken(p, before, before, added, it, left)
  {
  }

  lemma TakenStep(p: Pool, before: map<TxId, Modified>, after: map<TxId, Modified>, added: set<TxId>, it: TxId,
                  left: set<TxId>, d: TxId)
    requires Taken(p, before, after, added, it, left) && d in left && d in p.all && (d in added || it in p.ancestors(d))
    ensures Taken(p, before, if d in added then after else after[d := TakenOut(p, after, it, d)], added, it, left - {d})
  {
    var after' := if d in added then after else after[d := TakenOut(p, after, it, d)];
    var left' := left - {d};
    assert TakenAt(p, before, after, added, it, left, d);
    forall x
      ensures TakenAt(p, before, after', added, it, left', x)
    {
      assert TakenAt(p, before, after, added, it, left, x);
    }
  }

  /** The totals of d lost exactly its ancestors in `taken`; d has modified totals if it had them or lost one. */
  ghost predicate ReducedAt(p: Pool, before: map<TxId, Modified>, after: map<TxId, Modified>, added: set<TxId>,
                            taken: set<TxId>, d: TxId) {
    var out := p.ancestors(d) * taken;
    && (d in after <==> d in before || (d in p.all && d !in added && |out| > 0))
    && (d in after ==>
          after[d] == Modified(Base(p, before, d).size - Sum(p.size, out),
                               Base(p, before, d).sigops - Sum(p.sigops, out)))
  }

  ghost predicate Reduced(p: Pool, before: map<TxId, Modified>, after: map<TxId, Modified>, added: set<TxId>,
                          taken: set<TxId>) {
    forall d :: ReducedAt(p, before, after, added, taken, d)
  }

  lemma ReducedStart(p: Pool, before: map<TxId, Modified>, added: set<TxId>)
    ensures Reduced(p, before, before, added, {})
  {
    forall d
      ensures ReducedAt(p, before, before, added, {}, d)
    {
      assert p.ancestors(d) * {} == {};
    }
  }

  lemma OneMoreOut(p: Pool, taken: set<TxId>, it: TxId, d: TxId)
    requires it !in taken
    ensures
      var out, out' := p.ancestors(d) * taken, p.ancestors(d) * (taken + {it});
      && (|out| == 0 ==> Sum(p.size, out) == Sum(p.sigops, out) == 0)
      && if it in p.ancestors(d) then
           && |out'| > 0
           && Sum(p.size, out') == Sum(p.size, out) + p.size(it)
           && Sum(p.sigops, out') == Sum(p.sigops, out) + p.sigops(it)
         else out' == out
  {
    var out, out' := p.ancestors(d) * taken, p.ancestors(d) * (taken + {it});
    if it in p.ancestors(d) {
      assert out' == out + {it};
      SumAdd(p.size, out, it);
      SumAdd(p.sigops, out, it);
    } else {
      assert out' == out;
    }
  }

  lemma ReducedStepAt(p: Pool, before: map<TxId, Modified>, mid: map<TxId, Modified>, after: map<TxId, Modified>,
                      added: set<TxId>, taken: set<TxId>, it: TxId, d: TxId)
    requires before.Keys <= p.all && before.Keys !! added && it !in taken
    requires ReducedAt(p, before, mid, added, taken, d) && TakenAt(p, mid, after, added, it, {}, d)
    ensures ReducedAt(p, before, after, added, taken + {it}, d)
  {
    hide Sum;
    OneMoreOut(p, taken, it, d);
  }

  lemma ReducedStep(p: Pool, before: map<TxId, Modified>, mid: map<TxId, Modified>, after: map<TxId, Modified>,
                    added: set<TxId>, taken: set<TxId>, it: TxId)
    requires before.Keys <= p.all && before.Keys !! added && it !in taken
    requires Reduced(p, before, mid, added, taken) && Taken(p, mid, after, added, it, {})
    ensures Reduced(p, before, after, added, taken + {it})
  {
    hide ReducedAt, TakenAt;
    var taken' := taken + {it};
    forall d
      ensures ReducedAt(p, before, after, added, taken', d)
    {
      ReducedStepAt(p, before, mid, after, added, taken, it, d);
    }
  }

  lemma ModifiedKeys(p: Pool, inBlock: set<TxId>, modified: map<TxId, Modified>, failed: set<TxId>)
    requires AllModifiedOk(p, inBlock, modified, failed)
    ensures modified.Keys <= p.all
  {
    hide ModifiedOk;
    forall d | d in modified.Keys
      ensures d in p.all
    {
      assert ModifiedOk(p, inBlock, modified, failed, d);
      ModifiedInPool(p, inBlock, modified, failed, d);
    }
  }

  lemma ModifiedInPool(p: Pool, inBlock: set<TxId>, modified: map<TxId, Modified>, failed: set<TxId>, d: TxId)
    requires ModifiedOk(p, inBlock, modified, failed, d) && d in modified
    ensures d in p.all
  {
  }

  lemma ReducedKeeps(p: Pool, before: map<TxId, Modified>, after: map<TxId, Modified>, added: set<TxId>)
    requires Reduced(p, before, after, added, added)
    ensures forall d | d in before :: d in after
  {
    forall d | d in before
      ensures d in after
    {
      assert ReducedAt(p, before, after, added, added, d);
    }
  }

  /** Taking out what was added leaves totals that count what is still missing; exact ones stay exact. */
  lemma ReducedOk(p: Pool, inBlock: set<TxId>, before: map<TxId, Modified>, after: map<TxId, Modified>,
                  added: set<TxId>, failed: set<TxId>)
    requires Closed(p, inBlock) && inBlock !! added
    requires (forall d | d !in added :: ModifiedOk(p, inBlock, before, failed, d)) && before.Keys !! added
    requires Reduced(p, before, after, added, added)
    ensures AllModifiedOk(p, inBlock + added, after, failed)
  {
    hide ReducedAt, ModifiedOk;
    var inBlock' := inBlock + added;
    forall d
      ensures ModifiedOk(p, inBlock', after, failed, d)
    {
      ReducedOkAt(p, inBlock, before, after, added, failed, d);
    }
  }

  lemma ReducedOkAt(p: Pool, inBlock: set<TxId>, before: map<TxId, Modified>, after: map<TxId, Modified>,
                    added: set<TxId>, failed: set<TxId>, d: TxId)
    requires ClosedAt(p, inBlock, d) && inBlock !! added && before.Keys !! added
    requires (d !in added ==> ModifiedOk(p, inBlock, before, failed, d)) && ReducedAt(p, before, after, added, added, d)
    ensures ModifiedOk(p, inBlock + added, after, failed, d)
  {
    hide Sum, Missing;
    if d !in added {
      MissingSplit(p, inBlock, added, d);
      ReducedInPool(p, inBlock, before, after, added, d);
    }
  }

  lemma ReducedInPool(p: Pool, inBlock: set<TxId>, before: map<TxId, Modified>, after: map<TxId, Modified>,
                      added: set<TxId>, d: TxId)
    requires ClosedAt(p, inBlock, d) && inBlock !! added && d !in added && ReducedAt(p, before, after, added, added, d)
    ensures d in after && d !in before ==> d in p.all && d !in inBlock
  {
    if d in after && d !in before {
      var a := Sets.Member(p.ancestors(d) * added);
    }
  }

  lemma MissingSplit(p: Pool, inBlock: set<TxId>, added: set<TxId>, d: TxId)
    requires inBlock !! added && d !in added
    ensures
      var missing, out := Missing(p, inBlock + added, d), p.ancestors(d) * added;
      && Sum(p.size, Missing(p, inBlock, d)) == Sum(p.size, missing) + Sum(p.size, out)
      && Sum(p.sigops, Missing(p, inBlock, d)) == Sum(p.sigops, missing) + Sum(p.sigops, out)
      && (|out| == 0 ==> Sum(p.size, out) == Sum(p.sigops, out) == 0)
  {
    hide Sum;
    var missing, out := Missing(p, inBlock + added, d), p.ancestors(d) * added;
    assert Missing(p, inBlock, d) == missing + out;
    SumUnion(p.size, missing, out);
    SumUnion(p.sigops, missing, out);
    if |out| == 0 {
      SumEmpty(p.size, out);
      SumEmpty(p.sigops, out);
    }
  }

  lemma SortStart(p: Pool, package: set<TxId>)
    ensures SortedPackage(p, package - package, [])
  {
  }

  /** Appending a transaction with the fewest ancestors of those that are left. */
  lemma SortStep(p: Pool, package: set<TxId>, left: set<TxId>, s: seq<TxId>, t: TxId)
    requires SortedPackage(p, package - left, s) && left <= package && t in left
    requires forall i | 0 <= i < |s| :: p.countWithAncestors(s[i]) <= p.countWithAncestors(t)
    ensures SortedPackage(p, package - (left - {t}), s + [t])
  {
    forall i | 0 <= i < |s|
      ensures s[i] != t
    {
      assert s[i] in s;
    }
    var s' := s + [t];
    forall x
      ensures x in s' <==> x in package - (left - {t})
    {
      assert x in s' <==> x in s || x == t;
    }
  }

  // ---------- A whole package ----------

  function AddedAll(p: Pool, b: Block, s: seq<TxId>, sizes: bool): Block {
    if s == [] then b else Added(p, AddedAll(p, b, s[..|s| - 1], sizes), s[|s| - 1], sizes)
  }

  lemma AddedNext(p: Pool, b: Block, s: seq<TxId>, i: nat, sizes: bool)
    requires i < |s|
    ensures AddedAll(p, b, s[..i + 1], sizes) == Added(p, AddedAll(p, b, s[..i], sizes), s[i], sizes)
  {
    assert s[..i + 1][..i] == s[..i];
  }

  /** What a package adds to the totals. */
  lemma {:induction false} AddedTotals(p: Pool, b: Block, s: seq<TxId>, sizes: bool)
    ensures
      var r := AddedAll(p, b, s, sizes);
      && r.vtx == b.vtx + s
      && r.weight == b.weight + Total(p.weight, s) && r.sigops == b.sigops + Total(p.sigops, s)
      && (sizes ==> r.size == b.size + Total(p.bytes, s))
      && forall t :: t in r.inBlock <==> t in b.inBlock || t in s
    decreases |s|
  {
    if s != [] {
      AddedTotals(p, b, s[..|s| - 1], sizes);
      assert s == s[..|s| - 1] + [s[|s| - 1]];
    }
  }

  lemma {:induction false} AddedAllSound(p: Pool, includeWitness: bool, b: Block, t: TxId, s: seq<TxId>, i: nat,
                                         sizes: bool)
    requires PoolOk(p) && SoundBlock(p, includeWitness, b, sizes) && t in p.all && i <= |s|
    requires SortedPackage(p, Missing(p, b.inBlock, t), s) && forall x | x in Missing(p, b.inBlock, t) ::
               Eligible(p, includeWitness, x)
    ensures SoundBlock(p, includeWitness, AddedAll(p, b, s[..i], sizes), sizes)
  {
    hide PoolOk, SoundBlock, SortedPackage, Added;
    if i == 0 {
      assert s[..i] == [];
    } else {
      AddedAllSound(p, includeWitness, b, t, s, i - 1, sizes);
      AncestorsFirst(p, b.inBlock, t, s, i - 1);
      AddedNext(p, b, s, i - 1, sizes);
      AddedTotals(p, b, s[..i - 1], sizes);
      InPackage(p, b.inBlock, t, s, i - 1);
      AddedSound(p, includeWitness, AddedAll(p, b, s[..i - 1], sizes), s[i - 1], sizes);
    }
  }

  lemma InPackage(p: Pool, inBlock: set<TxId>, t: TxId, s: seq<TxId>, i: nat)
    requires SortedPackage(p, Missing(p, inBlock, t), s) && i < |s|
    ensures s[i] in Missing(p, inBlock, t)
  {
    var x := s[i];
    assert x in s;
  }

  /** The totals of a package in order are the sums over it as a set. */
  lemma PackageTotals(p: Pool, package: set<TxId>, s: seq<TxId>)
    requires PoolOk(p) && SortedPackage(p, package, s)
    ensures Total(p.weight, s) <= WITNESS_SCALE_FACTOR * Sum(p.size, package)
    ensures Total(p.sigops, s) == Sum(p.sigops, package) && Total(p.bytes, s) == Sum(p.bytes, package)
  {
    TotalIsSum(p.weight, s, package);
    TotalIsSum(p.sigops, s, package);
    TotalIsSum(p.bytes, s, package);
    WeightOfPackage(p, package);
  }

  /** The totals of all others are still right when those of the package are erased. */
  lemma ErasedOk(p: Pool, inBlock: set<TxId>, modified: map<TxId, Modified>, erased: map<TxId, Modified>,
                 package: set<TxId>, failed: set<TxId>)
    requires AllModifiedOk(p, inBlock, modified, failed)
    requires forall d | d !in package :: d in erased <==> d in modified
    requires forall d | d in erased :: d in modified && erased[d] == modified[d]
    ensures forall d | d !in package :: ModifiedOk(p, inBlock, erased, failed, d)
    ensures erased.Keys <= p.all
  {
    hide Sum, Missing;
    ModifiedKeys(p, inBlock, modified, failed);
    forall d | d !in package
      ensures ModifiedOk(p, inBlock, erased, failed, d)
    {
      assert ModifiedOk(p, inBlock, modified, failed, d);
    }
  }

  lemma BlockIsClosed(p: Pool, includeWitness: bool, b: Block, sizes: bool)
    requires SoundBlock(p, includeWitness, b, sizes)
    ensures Closed(p, b.inBlock)
  {
  }

  lemma PackageIsNew(p: Pool, inBlock: set<TxId>, package: set<TxId>, s: seq<TxId>, inBlock': set<TxId>,
                     left: set<TxId>)
    requires SortedPackage(p, package, s) && package !! inBlock
    requires forall t :: t in inBlock' <==> t in inBlock || t in s
    requires forall t | t in left :: t !in s
    ensures inBlock' == inBlock + package && inBlock' - package == inBlock && left !! package
  {
    assert inBlock' == inBlock + package;
  }

  lemma SortedMembers(p: Pool, package: set<TxId>, s: seq<TxId>)
    requires SortedPackage(p, package, s)
    ensures forall t :: t in s <==> t in package
  {
  }

  /** With nothing in the block, the totals of the pool are exact. */
  lemma NothingModified(p: Pool)
    requires PoolOk(p)
    ensures AllModifiedOk(p, {}, map[], {}) && Closed(p, {})
  {
    forall d
      ensures ModifiedOk(p, {}, map[], {}, d)
    {
      assert TotalsOk(p, d) && Missing(p, {}, d) == p.Package(d);
    }
  }

  /** Whichever totals are looked at, they do not under-count, and are exact unless t was dropped before. */
  lemma PackageTotalsSuffice(p: Pool, inBlock: set<TxId>, modified: map<TxId, Modified>, failed: set<TxId>, t: TxId)
    requires AllModifiedOk(p, inBlock, modified, failed) && (t in modified || (t in p.all && t !in inBlock))
    ensures t in p.all && t !in inBlock
    ensures Base(p, modified, t).size >= Sum(p.size, Missing(p, inBlock, t))
    ensures Base(p, modified, t).sigops >= Sum(p.sigops, Missing(p, inBlock, t))
    ensures t !in failed ==> Base(p, modified, t) == Exact(p, inBlock, t)
  {
    assert ModifiedOk(p, inBlock, modified, failed, t);
  }

  /** A modified package that fails is dropped; should it come back, its totals may count too much. */
  lemma Dropped(p: Pool, inBlock: set<TxId>, modified: map<TxId, Modified>, failed: set<TxId>, t: TxId)
    requires PoolOk(p) && AllModifiedOk(p, inBlock, modified, failed) && t in modified
    ensures AllModifiedOk(p, inBlock, modified - {t}, failed + {t}) && |(modified - {t}).Keys| == |modified.Keys| - 1
  {
    hide PoolOk, Sum, Missing;
    var modified', failed' := modified - {t}, failed + {t};
    assert modified'.Keys == modified.Keys - {t};
    forall d
      ensures ModifiedOk(p, inBlock, modified', failed', d)
    {
      assert ModifiedOk(p, inBlock, modified, failed, d);
      if d == t {
        CachedSuffice(p, inBlock, t);
      }
    }
  }

  lemma MissingIsOut(p: Pool, inBlock: set<TxId>, t: TxId)
    requires t !in inBlock
    ensures t in Missing(p, inBlock, t) && Missing(p, inBlock, t) !! inBlock
  {
  }

  lemma FewerLeft(all: set<TxId>, before: set<TxId>, after: set<TxId>, t: TxId)
    requires t in all && t !in before && t in after && before <= after
    ensures |all - after| < |all - before|
  {
    Sets.SubsetSize(all - after, all - before - {t});
  }

  // ---------- What is left out ----------

  /** The limits of a block: bytes count only if `sizes`, witnesses are allowed only if `witnesses`. */
  datatype Limits = Limits(weight: int, size: int, sizes: bool, witnesses: bool)

  /** By how much the size of these transactions, as weight, is above their weight. */
  ghost function Rounding(p: Pool, s: set<TxId>): int {
    WITNESS_SCALE_FACTOR * Sum(p.size, s) - Sum(p.weight, s)
  }

  /** What is missing of the package of t does not fit on top of the block, or one of it may not be mined. Its weight is
      taken from the sizes, and so is that of the ancestors which have been mined. */
  ghost predicate Excluded(p: Pool, b: Block, limits: Limits, t: TxId) {
    var missing := Missing(p, b.inBlock, t);
    || b.weight + WITNESS_SCALE_FACTOR * Sum(p.size, missing) + Rounding(p, p.Package(t) * b.inBlock) >= limits.weight
    || b.sigops + Sum(p.sigops, missing) >= MAX_BLOCK_SIGOPS_COST
    || (limits.sizes && b.size + Sum(p.bytes, missing) >= limits.size)
    || exists a :: a in missing && !Eligible(p, limits.witnesses, a)
  }

  ghost predicate Out(p: Pool, b: Block, limits: Limits, t: TxId) {
    t in b.inBlock || Excluded(p, b, limits, t)
  }

  lemma RoundingNonNegative(p: Pool, s: set<TxId>)
    requires PoolOk(p)
    ensures Rounding(p, s) >= 0
  {
    hide PoolOk, Sum;
    WeightOfPackage(p, s);
  }

  /** With exact totals, a package that fails by them is excluded. */
  lemma TooLargeIsExcluded(p: Pool, b: Block, limits: Limits, package: Modified, t: TxId)
    requires PoolOk(p) && package == Exact(p, b.inBlock, t)
    requires b.weight + WITNESS_SCALE_FACTOR * package.size >= limits.weight
             || b.sigops + package.sigops >= MAX_BLOCK_SIGOPS_COST
    ensures Excluded(p, b, limits, t)
  {
    hide PoolOk, Sum, Missing, Rounding;
    RoundingNonNegative(p, p.Package(t) * b.inBlock);
  }

  /** So is one that fails by its transactions. */
  lemma FailedIsExcluded(p: Pool, b: Block, limits: Limits, t: TxId)
    requires
      || (limits.sizes && b.size + Sum(p.bytes, Missing(p, b.inBlock, t)) >= limits.size)
      || exists a :: a in Missing(p, b.inBlock, t) && !Eligible(p, limits.witnesses, a)
    ensures Excluded(p, b, limits, t)
  {
    hide Sum, Missing;
  }

  /** Mining x moves it from what is missing of t to what is mined of t, or leaves both alone. */
  lemma MinedMoves(p: Pool, inBlock: set<TxId>, x: TxId, t: TxId)
    requires x !in inBlock
    ensures
      var missing, missing', mined, mined' :=
        Missing(p, inBlock, t), Missing(p, inBlock + {x}, t), p.Package(t) * inBlock, p.Package(t) * (inBlock + {x});
      if x in p.Package(t) then
        && missing' == missing - {x} && x in missing
        && Sum(p.size, missing') == Sum(p.size, missing) - p.size(x)
        && Sum(p.sigops, missing') == Sum(p.sigops, missing) - p.sigops(x)
        && Sum(p.bytes, missing') == Sum(p.bytes, missing) - p.bytes(x)
        && Rounding(p, mined') == Rounding(p, mined) + WITNESS_SCALE_FACTOR * p.size(x) - p.weight(x)
      else missing' == missing && mined' == mined
  {
    hide Sum;
    var missing, missing', mined, mined' :=
      Missing(p, inBlock, t), Missing(p, inBlock + {x}, t), p.Package(t) * inBlock, p.Package(t) * (inBlock + {x});
    if x in p.Package(t) {
      assert missing' == missing - {x} && mined' == mined + {x};
      SumRemove(p.size, missing, x);
      SumRemove(p.sigops, missing, x);
      SumRemove(p.bytes, missing, x);
      SumAdd(p.size, mined, x);
      SumAdd(p.weight, mined, x);
    } else {
      assert missing' == missing && mined' == mined;
    }
  }

  /** Whatever else is mined, also of the package of t itself, what is excluded stays excluded. */
  lemma ExcludedStays(p: Pool, b: Block, limits: Limits, x: TxId, t: TxId)
    requires PoolOk(p) && Excluded(p, b, limits, t) && x != t && x !in b.inBlock && Eligible(p, limits.witnesses, x)
    ensures Excluded(p, Added(p, b, x, limits.sizes), limits, t)
  {
    hide PoolOk, Sum, Rounding, Missing, Eligible;
    NumbersNonNegative(p);
    MinedMoves(p, b.inBlock, x, t);
    var missing, missing' := Missing(p, b.inBlock, t), Missing(p, b.inBlock + {x}, t);
    forall a | a in missing && !Eligible(p, limits.witnesses, a)
      ensures a in missing'
    {
    }
  }

  /** Mining a whole package keeps everything out that was. */
  lemma {:induction false} OutStays(p: Pool, b: Block, limits: Limits, s: seq<TxId>, t: TxId)
    requires PoolOk(p) && Out(p, b, limits, t) && NoRepeats(s)
    requires forall x | x in s :: x !in b.inBlock && Eligible(p, limits.witnesses, x)
    ensures Out(p, AddedAll(p, b, s, limits.sizes), limits, t)
    decreases |s|
  {
    hide PoolOk, Excluded, Eligible;
    if s != [] {
      var init, x := s[..|s| - 1], s[|s| - 1];
      assert x in s && x !in init;
      OutStays(p, b, limits, init, t);
      AddedTotals(p, b, init, limits.sizes);
      var b' := AddedAll(p, b, init, limits.sizes);
      if t !in b'.inBlock && x != t {
        ExcludedStays(p, b', limits, x, t);
      }
    }
  }

  /** What was mined or excluded still is. */
  ghost predicate OutGrew(p: Pool, b: Block, b': Block, limits: Limits) {
    forall t | Out(p, b, limits, t) :: Out(p, b', limits, t)
  }

  lemma PackageKeepsOut(p: Pool, b: Block, limits: Limits, s: seq<TxId>, t: TxId)
    requires PoolOk(p) && SortedPackage(p, Missing(p, b.inBlock, t), s)
    requires forall x | x in Missing(p, b.inBlock, t) :: Eligible(p, limits.witnesses, x)
    ensures OutGrew(p, b, AddedAll(p, b, s, limits.sizes), limits)
  {
    hide PoolOk, Out, Eligible, AddedAll;
    forall d | Out(p, b, limits, d)
      ensures Out(p, AddedAll(p, b, s, limits.sizes), limits, d)
    {
      OutStays(p, b, limits, s, d);
    }
  }

  /** Mined or excluded, or still to come as a modified package that has not failed. */
  ghost predicate Settled(p: Pool, b: Block, limits: Limits, modified: map<TxId, Modified>, failed: set<TxId>,
                          t: TxId) {
    Out(p, b, limits, t) || (t in modified && t !in failed)
  }

  ghost predicate AllSettled(p: Pool, b: Block, limits: Limits, modified: map<TxId, Modified>, failed: set<TxId>,
                             seen: set<TxId>) {
    failed <= seen && forall t | t in seen :: Settled(p, b, limits, modified, failed, t)
  }

  lemma SettledMore(p: Pool, b: Block, limits: Limits, modified: map<TxId, Modified>, failed: set<TxId>,
                    seen: set<TxId>, t: TxId)
    requires AllSettled(p, b, limits, modified, failed, seen) && Out(p, b, limits, t)
    ensures AllSettled(p, b, limits, modified, failed, seen + {t})
  {
    hide Out;
  }

  lemma SettledDropped(p: Pool, b: Block, limits: Limits, modified: map<TxId, Modified>, failed: set<TxId>,
                       seen: set<TxId>, t: TxId)
    requires AllSettled(p, b, limits, modified, failed, seen) && Out(p, b, limits, t)
    ensures AllSettled(p, b, limits, modified - {t}, failed + {t}, seen + {t})
  {
    hide Out;
    var modified', failed' := modified - {t}, failed + {t};
    forall x | x in seen + {t}
      ensures Settled(p, b, limits, modified', failed', x)
    {
      assert x != t ==> Settled(p, b, limits, modified, failed, x);
    }
  }

  lemma SettledGrown(p: Pool, b: Block, b': Block, limits: Limits, modified: map<TxId, Modified>,
                     modified': map<TxId, Modified>, failed: set<TxId>, seen: set<TxId>, t: TxId)
    requires AllSettled(p, b, limits, modified, failed, seen) && OutGrew(p, b, b', limits) && t in b'.inBlock
    requires forall d | d in modified :: d in modified' || d in b'.inBlock
    ensures AllSettled(p, b', limits, modified', failed, seen + {t})
  {
    hide Excluded;
    forall x | x in seen
      ensures Settled(p, b', limits, modified', failed, x)
    {
      assert Settled(p, b, limits, modified, failed, x);
    }
  }

  /** What failed before is excluded, as long as it is not mined. */
  lemma FailedBefore(p: Pool, b: Block, limits: Limits, modified: map<TxId, Modified>, failed: set<TxId>,
                     seen: set<TxId>, t: TxId)
    requires AllSettled(p, b, limits, modified, failed, seen) && t in failed && t !in b.inBlock
    ensures Excluded(p, b, limits, t)
  {
    hide Excluded;
    assert Settled(p, b, limits, modified, failed, t);
  }

  lemma NothingSettled(p: Pool, b: Block, limits: Limits, modified: map<TxId, Modified>)
    ensures AllSettled(p, b, limits, modified, {}, {})
  {
  }

  lemma SettledAgain(p: Pool, b: Block, limits: Limits, modified: map<TxId, Modified>, failed: set<TxId>,
                     seen: set<TxId>, t: TxId)
    requires AllSettled(p, b, limits, modified, failed, seen) && (t in modified || t in b.inBlock || t in failed)
    ensures AllSettled(p, b, limits, modified, failed, seen + {t})
  {
    hide Excluded;
    if t in failed {
      assert seen + {t} == seen;
    }
  }

  lemma SettledEnd(p: Pool, b: Block, limits: Limits, modified: map<TxId, Modified>, failed: set<TxId>, seen: set<TxId>)
    requires AllSettled(p, b, limits, modified, failed, seen) && |modified.Keys| == 0
    ensures forall t | t in seen :: t in b.inBlock || Excluded(p, b, limits, t)
  {
    hide Excluded;
    forall t | t in seen
      ensures t in b.inBlock || Excluded(p, b, limits, t)
    {
      assert Settled(p, b, limits, modified, failed, t);
    }
  }

  // ---------- The priority queue ----------

  ghost predicate Queued(p: Pool, inBlock: set<TxId>, waiting: set<TxId>, t: TxId) {
    t in p.all && t !in inBlock && t !in waiting
  }

  /** Every transaction is at most once in the queue, and neither queued nor waiting when it is in the block. */
  ghost predicate QueueOk(p: Pool, inBlock: set<TxId>, queue: seq<TxId>, waiting: set<TxId>) {
    && NoRepeats(queue) && waiting <= p.all && waiting !! inBlock
    && forall i | 0 <= i < |queue| :: Queued(p, inBlock, waiting, queue[i])
  }

  lemma QueuePop(p: Pool, inBlock: set<TxId>, queue: seq<TxId>, waiting: set<TxId>, i: nat)
    requires QueueOk(p, inBlock, queue, waiting) && i < |queue|
    ensures QueueOk(p, inBlock, queue[..i] + queue[i + 1..], waiting) && Queued(p, inBlock, waiting, queue[i])
    ensures queue[i] !in queue[..i] + queue[i + 1..]
  {
    var rest := queue[..i] + queue[i + 1..];
    forall k | 0 <= k < |rest|
      ensures rest[k] == queue[if k < i then k else k + 1]
    {
    }
  }

  lemma QueuePush(p: Pool, inBlock: set<TxId>, queue: seq<TxId>, waiting: set<TxId>, t: TxId)
    requires QueueOk(p, inBlock, queue, waiting) && t in p.all && t !in inBlock && t in waiting
    ensures QueueOk(p, inBlock, queue + [t], waiting - {t})
  {
    forall i | 0 <= i < |queue|
      ensures queue[i] != t
    {
      assert Queued(p, inBlock, waiting, queue[i]);
    }
  }

  lemma QueueWait(p: Pool, inBlock: set<TxId>, queue: seq<TxId>, waiting: set<TxId>, t: TxId)
    requires QueueOk(p, inBlock, queue, waiting) && t in p.all && t !in inBlock && t !in queue
    ensures QueueOk(p, inBlock, queue, waiting + {t})
  {
  }

  lemma QueueAdded(p: Pool, inBlock: set<TxId>, queue: seq<TxId>, waiting: set<TxId>, t: TxId)
    requires QueueOk(p, inBlock, queue, waiting) && t !in queue && t !in waiting
    ensures QueueOk(p, inBlock + {t}, queue, waiting)
  {
  }

  lemma WaitingIsOut(p: Pool, inBlock: set<TxId>, queue: seq<TxId>, waiting: set<TxId>, t: TxId)
    requires QueueOk(p, inBlock, queue, waiting) && t in waiting
    ensures t in p.all && t !in inBlock
  {
  }

  /** On top of the block, t alone would not fit, or may not be mined. */
  predicate Unfit(p: Pool, b: Block, limits: Limits, t: TxId) {
    || !Eligible(p, limits.witnesses, t)
    || b.weight + p.weight(t) >= limits.weight
    || (limits.sizes && b.size + p.bytes(t) >= limits.size)
    || b.sigops + p.sigops(t) >= MAX_BLOCK_SIGOPS_COST
  }

  /** Mined, still queued, waiting for a parent that is not mined, or passed over; `but` is to be looked at next. */
  ghost predicate Handled(p: Pool, b: Block, limits: Limits, queue: seq<TxId>, waiting: set<TxId>, but: set<TxId>,
                          t: TxId) {
    t in p.all ==>
      || t in b.inBlock || t in queue || t in but
      || (t in waiting && !(p.parents(t) <= b.inBlock))
      || Unfit(p, b, limits, t)
  }

  ghost predicate AllHandled(p: Pool, b: Block, limits: Limits, queue: seq<TxId>, waiting: set<TxId>, but: set<TxId>) {
    forall t :: Handled(p, b, limits, queue, waiting, but, t)
  }

  lemma HandledStart(p: Pool, b: Block, limits: Limits, queue: seq<TxId>)
    requires forall t | t in p.all :: t in queue
    ensures AllHandled(p, b, limits, queue, {}, {})
  {
  }

  lemma HandledPop(p: Pool, b: Block, limits: Limits, queue: seq<TxId>, waiting: set<TxId>, i: nat)
    requires AllHandled(p, b, limits, queue, waiting, {}) && i < |queue|
    ensures AllHandled(p, b, limits, queue[..i] + queue[i + 1..], waiting, {queue[i]})
  {
    var rest, but := queue[..i] + queue[i + 1..], {queue[i]};
    forall t
      ensures Handled(p, b, limits, rest, waiting, but, t)
    {
      assert Handled(p, b, limits, queue, waiting, {}, t);
      if t in queue && t != queue[i] {
        var k :| 0 <= k < |queue| && queue[k] == t;
        assert rest[if k < i then k else k - 1] == t;
      }
    }
  }

  lemma HandledUnfit(p: Pool, b: Block, limits: Limits, queue: seq<TxId>, waiting: set<TxId>, t: TxId)
    requires AllHandled(p, b, limits, queue, waiting, {t}) && Unfit(p, b, limits, t)
    ensures AllHandled(p, b, limits, queue, waiting, {})
  {
    hide Unfit;
    forall x
      ensures Handled(p, b, limits, queue, waiting, {}, x)
    {
      assert Handled(p, b, limits, queue, waiting, {t}, x);
    }
  }

  lemma HandledWait(p: Pool, b: Block, limits: Limits, queue: seq<TxId>, waiting: set<TxId>, t: TxId)
    requires AllHandled(p, b, limits, queue, waiting, {t}) && !(p.parents(t) <= b.inBlock)
    ensures AllHandled(p, b, limits, queue, waiting + {t}, {})
  {
    hide Unfit;
    var waiting' := waiting + {t};
    forall x
      ensures Handled(p, b, limits, queue, waiting', {}, x)
    {
      assert Handled(p, b, limits, queue, waiting, {t}, x);
    }
  }

  /** Adding t, and putting the children that wait for it back into the queue. */
  lemma HandledAdded(p: Pool, b: Block, b': Block, limits: Limits, queue: seq<TxId>, waiting: set<TxId>,
                     queue': seq<TxId>, waiting': set<TxId>, t: TxId)
    requires AllHandled(p, b, limits, queue, waiting, {t}) && Grew(b, b', limits.sizes) && b'.inBlock == b.inBlock + {t}
    requires forall c | c in queue :: c in queue'
    requires forall c | c in waiting :: if c in p.all && t in p.parents(c) then c in queue' else c in waiting'
    ensures AllHandled(p, b', limits, queue', waiting', {})
  {
    forall x
      ensures Handled(p, b', limits, queue', waiting', {}, x)
    {
      assert Handled(p, b, limits, queue, waiting, {t}, x);
    }
  }

  lemma HandledEnd(p: Pool, b: Block, limits: Limits, waiting: set<TxId>)
    requires AllHandled(p, b, limits, [], waiting, {})
    ensures forall t | t in p.all :: t in b.inBlock || !(p.parents(t) <= b.inBlock) || Unfit(p, b, limits, t)
  {
    forall t | t in p.all
      ensures t in b.inBlock || !(p.parents(t) <= b.inBlock) || Unfit(p, b, limits, t)
    {
      assert Handled(p, b, limits, [], waiting, {}, t);
    }
  }

  lemma AddedFields(p: Pool, b: Block, t: TxId)
    ensures
      var r := Added(p, b, t, true);
      && r.weight == b.weight + p.weight(t) && r.sigops == b.sigops + p.sigops(t) && r.size == b.size + p.bytes(t)
      && r.inBlock == b.inBlock + {t}
  {
  }

  lemma AddedGrows(p: Pool, b: Block, t: TxId)
    requires PoolOk(p)
    ensures Grew(b, Added(p, b, t, true), true)
  {
    assert NumbersOk(p, t);
  }

  lemma SizesFromStart(p: Pool, includeWitness: bool, b: Block, sizes: bool)
    requires SoundBlock(p, includeWitness, b, sizes) && b.vtx == [] && b.size == 1000
    ensures SoundBlock(p, includeWitness, b, true) && b.inBlock == {}
  {
  }

  lemma SizesDropped(p: Pool, includeWitness: bool, b: Block, sizes: bool)
    requires SoundBlock(p, includeWitness, b, true)
    ensures SoundBlock(p, includeWitness, b, sizes)
  {
  }

  /** What the placement says about a finished block. */
  lemma InOrder(p: Pool, vtx: seq<TxId>, inBlock: set<TxId>)
    requires BlockOk(p, vtx, inBlock)
    ensures forall i, q | 0 <= i < |vtx| && q in p.parents(vtx[i]) :: q in vtx[..i]
    ensures forall i, j | 0 <= i < j < |vtx| :: vtx[i] != vtx[j]
  {
    forall i, q | 0 <= i < |vtx| && q in p.parents(vtx[i])
      ensures q in vtx[..i]
    {
      assert PlacedOk(p, vtx, i);
    }
    forall i, j | 0 <= i < j < |vtx|
      ensures vtx[i] != vtx[j]
    {
      assert PlacedOk(p, vtx, j) && vtx[..j][i] == vtx[i];
    }
  }
}
