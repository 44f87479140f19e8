/** Block index entries with their skip pointers (`CBlockIndex`), and the active chain (`CChain`). */
module Chain {
  import Arith
  import opened Positional

  // ---------- Skip heights ----------

  /** Bitwise and. */
  function BitAnd(x: nat, y: nat): nat {
    if x == 0 || y == 0 then 0
    else 2 * BitAnd(x / 2, y / 2) + if x % 2 == 1 && y % 2 == 1 then 1 else 0
  }

  function InvertLowestOne(n: nat): nat {
    if n == 0 then 0 else BitAnd(n, n - 1)
  }

  lemma {:induction false} BitAndSelf(x: nat)
    ensures BitAnd(x, x) == x
  {
    if x > 0 {
      BitAndSelf(x / 2);
    }
  }

  /** It clears the lowest bit that is set: an odd number loses one, an even one keeps its zeros at the end. */
  lemma InvertLowestOneIs(n: nat)
    ensures n > 0 ==> InvertLowestOne(2 * n) == 2 * InvertLowestOne(n)
    ensures InvertLowestOne(2 * n + 1) == 2 * n
  {
    BitAndSelf(n);
    if n > 0 {
      assert (2 * n - 1) / 2 == n - 1;
    }
  }

  lemma {:induction false} InvertLowers(n: nat)
    requires n > 0
    ensures InvertLowestOne(n) < n
  {
    if n % 2 == 0 {
      InvertLowers(n / 2);
      InvertLowestOneIs(n / 2);
    } else {
      InvertLowestOneIs(n / 2);
    }
  }

  function GetSkipHeight(height: nat): nat {
    if height < 2 then 0
    else if height % 2 == 1 then InvertLowestOne(InvertLowestOne(height - 1)) + 1
    else InvertLowestOne(height)
  }

  /** A skip always goes back. */
  lemma SkipLowers(height: nat)
    requires height > 0
    ensures GetSkipHeight(height) < height
  {
    if height >= 2 {
      InvertLowers(height);
      InvertLowers(height - 1);
      var x := InvertLowestOne(height - 1);
      if x > 0 {
        InvertLowers(x);
      }
    }
  }

  // ---------- Block index entries ----------

  class BlockIndex {
    const nHeight: nat
    const pprev: BlockIndex?
    var pskip: BlockIndex?

    constructor (pprev: BlockIndex?)
      requires pprev != null ==> pprev.Linked()
      ensures Linked() && this.pprev == pprev && pskip == null
    {
      this.pprev := pprev;
      this.nHeight := if pprev == null then 0 else pprev.nHeight + 1;
      pskip := null;
    }

    /** The previous blocks lead down to a block of height zero, one height at a time. */
    ghost predicate Linked()
      decreases nHeight
    {
      if nHeight == 0 then pprev == null
      else pprev != null && pprev.nHeight == nHeight - 1 && pprev.Linked()
    }

    /** The block itself and all before it. */
    ghost function Line(): (r: set<BlockIndex>)
      requires Linked()
      ensures this in r && forall x | x in r :: x.Linked() && x.nHeight <= nHeight
      decreases nHeight
    {
      {this} + if nHeight == 0 then {} else pprev.Line()
    }

    /** The plain walk along the previous blocks. */
    ghost function Ancestor(height: nat): (r: BlockIndex)
      requires Linked() && height <= nHeight
      ensures r.Linked() && r.nHeight == height
      decreases nHeight
    {
      if height == nHeight then this else pprev.Ancestor(height)
    }

    /** The skip pointer is unset, or leads to the ancestor at the skip height. */
    ghost predicate SkipOk()
      requires Linked()
      reads this`pskip
    {
      pskip == null || (nHeight > 0 && GetSkipHeight(nHeight) < nHeight && pskip == Ancestor(GetSkipHeight(nHeight)))
    }

    ghost predicate SkipsOk()
      requires Linked()
      reads Line()
    {
      forall x | x in Line() :: x.SkipOk()
    }

    /** The skiplist walk finds what the plain walk finds. */
    method GetAncestor(height: int) returns (r: BlockIndex?)
      requires Linked() && SkipsOk()
      ensures if height > nHeight || height < 0 then r == null else r == Ancestor(height)
      ensures SkipsOk()
    {
      if height > nHeight || height < 0 {
        return null;
      }
      var pindexWalk, heightWalk := this, nHeight;
      while heightWalk > height
        invariant height <= heightWalk <= nHeight && pindexWalk == Ancestor(heightWalk) && SkipsOk()
        decreases heightWalk
      {
        AncestorInLine(this, heightWalk);
        assert pindexWalk.SkipOk();
        SkipLowers(heightWalk);
        var heightSkip := GetSkipHeight(heightWalk);
        var heightSkipPrev := GetSkipHeight(heightWalk - 1);
        if pindexWalk.pskip != null &&
           (heightSkip == height || (heightSkip > height
                                     && !(heightSkipPrev < heightSkip - 2 && heightSkipPrev >= height)))
        {
          AncestorOfAncestor(this, heightWalk, heightSkip);
          pindexWalk := pindexWalk.pskip;
          heightWalk := heightSkip;
        } else {
          assert pindexWalk.pprev != null;
          AncestorOfAncestor(this, heightWalk, heightWalk - 1);
          pindexWalk := pindexWalk.pprev;
          heightWalk := heightWalk - 1;
        }
      }
      r := pindexWalk;
    }

    method BuildSkip()
      requires Linked() && (pprev != null ==> pprev.SkipsOk())
      modifies this`pskip
      ensures SkipsOk() && (pprev != null ==>
                              GetSkipHeight(nHeight) < nHeight && pskip == Ancestor(GetSkipHeight(nHeight)))
    {
      if pprev != null {
        SkipLowers(nHeight);
        ghost var line := pprev.Line();
        var skip := pprev.GetAncestor(GetSkipHeight(nHeight));
        assert pprev.SkipsOk();
        assert forall x | x in line :: x.SkipOk();
        pskip := skip;
        forall x | x in line
          ensures x.SkipOk()
        {
          assert x != this;
        }
        assert Line() == {this} + line;
      } else {
        pskip := null;
        assert Line() == {this};
      }
    }
  }

  lemma {:induction false} AncestorOfAncestor(b: BlockIndex, h: nat, k: nat)
    requires b.Linked() && k <= h <= b.nHeight
    ensures b.Ancestor(h).Ancestor(k) == b.Ancestor(k)
    decreases b.nHeight
  {
    if h < b.nHeight {
      AncestorOfAncestor(b.pprev, h, k);
    }
  }

  lemma {:induction false} AncestorInLine(b: BlockIndex, h: nat)
    requires b.Linked() && h <= b.nHeight
    ensures b.Ancestor(h) in b.Line()
    decreases b.nHeight
  {
    if h < b.nHeight {
      AncestorInLine(b.pprev, h);
    }
  }

  // ---------- The active chain ----------

  /** Slot i holds the ancestor of the tip at height i. */
  ghost predicate IsLineTo(v: seq<BlockIndex?>, tip: BlockIndex)
    requires tip.Linked()
  {
    |v| == tip.nHeight + 1 && forall i | 0 <= i < |v| :: v[i] == tip.Ancestor(i)
  }

  ghost predicate Consistent(v: seq<BlockIndex?>) {
    v != [] ==> v[|v| - 1] != null && v[|v| - 1].Linked() && IsLineTo(v, v[|v| - 1])
  }

  /** Two lines that meet at a height are the same below it. */
  lemma SameBelow(a: BlockIndex, b: BlockIndex, h: nat, j: nat)
    requires a.Linked() && b.Linked() && j <= h <= a.nHeight && h <= b.nHeight && a.Ancestor(h) == b.Ancestor(h)
    ensures a.Ancestor(j) == b.Ancestor(j)
  {
    AncestorOfAncestor(a, h, j);
    AncestorOfAncestor(b, h, j);
  }

  /** The old slots below a height, after resizing. */
  function Resized(v: seq<BlockIndex?>, n: nat): (r: seq<BlockIndex?>)
    ensures |r| == n && forall i | 0 <= i < n :: r[i] == if i < |v| then v[i] else null
  {
    seq(n, i requires 0 <= i => if i < |v| then v[i] else null)
  }

  class ActiveChain {
    var vChain: seq<BlockIndex?>

    function Tip(): BlockIndex?
      reads this
    {
      if |vChain| > 0 then vChain[|vChain| - 1] else null
    }

    function At(height: int): BlockIndex?
      reads this
    {
      if height < 0 || height >= |vChain| then null else vChain[height]
    }

    predicate Contains(pindex: BlockIndex)
      reads this
    {
      At(pindex.nHeight) == pindex
    }

    function Height(): int
      reads this
    {
      |vChain| - 1
    }

    constructor ()
      ensures vChain == []
    {
      vChain := [];
    }

    /** From any consistent chain, and although it stops at the first block that is in place. */
    method SetTip(pindex: BlockIndex?)
      requires Consistent(vChain) && (pindex != null ==> pindex.Linked())
      modifies this
      ensures Consistent(vChain)
      ensures if pindex == null then vChain == [] else IsLineTo(vChain, pindex)
    {
      if pindex == null {
        vChain := [];
        return;
      }
      ghost var before := vChain;
      vChain := Resized(vChain, pindex.nHeight + 1);
      var p: BlockIndex? := pindex;
      while p != null && vChain[p.nHeight] != p
        invariant |vChain| == pindex.nHeight + 1
        invariant p != null ==> p.nHeight <= pindex.nHeight && p == pindex.Ancestor(p.nHeight)
        invariant forall i | 0 <= i < |vChain| ::
                    vChain[i] == if p == null || i > p.nHeight then pindex.Ancestor(i) else if i < |before|
                        then before[i] else null
        decreases if p == null then 0 else p.nHeight + 1
      {
        vChain := vChain[p.nHeight := p];
        if p.nHeight > 0 {
          AncestorOfAncestor(pindex, p.nHeight, p.nHeight - 1);
        }
        p := p.pprev;
      }
      if p != null {
        StoppedEarly(before, pindex, p);
      }
      assert vChain[pindex.nHeight] == pindex.Ancestor(pindex.nHeight);
    }

    /** The highest block of the line of `pindex` that is in the chain. */
    method FindFork(pindex: BlockIndex?) returns (r: BlockIndex?)
      requires Consistent(vChain) && (pindex != null ==> pindex.Linked() && pindex.SkipsOk())
      ensures pindex == null ==> r == null
      ensures r != null && pindex != null ==>
                r.nHeight <= pindex.nHeight && r == pindex.Ancestor(r.nHeight) && Contains(r)
      ensures pindex != null ==> forall h | 0 <= h <= pindex.nHeight && (r != null ==> h > r.nHeight) ::
                !Contains(pindex.Ancestor(h))
    {
      if pindex == null {
        return null;
      }
      r := pindex;
      if pindex.nHeight > Height() {
        r := pindex.GetAncestor(Height());
        NoneAbove(this, pindex);
      }
      while r != null && !Contains(r)
        invariant r != null ==> r.nHeight <= pindex.nHeight && r == pindex.Ancestor(r.nHeight)
        invariant forall h | 0 <= h <= pindex.nHeight && (r != null ==> h > r.nHeight) :: !Contains(pindex.Ancestor(h))
        decreases if r == null then 0 else r.nHeight + 1
      {
        if r.nHeight > 0 {
          AncestorOfAncestor(pindex, r.nHeight, r.nHeight - 1);
        }
        r := r.pprev;
      }
    }

    /** A list of blocks at ever larger distances back to the first one. Where the block is in the chain its slots are
        used instead of the skiplist; both lead to the ancestor. */
    method GetLocator(from: BlockIndex?) returns (vHave: seq<BlockIndex>)
      requires Consistent(vChain) && (Tip() != null ==> Tip().SkipsOk())
      requires from != null ==> from.Linked() && from.SkipsOk()
      ensures
        var start := if from == null then Tip() else from;
        if start == null then vHave == [] else vHave == AncestorsAt(start, LocatorHeights(start.nHeight, 1, 0))
    {
      vHave := [];
      var start := if from == null then Tip() else from;
      if start != null {
        vHave := WalkBack(start);
      }
    }

    method WalkBack(start: BlockIndex) returns (vHave: seq<BlockIndex>)
      requires Consistent(vChain) && start.Linked() && start.SkipsOk()
      ensures vHave == AncestorsAt(start, LocatorHeights(start.nHeight, 1, 0))
    {
      hide LocatorHeights, AncestorsAt, Consistent;
      NoAncestors(start);
      vHave := [];
      var pindex, nStep := start, 1;
      ghost var heights: seq<nat> := [];
      while pindex.nHeight > 0
        invariant pindex.nHeight <= start.nHeight && pindex == start.Ancestor(pindex.nHeight) && nStep >= 1
        invariant (forall i | 0 <= i < |heights| :: heights[i] <= start.nHeight) && |vHave| == |heights|
        invariant vHave == AncestorsAt(start, heights)
        invariant heights + LocatorHeights(pindex.nHeight, nStep, |heights|) == LocatorHeights(start.nHeight, 1, 0)
        invariant pindex.SkipsOk()
        decreases pindex.nHeight
      {
        ghost var h := pindex.nHeight;
        AncestorsAppend(start, heights, h);
        LocatorNext(heights, h, nStep);
        vHave := vHave + [pindex];
        heights := heights + [h];
        var nHeight := if pindex.nHeight > nStep then pindex.nHeight - nStep else 0;
        AncestorOfAncestor(start, h, nHeight);
        pindex := Back(pindex, nHeight);
        if |vHave| > 10 {
          nStep := nStep * 2;
        }
      }
      AncestorsAppend(start, heights, 0);
      LocatorEnd(nStep, |heights|);
      vHave := vHave + [pindex];
    }

    /** The ancestor at a height, from the slots if the block is in the chain and by the skiplist otherwise. */
    method Back(pindex: BlockIndex, nHeight: nat) returns (r: BlockIndex)
      requires Consistent(vChain) && pindex.Linked() && pindex.SkipsOk() && nHeight <= pindex.nHeight
      ensures r == pindex.Ancestor(nHeight) && r.SkipsOk()
    {
      if Contains(pindex) {
        InChain(this, pindex, nHeight);
        r := At(nHeight);
      } else {
        r := pindex.GetAncestor(nHeight);
      }
      LineOfAncestor(pindex, nHeight);
    }
  }

  lemma StoppedEarly(before: seq<BlockIndex?>, tip: BlockIndex, p: BlockIndex)
    requires Consistent(before) && tip.Linked() && p.nHeight <= tip.nHeight && p == tip.Ancestor(p.nHeight)
    requires p.nHeight < |before| && before[p.nHeight] == p
    ensures forall i | 0 <= i <= p.nHeight :: before[i] == tip.Ancestor(i)
  {
    forall i | 0 <= i <= p.nHeight
      ensures before[i] == tip.Ancestor(i)
    {
      SameBelow(before[|before| - 1], tip, p.nHeight, i);
    }
  }

  /** Blocks above the height of the chain are not in it. */
  lemma NoneAbove(chain: ActiveChain, b: BlockIndex)
    requires b.Linked()
    ensures forall h | 0 <= h <= b.nHeight && h > chain.Height() :: !chain.Contains(b.Ancestor(h))
  {
  }

  // ---------- Locators ----------

  /** The heights of a locator: single steps for the first ten, then doubling. */
  function LocatorHeights(h: nat, step: nat, n: nat): (r: seq<nat>)
    requires step >= 1
    ensures forall i | 0 <= i < |r| :: r[i] <= h
    decreases h
  {
    if h == 0 then [0] else
      [h] + LocatorHeights(if h > step then h - step else 0, if n + 1 > 10 then step * 2 else step, n + 1)
  }

  lemma LocatorNext(heights: seq<nat>, h: nat, step: nat)
    requires h > 0 && step >= 1
    ensures
      var n := |heights| + 1;
      heights + LocatorHeights(h, step, |heights|) ==
      (heights + [h]) + LocatorHeights(if h > step then h - step else 0, if n > 10 then step * 2 else step, n)
  {
  }

  lemma LocatorEnd(step: nat, n: nat)
    requires step >= 1
    ensures LocatorHeights(0, step, n) == [0]
  {
  }

  lemma NoAncestors(b: BlockIndex)
    requires b.Linked()
    ensures AncestorsAt(b, []) == []
  {
  }

  /** It starts at the block, goes strictly down and ends at the first block. */
  lemma {:induction false} LocatorDescends(h: nat, step: nat, n: nat)
    requires step >= 1
    ensures
      var r := LocatorHeights(h, step, n);
      r != [] && r[0] == h && r[|r| - 1] == 0 && forall i | 0 <= i < |r| - 1 :: r[i + 1] < r[i]
    decreases h
  {
    if h > 0 {
      LocatorDescends(if h > step then h - step else 0, if n + 1 > 10 then step * 2 else step, n + 1);
    }
  }

  lemma LocatorStep(h: nat, step: nat, n: nat)
    requires h > 0 && step >= 1
    ensures |LocatorHeights(h, step, n)| ==
            1 + |LocatorHeights(if h > step then h - step else 0, if n + 1 > 10 then step * 2 else step, n + 1)|
  {
  }

  /** Once the steps double, k more of them go back by 2^k - 1 times the first. */
  lemma {:induction false} LocatorDoubles(h: nat, step: nat, n: nat, k: nat)
    requires step >= 1 && n >= 10
    ensures |LocatorHeights(h, step, n)| <= 1 + k <==> h <= step * (Pow2(k) - 1)
    decreases k
  {
    hide LocatorHeights, Pow2;
    LocatorDescends(h, step, n);
    if h == 0 {
      LocatorEnd(step, n);
      Arith.MulLe(0, Pow2(k) - 1, step);
    } else {
      var rest := if h > step then h - step else 0;
      LocatorStep(h, step, n);
      LocatorDescends(rest, step * 2, n + 1);
      if k == 0 {
        Pow2Zero();
      } else {
        LocatorDoubles(rest, step * 2, n + 1, k - 1);
        Pow2Next(k);
        Doubled(step, Pow2(k - 1));
      }
    }
  }

  lemma Doubled(step: nat, p: nat)
    requires p >= 1
    ensures step * 2 * (p - 1) == step * (2 * p - 1) - step >= 0
  {
    Arith.MulLe(0, p - 1, step * 2);
  }

  lemma {:induction false} LocatorSingles(h: nat, n: nat)
    requires n <= 10
    ensures |LocatorHeights(h, 1, n)| == if h < 10 - n then h + 1 else 10 - n + |LocatorHeights(h - (10 - n), 1, 10)|
    decreases h
  {
    hide LocatorHeights;
    if h == 0 {
      LocatorEnd(1, n);
    } else if n < 10 {
      LocatorStep(h, 1, n);
      LocatorSingles(h - 1, n + 1);
    }
  }

  /** The length of a locator grows with the binary logarithm of the height, exactly: it has at most 11 + k entries if
      and only if the height is below 10 + 2^k. */
  lemma LocatorLength(h: nat, k: nat)
    ensures |LocatorHeights(h, 1, 0)| <= 11 + k <==> h < 10 + Pow2(k)
  {
    hide LocatorHeights, Pow2;
    LocatorSingles(h, 0);
    if h >= 10 {
      LocatorDoubles(h - 10, 1, 10, k);
    }
  }

  ghost function AncestorsAt(b: BlockIndex, heights: seq<nat>): seq<BlockIndex>
    requires b.Linked() && forall i | 0 <= i < |heights| :: heights[i] <= b.nHeight
  {
    if heights == [] then [] else AncestorsAt(b, heights[..|heights| - 1]) + [b.Ancestor(heights[|heights| - 1])]
  }

  lemma AncestorsAppend(b: BlockIndex, heights: seq<nat>, h: nat)
    requires b.Linked() && h <= b.nHeight && forall i | 0 <= i < |heights| :: heights[i] <= b.nHeight
    ensures AncestorsAt(b, heights + [h]) == AncestorsAt(b, heights) + [b.Ancestor(h)]
  {
    assert (heights + [h])[..|heights|] == heights;
  }

  lemma InChain(chain: ActiveChain, b: BlockIndex, h: nat)
    requires Consistent(chain.vChain) && b.Linked() && chain.Contains(b) && h <= b.nHeight
    ensures chain.At(h) == b.Ancestor(h)
  {
    var tip := chain.vChain[|chain.vChain| - 1];
    AncestorOfAncestor(tip, b.nHeight, h);
  }

  lemma {:induction false} LineOfAncestor(b: BlockIndex, h: nat)
    requires b.Linked() && b.SkipsOk() && h <= b.nHeight
    ensures b.Ancestor(h).SkipsOk()
    decreases b.nHeight
  {
    if h < b.nHeight {
      assert b.pprev.Line() <= b.Line();
      LineOfAncestor(b.pprev, h);
    }
  }
}
