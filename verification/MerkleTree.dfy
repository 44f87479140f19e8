/**
 Merkle trees over a list of transaction ids, and the partial trees of `CPartialMerkleTree` as values: what the encoder
 writes, what the decoder makes of any bits and hashes, and how the two fit together.
 */
module MerkleTree {
  import opened Basics
  import Arith
  import opened Bytes
  import opened Positional

  /** The hash of a pair; zero stands for failure. */
  type PairHash = (Hash256, Hash256) -> Hash256

  ghost predicate Injective(hash: PairHash) {
    forall a, b, c, d :: hash(a, b) == hash(c, d) ==> a == c && b == d
  }

  // ---------- The shape of the tree ----------

  /** The number of nodes at a height (`CalcTreeWidth`). */
  function Width(n: nat, h: nat): nat {
    (n + Pow2(h) - 1) / Pow2(h)
  }

  /** A node is in the tree exactly if its first leaf is. */
  lemma WidthIs(n: nat, h: nat, pos: nat)
    ensures pos < Width(n, h) <==> IsNode(n, h, pos)
  {
    hide Pow2;
    var p, w := Pow2(h), Width(n, h);
    Arith.DivMod(n + p - 1, p);
    if pos < w {
      Arith.MulLe(pos + 1, w, p);
      Arith.Distribute(pos, 1, p);
    } else {
      Arith.MulLe(w, pos, p);
    }
  }

  /** The height of the tree: the first one with at most one node. */
  function Height(n: nat): (h: nat)
    ensures n <= Pow2(h) && (h > 0 ==> Pow2(h - 1) < n)
  {
    HeightFrom(n, 0)
  }

  function HeightFrom(n: nat, h: nat): (r: nat)
    requires h > 0 ==> Pow2(h - 1) < n
    ensures n <= Pow2(r) && (r > 0 ==> Pow2(r - 1) < n)
    decreases n - Pow2(h)
  {
    if Pow2(h) < n then HeightFrom(n, h + 1) else h
  }

  predicate IsNode(n: nat, h: nat, pos: nat) {
    pos * Pow2(h) < n
  }

  /** The leaves below a node end here. */
  function End(n: nat, h: nat, pos: nat): (r: nat)
    ensures r <= n
  {
    if (pos + 1) * Pow2(h) < n then (pos + 1) * Pow2(h) else n
  }

  /** The children of a node cover its leaves. */
  lemma Children(n: nat, h: nat, pos: nat)
    requires h > 0 && IsNode(n, h, pos)
    ensures IsNode(n, h - 1, 2 * pos) && 2 * pos * Pow2(h - 1) == pos * Pow2(h)
    ensures (2 * pos + 1) * Pow2(h - 1) == pos * Pow2(h) + Pow2(h - 1)
    ensures
      if IsNode(n, h - 1, 2 * pos + 1) then
        End(n, h - 1, 2 * pos) == (2 * pos + 1) * Pow2(h - 1) && End(n, h - 1, 2 * pos + 1) == End(n, h, pos)
      else
        End(n, h - 1, 2 * pos) == End(n, h, pos)
  {
    var p := Pow2(h - 1);
    assert pos * (2 * p) == 2 * pos * p;
    assert (pos + 1) * (2 * p) == (2 * pos + 2) * p;
    assert (2 * pos + 1) * p == 2 * pos * p + p;
    assert (2 * pos + 2) * p == 2 * pos * p + 2 * p;
  }

  /** `CalcHash`. */
  function Node(hash: PairHash, txids: seq<Hash256>, h: nat, pos: nat): Hash256
    requires IsNode(|txids|, h, pos)
  {
    if h == 0 then txids[pos] else
      Children(|txids|, h, pos);
      var left := Node(hash, txids, h - 1, 2 * pos);
      var right := if IsNode(|txids|, h - 1, 2 * pos + 1) then Node(hash, txids, h - 1, 2 * pos + 1) else left;
      hash(left, right)
  }

  lemma RootIsNode(n: nat)
    requires n > 0
    ensures IsNode(n, Height(n), 0) && End(n, Height(n), 0) == n
  {
  }

  function Root(hash: PairHash, txids: seq<Hash256>): Hash256
    requires txids != []
  {
    RootIsNode(|txids|);
    Node(hash, txids, Height(|txids|), 0)
  }

  // ---------- The encoder ----------

  predicate AnyMatch(match_: seq<bool>, lo: nat, hi: nat)
    requires hi <= |match_|
  {
    exists i :: lo <= i < hi && match_[i]
  }

  /** The bits that `TraverseAndBuild` stores for a node. */
  function Bits(match_: seq<bool>, h: nat, pos: nat): seq<bool>
    requires IsNode(|match_|, h, pos)
  {
    var n := |match_|;
    var parent := AnyMatch(match_, pos * Pow2(h), End(n, h, pos));
    if h == 0 || !parent then [parent] else
      Children(n, h, pos);
      [true] + Bits(match_, h - 1, 2 * pos)
      + if IsNode(n, h - 1, 2 * pos + 1) then Bits(match_, h - 1, 2 * pos + 1) else []
  }

  /** The hashes that it stores. */
  function Hashes(hash: PairHash, txids: seq<Hash256>, match_: seq<bool>, h: nat, pos: nat): seq<Hash256>
    requires |match_| == |txids| && IsNode(|txids|, h, pos)
  {
    var n := |txids|;
    if h == 0 || !AnyMatch(match_, pos * Pow2(h), End(n, h, pos)) then [Node(hash, txids, h, pos)] else
      Children(n, h, pos);
      Hashes(hash, txids, match_, h - 1, 2 * pos)
      + if IsNode(n, h - 1, 2 * pos + 1) then Hashes(hash, txids, match_, h - 1, 2 * pos + 1) else []
  }

  // ---------- The decoder ----------

  /** What a call of `TraverseAndExtract` returns, with the cursors after it, the matches it adds and whether it sets
      the failure flag. */
  datatype Extracted = Extracted(hash: Hash256, bits: nat, hashes: nat, bad: bool, matches: seq<Hash256>,
                                 index: seq<nat>)

  function Extract(hash: PairHash, n: nat, bits: seq<bool>, hashes: seq<Hash256>, h: nat, pos: nat, b: nat,
                   k: nat): Extracted
    decreases h
  {
    if b >= |bits| then Extracted(0, b, k, true, [], [])
    else if h == 0 || !bits[b] then
      if k >= |hashes| then Extracted(0, b + 1, k, true, [], [])
      else if h == 0 && bits[b] then Extracted(hashes[k], b + 1, k + 1, false, [hashes[k]], [pos])
      else Extracted(hashes[k], b + 1, k + 1, false, [], [])
    else
      var l := Extract(hash, n, bits, hashes, h - 1, 2 * pos, b + 1, k);
      if 2 * pos + 1 < Width(n, h - 1) then
        var r := Extract(hash, n, bits, hashes, h - 1, 2 * pos + 1, l.bits, l.hashes);
        Extracted(hash(l.hash, r.hash), r.bits, r.hashes, l.bad || r.bad || r.hash == l.hash, l.matches + r.matches,
                  l.index + r.index)
      else
        l.(hash := hash(l.hash, l.hash))
  }

  /** `ExtractMatches`: the root or zero, and what is in the match vectors afterwards. */
  function ExtractAll(hash: PairHash, n: nat, bits: seq<bool>, hashes: seq<Hash256>,
                      bad: bool): (Hash256, seq<Hash256>, seq<nat>) {
    if n == 0 || n > MAX_BLOCK_BASE_SIZE / 60 || |hashes| > n || |bits| < |hashes| then (0, [], []) else
      var r := Extract(hash, n, bits, hashes, Height(n), 0, 0, 0);
      if bad || r.bad || (r.bits + 7) / 8 != (|bits| + 7) / 8 || r.hashes != |hashes| then (0, r.matches, r.index)
      else (r.hash, r.matches, r.index)
  }

  // ---------- Soundness ----------

  /** Every match is the true id at its index. */
  ghost predicate Truthful(txids: seq<Hash256>, matches: seq<Hash256>, index: seq<nat>) {
    && |matches| == |index|
    && forall i | 0 <= i < |matches| :: index[i] < |txids| && txids[index[i]] == matches[i]
  }

  /** If the hash of a node comes out right, then so are the matches below it, whatever the bits and hashes were. */
  lemma {:induction false} NodeSound(hash: PairHash, txids: seq<Hash256>, bits: seq<bool>, hashes: seq<Hash256>, h: nat,
                                     pos: nat, b: nat, k: nat)
    requires Injective(hash) && IsNode(|txids|, h, pos)
    requires Extract(hash, |txids|, bits, hashes, h, pos, b, k).hash == Node(hash, txids, h, pos)
    ensures var r := Extract(hash, |txids|, bits, hashes, h, pos, b, k); Truthful(txids, r.matches, r.index)
    decreases h
  {
    hide Injective, Truthful, Pow2, End;
    var n := |txids|;
    if b < |bits| && h > 0 && bits[b] {
      Children(n, h, pos);
      WidthIs(n, h - 1, 2 * pos + 1);
      var l := Extract(hash, n, bits, hashes, h - 1, 2 * pos, b + 1, k);
      var left := Node(hash, txids, h - 1, 2 * pos);
      if IsNode(n, h - 1, 2 * pos + 1) {
        var r := Extract(hash, n, bits, hashes, h - 1, 2 * pos + 1, l.bits, l.hashes);
        SamePair(hash, l.hash, r.hash, left, Node(hash, txids, h - 1, 2 * pos + 1));
        NodeSound(hash, txids, bits, hashes, h - 1, 2 * pos, b + 1, k);
        NodeSound(hash, txids, bits, hashes, h - 1, 2 * pos + 1, l.bits, l.hashes);
        TruthfulAppend(txids, l.matches, l.index, r.matches, r.index);
      } else {
        SamePair(hash, l.hash, l.hash, left, left);
        NodeSound(hash, txids, bits, hashes, h - 1, 2 * pos, b + 1, k);
      }
    } else {
      LeafSound(hash, txids, bits, hashes, h, pos, b, k);
    }
  }

  lemma SamePair(hash: PairHash, a: Hash256, b: Hash256, c: Hash256, d: Hash256)
    requires Injective(hash) && hash(a, b) == hash(c, d)
    ensures a == c && b == d
  {
  }

  lemma LeafSound(hash: PairHash, txids: seq<Hash256>, bits: seq<bool>, hashes: seq<Hash256>, h: nat, pos: nat, b: nat,
                  k: nat)
    requires IsNode(|txids|, h, pos) && (b >= |bits| || h == 0 || !bits[b])
    requires Extract(hash, |txids|, bits, hashes, h, pos, b, k).hash == Node(hash, txids, h, pos)
    ensures var r := Extract(hash, |txids|, bits, hashes, h, pos, b, k); Truthful(txids, r.matches, r.index)
  {
  }

  lemma TruthfulAppend(txids: seq<Hash256>, m: seq<Hash256>, i: seq<nat>, m': seq<Hash256>, i': seq<nat>)
    requires Truthful(txids, m, i) && Truthful(txids, m', i')
    ensures Truthful(txids, m + m', i + i')
  {
  }

  /** Soundness of the proofs: whoever gets the root of a list of ids out of bits and hashes for that many transactions
      gets only true matches with it. */
  lemma Sound(hash: PairHash, txids: seq<Hash256>, bits: seq<bool>, hashes: seq<Hash256>, bad: bool)
    requires Injective(hash) && txids != []
    ensures
      var (root, matches, index) := ExtractAll(hash, |txids|, bits, hashes, bad);
      root == Root(hash, txids) && root != 0 ==> Truthful(txids, matches, index)
  {
    var n := |txids|;
    RootIsNode(n);
    if Extract(hash, n, bits, hashes, Height(n), 0, 0, 0).hash == Root(hash, txids) {
      NodeSound(hash, txids, bits, hashes, Height(n), 0, 0, 0);
    }
  }

  // ---------- Completeness ----------

  /** The matched positions from lo up to hi. */
  function Matched(match_: seq<bool>, lo: nat, hi: nat): (r: seq<nat>)
    requires hi <= |match_|
    decreases hi - lo
  {
    if lo >= hi then [] else (if match_[lo] then [lo] else []) + Matched(match_, lo + 1, hi)
  }

  function IdsAt(txids: seq<Hash256>, index: seq<nat>): (r: seq<Hash256>)
    requires forall i | 0 <= i < |index| :: index[i] < |txids|
    ensures |r| == |index| && forall i | 0 <= i < |r| :: r[i] == txids[index[i]]
  {
    if index == [] then [] else [txids[index[0]]] + IdsAt(txids, index[1..])
  }

  // The list has exactly the matched positions, in ascending order.

  predicate IsMatched(match_: seq<bool>, lo: nat, hi: nat, p: nat)
    requires hi <= |match_|
  {
    lo <= p < hi && match_[p]
  }

  lemma {:induction false} MatchedAt(match_: seq<bool>, lo: nat, hi: nat, i: nat)
    requires hi <= |match_| && i < |Matched(match_, lo, hi)|
    ensures IsMatched(match_, lo, hi, Matched(match_, lo, hi)[i])
    decreases hi - lo
  {
    if !match_[lo] {
      MatchedAt(match_, lo + 1, hi, i);
    } else if i > 0 {
      MatchedAt(match_, lo + 1, hi, i - 1);
    }
  }

  lemma {:induction false} MatchedAscends(match_: seq<bool>, lo: nat, hi: nat, i: nat, j: nat)
    requires hi <= |match_| && i < j < |Matched(match_, lo, hi)|
    ensures Matched(match_, lo, hi)[i] < Matched(match_, lo, hi)[j]
    decreases hi - lo
  {
    if !match_[lo] {
      MatchedAscends(match_, lo + 1, hi, i, j);
    } else if i > 0 {
      MatchedAscends(match_, lo + 1, hi, i - 1, j - 1);
    } else {
      MatchedAt(match_, lo + 1, hi, j - 1);
    }
  }

  lemma {:induction false} AllMatched(match_: seq<bool>, lo: nat, hi: nat, p: nat)
    requires hi <= |match_| && IsMatched(match_, lo, hi, p)
    ensures p in Matched(match_, lo, hi)
    decreases hi - lo
  {
    if p > lo {
      AllMatched(match_, lo + 1, hi, p);
    }
  }

  lemma {:induction false} MatchedAppend(match_: seq<bool>, lo: nat, mid: nat, hi: nat)
    requires lo <= mid <= hi <= |match_|
    ensures Matched(match_, lo, hi) == Matched(match_, lo, mid) + Matched(match_, mid, hi)
    decreases mid - lo
  {
    if lo < mid {
      MatchedAppend(match_, lo + 1, mid, hi);
    }
  }

  lemma {:induction false} NoneMatched(match_: seq<bool>, lo: nat, hi: nat)
    requires hi <= |match_|
    ensures AnyMatch(match_, lo, hi) <==> Matched(match_, lo, hi) != []
    decreases hi - lo
  {
    if lo < hi {
      NoneMatched(match_, lo + 1, hi);
    }
  }

  lemma {:induction false} IdsAppend(txids: seq<Hash256>, a: seq<nat>, b: seq<nat>)
    requires forall i | 0 <= i < |a| :: a[i] < |txids|
    requires forall i | 0 <= i < |b| :: b[i] < |txids|
    ensures IdsAt(txids, a + b) == IdsAt(txids, a) + IdsAt(txids, b)
  {
    assert forall i | 0 <= i < |a + b| :: (a + b)[i] < |txids|;
  }

  ghost predicate Distinct(txids: seq<Hash256>) {
    forall i, j | 0 <= i < j < |txids| :: txids[i] != txids[j]
  }

  /** Different nodes at one height have different hashes, because their first leaves differ. */
  lemma {:induction false} NodesDiffer(hash: PairHash, txids: seq<Hash256>, h: nat, p: nat, q: nat)
    requires Injective(hash) && Distinct(txids) && p < q && IsNode(|txids|, h, p) && IsNode(|txids|, h, q)
    ensures Node(hash, txids, h, p) != Node(hash, txids, h, q)
  {
    hide Injective, Distinct, Pow2, End;
    if h == 0 {
      assert Pow2(0) == 1 by { Pow2Zero(); }
      DifferentIds(txids, p, q);
    } else {
      Children(|txids|, h, p);
      Children(|txids|, h, q);
      NodesDiffer(hash, txids, h - 1, 2 * p, 2 * q);
      if Node(hash, txids, h, p) == Node(hash, txids, h, q) {
        var n := |txids|;
        var a, c := Node(hash, txids, h - 1, 2 * p), Node(hash, txids, h - 1, 2 * q);
        var b := if IsNode(n, h - 1, 2 * p + 1) then Node(hash, txids, h - 1, 2 * p + 1) else a;
        var d := if IsNode(n, h - 1, 2 * q + 1) then Node(hash, txids, h - 1, 2 * q + 1) else c;
        SamePair(hash, a, b, c, d);
      }
    }
  }

  lemma DifferentIds(txids: seq<Hash256>, p: nat, q: nat)
    requires Distinct(txids) && p < q < |txids|
    ensures txids[p] != txids[q]
  {
  }

  /** The bits and hashes from the cursors on are those of the node. */
  ghost predicate Holds(hash: PairHash, txids: seq<Hash256>, match_: seq<bool>, h: nat, pos: nat, bits: seq<bool>,
                        hashes: seq<Hash256>, b: nat, k: nat)
    requires |match_| == |txids| && IsNode(|txids|, h, pos)
  {
    && b <= |bits| && Bits(match_, h, pos) <= bits[b..]
    && k <= |hashes| && Hashes(hash, txids, match_, h, pos) <= hashes[k..]
  }

  /** What extraction gives for a node that was encoded. */
  function Expected(hash: PairHash, txids: seq<Hash256>, match_: seq<bool>, h: nat, pos: nat, b: nat, k: nat): Extracted
    requires |match_| == |txids| && IsNode(|txids|, h, pos)
  {
    var index := Matched(match_, pos * Pow2(h), End(|txids|, h, pos));
    MatchedBelow(match_, pos * Pow2(h), End(|txids|, h, pos));
    Extracted(Node(hash, txids, h, pos), b + |Bits(match_, h, pos)|, k + |Hashes(hash, txids, match_, h, pos)|, false,
              IdsAt(txids, index), index)
  }

  lemma MatchedBelow(match_: seq<bool>, lo: nat, hi: nat)
    requires hi <= |match_|
    ensures forall i | 0 <= i < |Matched(match_, lo, hi)| :: Matched(match_, lo, hi)[i] < |match_|
  {
    forall i | 0 <= i < |Matched(match_, lo, hi)|
      ensures Matched(match_, lo, hi)[i] < |match_|
    {
      MatchedAt(match_, lo, hi, i);
    }
  }

  lemma LeafComplete(hash: PairHash, txids: seq<Hash256>, match_: seq<bool>, h: nat, pos: nat, bits: seq<bool>,
                     hashes: seq<Hash256>, b: nat, k: nat)
    requires |match_| == |txids| && IsNode(|txids|, h, pos) && Holds(hash, txids, match_, h, pos, bits, hashes, b, k)
    requires h == 0 || !AnyMatch(match_, pos * Pow2(h), End(|txids|, h, pos))
    ensures Extract(hash, |txids|, bits, hashes, h, pos, b, k) == Expected(hash, txids, match_, h, pos, b, k)
  {
    NoneMatched(match_, pos * Pow2(h), End(|txids|, h, pos));
    if h == 0 {
      assert Matched(match_, pos + 1, pos + 1) == [];
    }
  }

  lemma HoldsChildren(hash: PairHash, txids: seq<Hash256>, match_: seq<bool>, h: nat, pos: nat, bits: seq<bool>,
                      hashes: seq<Hash256>, b: nat, k: nat)
    requires |match_| == |txids| && IsNode(|txids|, h, pos) && Holds(hash, txids, match_, h, pos, bits, hashes, b, k)
    requires h > 0 && AnyMatch(match_, pos * Pow2(h), End(|txids|, h, pos)) && IsNode(|txids|, h - 1, 2 * pos)
    ensures b < |bits| && bits[b] && Holds(hash, txids, match_, h - 1, 2 * pos, bits, hashes, b + 1, k)
    ensures IsNode(|txids|, h - 1, 2 * pos + 1) ==>
              Holds(hash, txids, match_, h - 1, 2 * pos + 1, bits, hashes,
                    b + 1 + |Bits(match_, h - 1, 2 * pos)|, k + |Hashes(hash, txids, match_, h - 1, 2 * pos)|)
  {
    BitsSplit(match_, h, pos, bits, b);
    HashesSplit(hash, txids, match_, h, pos, hashes, k);
  }

  lemma BitsSplit(match_: seq<bool>, h: nat, pos: nat, bits: seq<bool>, b: nat)
    requires IsNode(|match_|, h, pos) && b <= |bits| && Bits(match_, h, pos) <= bits[b..]
    requires h > 0 && AnyMatch(match_, pos * Pow2(h), End(|match_|, h, pos)) && IsNode(|match_|, h - 1, 2 * pos)
    ensures b < |bits| && bits[b] && Bits(match_, h - 1, 2 * pos) <= bits[b + 1..]
    ensures
      var next := b + 1 + |Bits(match_, h - 1, 2 * pos)|;
      next <= |bits| && (IsNode(|match_|, h - 1, 2 * pos + 1) ==> Bits(match_, h - 1, 2 * pos + 1) <= bits[next..])
  {
    hide Pow2, End, AnyMatch, IsNode;
    var bl := Bits(match_, h - 1, 2 * pos);
    var br := if IsNode(|match_|, h - 1, 2 * pos + 1) then Bits(match_, h - 1, 2 * pos + 1) else [];
    assert Bits(match_, h, pos) == [true] + bl + br;
    PrefixSplit(bits, b, [true] + bl, br);
    PrefixSplit(bits, b, [true], bl);
    assert bits[b..][0];
  }

  lemma HashesSplit(hash: PairHash, txids: seq<Hash256>, match_: seq<bool>, h: nat, pos: nat, hashes: seq<Hash256>,
                    k: nat)
    requires |match_| == |txids| && IsNode(|txids|, h, pos) && k <= |hashes|
             && Hashes(hash, txids, match_, h, pos) <= hashes[k..]
    requires h > 0 && AnyMatch(match_, pos * Pow2(h), End(|txids|, h, pos)) && IsNode(|txids|, h - 1, 2 * pos)
    ensures Hashes(hash, txids, match_, h - 1, 2 * pos) <= hashes[k..]
    ensures
      var next := k + |Hashes(hash, txids, match_, h - 1, 2 * pos)|;
      && next <= |hashes|
      && (IsNode(|txids|, h - 1, 2 * pos + 1) ==> Hashes(hash, txids, match_, h - 1, 2 * pos + 1) <= hashes[next..])
  {
    hide Pow2, End, AnyMatch, IsNode, Node;
    var hl := Hashes(hash, txids, match_, h - 1, 2 * pos);
    var hr := if IsNode(|txids|, h - 1, 2 * pos + 1) then Hashes(hash, txids, match_, h - 1, 2 * pos + 1) else [];
    assert Hashes(hash, txids, match_, h, pos) == hl + hr;
    PrefixSplit(hashes, k, hl, hr);
  }

  lemma PrefixSplit<T>(s: seq<T>, i: nat, x: seq<T>, y: seq<T>)
    requires i <= |s| && x + y <= s[i..]
    ensures x <= s[i..] && i + |x| <= |s| && y <= s[i + |x|..]
  {
    assert s[i + |x|..] == s[i..][|x|..];
    assert (x + y)[|x|..] == y;
  }

  lemma ExpectedChildren(hash: PairHash, txids: seq<Hash256>, match_: seq<bool>, h: nat, pos: nat, b: nat, k: nat)
    requires |match_| == |txids| && IsNode(|txids|, h, pos)
    requires h > 0 && AnyMatch(match_, pos * Pow2(h), End(|txids|, h, pos)) && IsNode(|txids|, h - 1, 2 * pos)
    ensures
      var e := Expected(hash, txids, match_, h, pos, b, k);
      var l := Expected(hash, txids, match_, h - 1, 2 * pos, b + 1, k);
      if IsNode(|txids|, h - 1, 2 * pos + 1) then
        var r := Expected(hash, txids, match_, h - 1, 2 * pos + 1, l.bits, l.hashes);
        e == Extracted(hash(l.hash, r.hash), r.bits, r.hashes, false, l.matches + r.matches, l.index + r.index)
      else
        e == l.(hash := hash(l.hash, l.hash))
  {
    hide Pow2, AnyMatch;
    Children(|txids|, h, pos);
    if IsNode(|txids|, h - 1, 2 * pos + 1) {
      var lo, mid, hi := pos * Pow2(h), (2 * pos + 1) * Pow2(h - 1), End(|txids|, h, pos);
      MatchedAppend(match_, lo, mid, hi);
      MatchedBelow(match_, lo, mid);
      MatchedBelow(match_, mid, hi);
      IdsAppend(txids, Matched(match_, lo, mid), Matched(match_, mid, hi));
    }
  }

  /** Extraction undoes encoding, node by node. */
  lemma {:induction false} NodeComplete(hash: PairHash, txids: seq<Hash256>, match_: seq<bool>, h: nat, pos: nat,
                                        bits: seq<bool>, hashes: seq<Hash256>, b: nat, k: nat)
    requires Injective(hash) && Distinct(txids) && |match_| == |txids| && IsNode(|txids|, h, pos)
    requires Holds(hash, txids, match_, h, pos, bits, hashes, b, k)
    ensures Extract(hash, |txids|, bits, hashes, h, pos, b, k) == Expected(hash, txids, match_, h, pos, b, k)
    decreases h
  {
    hide Injective, Distinct, Holds, Expected, Pow2, End, AnyMatch, IsNode, Width;
    var n := |txids|;
    if h == 0 || !AnyMatch(match_, pos * Pow2(h), End(n, h, pos)) {
      LeafComplete(hash, txids, match_, h, pos, bits, hashes, b, k);
    } else {
      Children(n, h, pos);
      WidthIs(n, h - 1, 2 * pos + 1);
      HoldsChildren(hash, txids, match_, h, pos, bits, hashes, b, k);
      ExpectedChildren(hash, txids, match_, h, pos, b, k);
      NodeComplete(hash, txids, match_, h - 1, 2 * pos, bits, hashes, b + 1, k);
      ExpectedCursors(hash, txids, match_, h - 1, 2 * pos, b + 1, k);
      if IsNode(n, h - 1, 2 * pos + 1) {
        var l := Expected(hash, txids, match_, h - 1, 2 * pos, b + 1, k);
        NodeComplete(hash, txids, match_, h - 1, 2 * pos + 1, bits, hashes, l.bits, l.hashes);
        ExpectedCursors(hash, txids, match_, h - 1, 2 * pos + 1, l.bits, l.hashes);
        NodesDiffer(hash, txids, h - 1, 2 * pos, 2 * pos + 1);
      }
    }
  }

  lemma ExpectedCursors(hash: PairHash, txids: seq<Hash256>, match_: seq<bool>, h: nat, pos: nat, b: nat, k: nat)
    requires |match_| == |txids| && IsNode(|txids|, h, pos)
    ensures
      var e := Expected(hash, txids, match_, h, pos, b, k);
      && e.hash == Node(hash, txids, h, pos) && !e.bad
      && e.bits == b + |Bits(match_, h, pos)| && e.hashes == k + |Hashes(hash, txids, match_, h, pos)|
  {
  }

  // ---------- Sizes ----------

  /** At least one hash, and at most one for every leaf below the node. */
  lemma {:induction false} HashesPerLeaf(hash: PairHash, txids: seq<Hash256>, match_: seq<bool>, h: nat, pos: nat)
    requires |match_| == |txids| && IsNode(|txids|, h, pos)
    ensures 1 <= |Hashes(hash, txids, match_, h, pos)| <= End(|txids|, h, pos) - pos * Pow2(h)
  {
    hide Pow2, AnyMatch, Node;
    if h > 0 {
      Children(|txids|, h, pos);
      HashesPerLeaf(hash, txids, match_, h - 1, 2 * pos);
      if IsNode(|txids|, h - 1, 2 * pos + 1) {
        HashesPerLeaf(hash, txids, match_, h - 1, 2 * pos + 1);
      }
    }
    NotEmpty(|txids|, h, pos);
  }

  lemma NotEmpty(n: nat, h: nat, pos: nat)
    requires IsNode(n, h, pos)
    ensures End(n, h, pos) >= pos * Pow2(h) + 1
  {
    hide Pow2;
    Arith.Distribute(pos, 1, Pow2(h));
  }

  /** At most one hash, and one more for every match and level. */
  lemma {:induction false} HashesPerMatch(hash: PairHash, txids: seq<Hash256>, match_: seq<bool>, h: nat, pos: nat)
    requires |match_| == |txids| && IsNode(|txids|, h, pos)
    ensures |Hashes(hash, txids, match_, h, pos)| <= 1 + |Matched(match_, pos * Pow2(h), End(|txids|, h, pos))| * h
  {
    hide Pow2, AnyMatch, Node, Matched, IsNode, End;
    var lo, hi := pos * Pow2(h), End(|txids|, h, pos);
    if h > 0 && AnyMatch(match_, lo, hi) {
      Children(|txids|, h, pos);
      NoneMatched(match_, lo, hi);
      HashesPerMatch(hash, txids, match_, h - 1, 2 * pos);
      var left := |Hashes(hash, txids, match_, h - 1, 2 * pos)|;
      if IsNode(|txids|, h - 1, 2 * pos + 1) {
        var mid := (2 * pos + 1) * Pow2(h - 1);
        HashesPerMatch(hash, txids, match_, h - 1, 2 * pos + 1);
        SplitRange(match_, h, pos);
        var right := |Hashes(hash, txids, match_, h - 1, 2 * pos + 1)|;
        Budget(left, right, |Matched(match_, lo, mid)|, |Matched(match_, mid, hi)|, h);
      } else {
        Budget(left, 0, |Matched(match_, lo, hi)|, 0, h);
      }
    } else {
      assert |Matched(match_, lo, hi)| * h >= 0;
    }
  }

  lemma SplitRange(match_: seq<bool>, h: nat, pos: nat)
    requires h > 0 && IsNode(|match_|, h, pos) && IsNode(|match_|, h - 1, 2 * pos + 1)
    ensures
      var lo, mid, hi := pos * Pow2(h), (2 * pos + 1) * Pow2(h - 1), End(|match_|, h, pos);
      mid <= hi && Matched(match_, lo, hi) == Matched(match_, lo, mid) + Matched(match_, mid, hi)
  {
    hide Pow2;
    Children(|match_|, h, pos);
    NotEmpty(|match_|, h - 1, 2 * pos + 1);
    MatchedAppend(match_, pos * Pow2(h), (2 * pos + 1) * Pow2(h - 1), End(|match_|, h, pos));
  }

  lemma Budget(a: nat, b: nat, m: nat, m': nat, h: nat)
    requires h > 0 && a <= 1 + m * (h - 1) && b <= (if m' == 0 then 1 else 1 + m' * (h - 1)) && m + m' > 0
    ensures a + b <= 1 + (m + m') * h
  {
    Arith.Distribute(m, m', h);
    Arith.Distribute(h - 1, 1, m);
    Arith.Distribute(h - 1, 1, m');
  }

  /** The nodes with a single child among those that are descended into. */
  function Lone(match_: seq<bool>, h: nat, pos: nat): nat
    requires IsNode(|match_|, h, pos)
  {
    var n := |match_|;
    if h == 0 || !AnyMatch(match_, pos * Pow2(h), End(n, h, pos)) then 0 else
      Children(n, h, pos);
      Lone(match_, h - 1, 2 * pos) + if IsNode(n, h - 1, 2 * pos + 1) then Lone(match_, h - 1, 2 * pos + 1) else 1
  }

  /** Two bits for every hash but the first, and one for every single child. */
  lemma {:induction false} BitCount(hash: PairHash, txids: seq<Hash256>, match_: seq<bool>, h: nat, pos: nat)
    requires |match_| == |txids| && IsNode(|txids|, h, pos)
    ensures |Bits(match_, h, pos)| == 2 * |Hashes(hash, txids, match_, h, pos)| - 1 + Lone(match_, h, pos)
  {
    hide Pow2, AnyMatch, Node, IsNode, End;
    if h > 0 && AnyMatch(match_, pos * Pow2(h), End(|txids|, h, pos)) {
      Children(|txids|, h, pos);
      BitCount(hash, txids, match_, h - 1, 2 * pos);
      if IsNode(|txids|, h - 1, 2 * pos + 1) {
        BitCount(hash, txids, match_, h - 1, 2 * pos + 1);
      }
    }
  }

  /** Only the last node of a level can have a single child. */
  lemma {:induction false} LoneAtMost(match_: seq<bool>, h: nat, pos: nat)
    requires IsNode(|match_|, h, pos)
    ensures Lone(match_, h, pos) <= h
    ensures End(|match_|, h, pos) == (pos + 1) * Pow2(h) ==> Lone(match_, h, pos) == 0
  {
    hide Pow2, AnyMatch;
    if h > 0 {
      Children(|match_|, h, pos);
      Arith.Distribute(pos, 1, Pow2(h));
      Arith.Distribute(2 * pos, 1, Pow2(h - 1));
      Arith.Distribute(2 * pos + 1, 1, Pow2(h - 1));
      Pow2Next(h);
      LoneAtMost(match_, h - 1, 2 * pos);
      if IsNode(|match_|, h - 1, 2 * pos + 1) {
        LoneAtMost(match_, h - 1, 2 * pos + 1);
      }
    }
  }

  /** Level k has an odd number of nodes, and the last of them is above a match. */
  predicate LoneAt(match_: seq<bool>, k: nat) {
    var w := Width(|match_|, k);
    w % 2 == 1 && AnyMatch(match_, (w - 1) * Pow2(k), |match_|)
  }

  /** How many levels below h are like that. */
  function LoneLevels(match_: seq<bool>, h: nat): nat {
    if h == 0 then 0 else LoneLevels(match_, h - 1) + if LoneAt(match_, h - 1) then 1 else 0
  }

  /** The last node of a level. */
  predicate IsLast(n: nat, h: nat, pos: nat) {
    IsNode(n, h, pos) && !IsNode(n, h, pos + 1)
  }

  lemma LastIs(n: nat, h: nat, pos: nat)
    requires IsLast(n, h, pos)
    ensures Width(n, h) == pos + 1 && End(n, h, pos) == n
  {
    hide Pow2, Width;
    WidthIs(n, h, pos);
    WidthIs(n, h, pos + 1);
  }

  /** One of the children of the last node is last, and only if it is the right one there are two. */
  lemma LastChild(n: nat, h: nat, pos: nat) returns (child: nat)
    requires h > 0 && IsLast(n, h, pos)
    ensures IsLast(n, h - 1, child) && pos * Pow2(h) <= child * Pow2(h - 1)
    ensures child == if IsNode(n, h - 1, 2 * pos + 1) then 2 * pos + 1 else 2 * pos
  {
    hide Pow2;
    Pow2Next(h);
    var p := Pow2(h - 1);
    child := if IsNode(n, h - 1, 2 * pos + 1) then 2 * pos + 1 else 2 * pos;
    Arith.Associate(pos, 2, p);
    Arith.Associate(pos + 1, 2, p);
    Arith.Distribute(2 * pos, 1, p);
  }

  /** The nodes with a single child that are descended into, without descending. */
  lemma {:induction false} LoneIs(match_: seq<bool>, h: nat, pos: nat)
    requires IsLast(|match_|, h, pos)
    ensures Lone(match_, h, pos) == LoneLevels(match_, h)
    ensures !AnyMatch(match_, pos * Pow2(h), |match_|) ==> LoneLevels(match_, h) == 0
  {
    hide Pow2, AnyMatch, Width, IsNode, End;
    var n := |match_|;
    LastIs(n, h, pos);
    if h > 0 {
      Children(n, h, pos);
      var child := LastChild(n, h, pos);
      LoneIs(match_, h - 1, child);
      LastIs(n, h - 1, child);
      FewerMatches(match_, pos * Pow2(h), child * Pow2(h - 1));
      if IsNode(n, h - 1, 2 * pos + 1) {
        LoneAtMost(match_, h - 1, 2 * pos);
      } else {
        assert child * Pow2(h - 1) == pos * Pow2(h);
      }
    }
  }

  lemma FewerMatches(match_: seq<bool>, lo: nat, mid: nat)
    requires lo <= mid
    ensures AnyMatch(match_, mid, |match_|) ==> AnyMatch(match_, lo, |match_|)
  {
  }

  /** The remark that 2N - 1 bits go with N hashes is wrong for three transactions of which the last is matched. */
  lemma BitRemarkFails(hash: PairHash)
    ensures
      var txids, match_ := [1, 2, 3], [false, false, true];
      && Height(3) == 2 && IsNode(3, 2, 0)
      && |Bits(match_, 2, 0)| > 2 * |Hashes(hash, txids, match_, 2, 0)| - 1
  {
    var txids, match_ := [1, 2, 3], [false, false, true];
    assert Pow2(1) == 2 && Pow2(2) == 4;
    assert match_[2];
    assert AnyMatch(match_, 0, 3) && AnyMatch(match_, 2, 3) && !AnyMatch(match_, 0, 2);
    assert Lone(match_, 1, 1) == 1;
    assert Lone(match_, 1, 0) == 0;
    BitCount(hash, txids, match_, 2, 0);
  }

  /** Everything at the root: a proof passes the size checks of the decoder, and its size is as documented. */
  lemma ProofSizes(hash: PairHash, txids: seq<Hash256>, match_: seq<bool>)
    requires |match_| == |txids| > 0
    ensures IsNode(|txids|, Height(|txids|), 0)
    ensures
      var h := Height(|txids|);
      var hashes, bits := |Hashes(hash, txids, match_, h, 0)|, |Bits(match_, h, 0)|;
      && 1 <= hashes <= |txids| && hashes <= 1 + |Matched(match_, 0, |txids|)| * h
      && bits == 2 * hashes - 1 + LoneLevels(match_, h) <= 2 * hashes - 1 + h
      && (bits <= 2 * hashes - 1 <==> forall k: nat | k < h :: !LoneAt(match_, k))
  {
    hide Lone, Hashes, Bits, Matched, Pow2, LoneAt, LoneLevels;
    var h := Height(|txids|);
    RootIsNode(|txids|);
    assert IsLast(|txids|, h, 0);
    HashesPerLeaf(hash, txids, match_, h, 0);
    HashesPerMatch(hash, txids, match_, h, 0);
    BitCount(hash, txids, match_, h, 0);
    LoneAtMost(match_, h, 0);
    LoneIs(match_, h, 0);
    NoLevels(match_, h);
  }

  lemma {:induction false} NoLevels(match_: seq<bool>, h: nat)
    ensures LoneLevels(match_, h) == 0 <==> forall k: nat | k < h :: !LoneAt(match_, k)
  {
    hide LoneAt;
    if h > 0 {
      NoLevels(match_, h - 1);
    }
  }

  function CompactSizeLength(n: nat): nat {
    if n < 253 then 1 else if n < 0x1_0000 then 3 else if n < 0x1_0000_0000 then 5 else 9
  }

  /** The length of the serialised form, from the number of hashes and of bits. */
  function SerializedSize(hashes: nat, bits: nat): nat {
    var bytes := (bits + 7) / 8;
    4 + CompactSizeLength(hashes) + 32 * hashes + CompactSizeLength(bytes) + bytes
  }

  /** The documented guarantee, 10 + ceil(32.25 N). */
  function DocumentedSize(hashes: nat): nat {
    10 + 32 * hashes + (hashes + 3) / 4
  }

  /** The guarantee on the size of a proof is not kept exactly if there are more than 252 bytes of bits and enough
      levels that are lone; it is never missed by more than two bytes. */
  lemma SizeIff(hash: PairHash, txids: seq<Hash256>, match_: seq<bool>)
    requires |match_| == |txids| && 0 < |txids| <= MAX_BLOCK_BASE_SIZE / 60
    ensures IsNode(|txids|, Height(|txids|), 0)
    ensures
      var h := Height(|txids|);
      var hashes, bits, lone := |Hashes(hash, txids, match_, h, 0)|, |Bits(match_, h, 0)|, LoneLevels(match_, h);
      && (SerializedSize(hashes, bits) > DocumentedSize(hashes) <==>
          2 * hashes + lone >= 2018 && lone >= 2 + 2 * ((4 - hashes % 4) % 4))
      && SerializedSize(hashes, bits) <= DocumentedSize(hashes) + 2
  {
    hide Pow2, Hashes, Bits, LoneLevels, LoneAt, Matched;
    ProofSizes(hash, txids, match_);
    HeightBelow(|txids|);
    SizeArithmetic(|Hashes(hash, txids, match_, Height(|txids|), 0)|, LoneLevels(match_, Height(|txids|)));
  }

  lemma HeightBelow(n: nat)
    requires n <= MAX_BLOCK_BASE_SIZE / 60
    ensures Height(n) <= 15
  {
    hide HeightFrom, Pow;
    var h := Height(n);
    FifteenBits();
    if h > 15 {
      PowMonotone(2, 15, h - 1);
    }
  }

  lemma FifteenBits()
    ensures Pow(2, 15) == 32768
  {
    assert Pow(2, 5) == 32;
    PowAdd(2, 5, 5);
    PowAdd(2, 5, 10);
  }

  lemma SizeArithmetic(hashes: nat, lone: nat)
    requires 0 < hashes <= MAX_BLOCK_BASE_SIZE / 60 && lone <= 15
    ensures
      var bits := 2 * hashes - 1 + lone;
      && (SerializedSize(hashes, bits) > DocumentedSize(hashes) <==>
          2 * hashes + lone >= 2018 && lone >= 2 + 2 * ((4 - hashes % 4) % 4))
      && SerializedSize(hashes, bits) <= DocumentedSize(hashes) + 2
  {
  }

  /** When everything is matched there is a hash for every leaf. */
  lemma {:induction false} AllHashes(hash: PairHash, txids: seq<Hash256>, match_: seq<bool>, h: nat, pos: nat)
    requires |match_| == |txids| && IsNode(|txids|, h, pos) && forall i | 0 <= i < |match_| :: match_[i]
    ensures |Hashes(hash, txids, match_, h, pos)| == End(|txids|, h, pos) - pos * Pow2(h)
  {
    hide Pow2, Node, End, AnyMatch, IsNode;
    NotEmpty(|txids|, h, pos);
    if h > 0 {
      FirstMatches(match_, pos * Pow2(h), End(|txids|, h, pos));
      Children(|txids|, h, pos);
      AllHashes(hash, txids, match_, h - 1, 2 * pos);
      if IsNode(|txids|, h - 1, 2 * pos + 1) {
        AllHashes(hash, txids, match_, h - 1, 2 * pos + 1);
      }
    } else {
      LeafAlone(|txids|, pos);
    }
  }

  lemma LeafAlone(n: nat, pos: nat)
    requires IsNode(n, 0, pos)
    ensures End(n, 0, pos) == pos * Pow2(0) + 1
  {
    Pow2Zero();
  }

  lemma FirstMatches(match_: seq<bool>, lo: nat, hi: nat)
    requires lo < hi <= |match_| && match_[lo]
    ensures AnyMatch(match_, lo, hi)
  {
  }

  /** A block of 1012 transactions that are all matched: 2025 bits make the proof a byte too long. */
  lemma SizeGuaranteeFails(hash: PairHash, txids: seq<Hash256>, match_: seq<bool>)
    requires |match_| == |txids| == 1012 && forall i | 0 <= i < |match_| :: match_[i]
    ensures IsNode(|txids|, Height(|txids|), 0)
    ensures
      var h := Height(|txids|);
      var hashes, bits := |Hashes(hash, txids, match_, h, 0)|, |Bits(match_, h, 0)|;
      SerializedSize(hashes, bits) > DocumentedSize(hashes)
  {
    hide Hashes, Bits, LoneLevels, LoneAt, Matched, Pow2;
    RootIsNode(|txids|);
    var h := Height(|txids|);
    AllHashes(hash, txids, match_, h, 0);
    TwoLoneLevels(match_, h);
    SizeIff(hash, txids, match_);
  }

  lemma TwoLoneLevels(match_: seq<bool>, h: nat)
    requires |match_| == 1012 <= Pow2(h) && forall i | 0 <= i < |match_| :: match_[i]
    ensures LoneLevels(match_, h) >= 2
  {
    hide LoneAt;
    assert Pow2(2) == 4 && Pow2(3) == 8;
    if h < 4 {
      PowMonotone(2, h, 3);
    }
    assert match_[1011];
    assert LoneAt(match_, 2) && LoneAt(match_, 3) by {
      LoneTail(match_, 2);
      LoneTail(match_, 3);
    }
    LevelsGrow(match_, 2, 3);
    LevelsGrow(match_, 4, h);
  }

  lemma LoneTail(match_: seq<bool>, k: nat)
    requires match_ != [] && match_[|match_| - 1] && Width(|match_|, k) % 2 == 1
    ensures LoneAt(match_, k)
  {
    hide Pow2, Width;
    var w := Width(|match_|, k);
    WidthIs(|match_|, k, w - 1);
  }

  lemma {:induction false} LevelsGrow(match_: seq<bool>, g: nat, h: nat)
    requires g <= h
    ensures LoneLevels(match_, g) <= LoneLevels(match_, h)
  {
    hide LoneAt;
    if g < h {
      LevelsGrow(match_, g, h - 1);
    }
  }

  // ---------- The flag bits as bytes ----------

  /** The writing half of `SerializationOp`. */
  method Pack(bits: seq<bool>) returns (bytes: seq<bv8>)
    ensures |bytes| == (|bits| + 7) / 8
    ensures forall p | 0 <= p < 8 * |bytes| :: BitOf(bytes[p / 8], p % 8) <==> p < |bits| && bits[p]
  {
    bytes := seq((|bits| + 7) / 8, _ => 0);
    forall p | 0 <= p < 8 * |bytes|
      ensures !BitOf(bytes[p / 8], p % 8)
    {
      NoBits(p % 8);
    }
    for p := 0 to |bits|
      invariant |bytes| == (|bits| + 7) / 8
      invariant forall q | 0 <= q < 8 * |bytes| :: BitOf(bytes[q / 8], q % 8) <==> q < p && bits[q]
    {
      if bits[p] {
        ghost var before := bytes;
        bytes := bytes[p / 8 := bytes[p / 8] | Mask(p % 8)];
        forall q | 0 <= q < 8 * |bytes|
          ensures BitOf(bytes[q / 8], q % 8) <==> q == p || BitOf(before[q / 8], q % 8)
        {
          SetBit(before[p / 8], p % 8, q % 8);
        }
      }
    }
  }

  /** The reading half: always a multiple of eight bits. */
  method Unpack(bytes: seq<bv8>) returns (bits: seq<bool>)
    ensures |bits| == 8 * |bytes|
    ensures forall p | 0 <= p < |bits| :: bits[p] == BitOf(bytes[p / 8], p % 8)
  {
    bits := [];
    for p := 0 to 8 * |bytes|
      invariant |bits| == p
      invariant forall q | 0 <= q < p :: bits[q] == BitOf(bytes[q / 8], q % 8)
    {
      bits := bits + [bytes[p / 8] & Mask(p % 8) != 0];
    }
  }

  /** A proof, padded to whole bytes, is accepted and gives back the root and exactly the matched ids in order. */
  lemma Complete(hash: PairHash, txids: seq<Hash256>, match_: seq<bool>, bits: seq<bool>)
    requires Injective(hash) && Distinct(txids) && |match_| == |txids| && 0 < |txids| <= MAX_BLOCK_BASE_SIZE / 60
    requires IsNode(|txids|, Height(|txids|), 0) && Bits(match_, Height(|txids|), 0) <= bits
    requires (|bits| + 7) / 8 == (|Bits(match_, Height(|txids|), 0)| + 7) / 8
    ensures forall i | 0 <= i < |Matched(match_, 0, |txids|)| :: Matched(match_, 0, |txids|)[i] < |txids|
    ensures ExtractAll(hash, |txids|, bits, Hashes(hash, txids, match_, Height(|txids|), 0), false) ==
            (Root(hash, txids), IdsAt(txids, Matched(match_, 0, |txids|)), Matched(match_, 0, |txids|))
  {
    hide Injective, Distinct, Bits, Hashes, Extract, Node, Lone, Matched;
    var n := |txids|;
    var h := Height(n);
    RootIsNode(n);
    ProofSizes(hash, txids, match_);
    MatchedBelow(match_, 0, n);
    var hashes := Hashes(hash, txids, match_, h, 0);
    assert bits[0..] == bits && hashes[0..] == hashes;
    NodeComplete(hash, txids, match_, h, 0, bits, hashes, 0, 0);
    ExpectedCursors(hash, txids, match_, h, 0, 0, 0);
  }

  // ---------- One step of the recursions ----------

  lemma BuildStep(hash: PairHash, txids: seq<Hash256>, match_: seq<bool>, h: nat, pos: nat)
    requires |match_| == |txids| && IsNode(|txids|, h, pos)
    ensures
      if h == 0 || !AnyMatch(match_, pos * Pow2(h), End(|txids|, h, pos)) then
        && Bits(match_, h, pos) == [AnyMatch(match_, pos * Pow2(h), End(|txids|, h, pos))]
        && Hashes(hash, txids, match_, h, pos) == [Node(hash, txids, h, pos)]
      else
        && IsNode(|txids|, h - 1, 2 * pos)
        && if IsNode(|txids|, h - 1, 2 * pos + 1) then
             && Bits(match_, h, pos) == [true] + Bits(match_, h - 1, 2 * pos) + Bits(match_, h - 1, 2 * pos + 1)
             && Hashes(hash, txids, match_, h, pos) ==
                Hashes(hash, txids, match_, h - 1, 2 * pos) + Hashes(hash, txids, match_, h - 1, 2 * pos + 1)
           else
             && Bits(match_, h, pos) == [true] + Bits(match_, h - 1, 2 * pos)
             && Hashes(hash, txids, match_, h, pos) == Hashes(hash, txids, match_, h - 1, 2 * pos)
  {
    hide Pow2, AnyMatch, Node, IsNode, End;
    if h > 0 {
      Children(|txids|, h, pos);
    }
  }

  lemma DescendStep(hash: PairHash, n: nat, bits: seq<bool>, hashes: seq<Hash256>, h: nat, pos: nat, b: nat, k: nat)
    requires h > 0 && b < |bits| && bits[b]
    ensures
      var e := Extract(hash, n, bits, hashes, h, pos, b, k);
      var l := Extract(hash, n, bits, hashes, h - 1, 2 * pos, b + 1, k);
      if 2 * pos + 1 < Width(n, h - 1) then
        var r := Extract(hash, n, bits, hashes, h - 1, 2 * pos + 1, l.bits, l.hashes);
        e == Extracted(hash(l.hash, r.hash), r.bits, r.hashes, l.bad || r.bad || r.hash == l.hash,
                       l.matches + r.matches, l.index + r.index)
      else
        e == l.(hash := hash(l.hash, l.hash))
  {
  }

  /** Appending piece by piece or at once. */
  lemma Regroup<T>(a: seq<T>, b: seq<T>, c: seq<T>)
    ensures (a + b) + c == a + (b + c)
  {
  }
}
