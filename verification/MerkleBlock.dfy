/** The partial merkle tree object (`CPartialMerkleTree`): encoder, decoder and wire form. */
module MerkleBlock {
  import opened Basics
  import opened MerkleTree
  import opened Bytes
  import opened Positional

  /** The serialised object. */
  datatype Message = Message(nTransactions: nat, vHash: seq<Hash256>, vBytes: seq<bv8>)

  class PartialMerkleTree {
    const hash: PairHash
    var nTransactions: nat
    var vBits: seq<bool>
    var vHash: seq<Hash256>
    var fBad: bool

    /** The object without a tree, to be read into. */
    constructor Empty(hash: PairHash)
      ensures this.hash == hash && nTransactions == 0 && vBits == [] && vHash == [] && fBad
    {
      this.hash := hash;
      nTransactions, vBits, vHash, fBad := 0, [], [], true;
    }

    constructor (hash: PairHash, vTxid: seq<Hash256>, vMatch: seq<bool>)
      requires |vMatch| == |vTxid| > 0
      ensures this.hash == hash && nTransactions == |vTxid| && !fBad
      ensures IsNode(|vTxid|, Height(|vTxid|), 0)
      ensures vBits == Bits(vMatch, Height(|vTxid|), 0) && vHash == Hashes(hash, vTxid, vMatch, Height(|vTxid|), 0)
    {
      this.hash := hash;
      nTransactions, vBits, vHash, fBad := |vTxid|, [], [], false;
      new;
      var nHeight := CalcHeight();
      RootIsNode(|vTxid|);
      TraverseAndBuild(nHeight, 0, vTxid, vMatch);
    }

    function CalcTreeWidth(height: nat): nat
      reads this`nTransactions
    {
      Width(nTransactions, height)
    }

    method CalcHeight() returns (nHeight: nat)
      ensures nHeight == Height(nTransactions)
    {
      nHeight := 0;
      WidthIs(nTransactions, 0, 1);
      while CalcTreeWidth(nHeight) > 1
        invariant nHeight > 0 ==> Pow2(nHeight - 1) < nTransactions
        invariant HeightFrom(nTransactions, nHeight) == Height(nTransactions)
        invariant CalcTreeWidth(nHeight) > 1 <==> Pow2(nHeight) < nTransactions
        decreases nTransactions - Pow2(nHeight)
      {
        nHeight := nHeight + 1;
        WidthIs(nTransactions, nHeight, 1);
      }
    }

    method CalcHash(height: nat, pos: nat, vTxid: seq<Hash256>) returns (r: Hash256)
      requires |vTxid| == nTransactions && IsNode(|vTxid|, height, pos)
      ensures r == Node(hash, vTxid, height, pos)
      decreases height
    {
      if height == 0 {
        return vTxid[pos];
      }
      Children(nTransactions, height, pos);
      WidthIs(nTransactions, height - 1, 2 * pos + 1);
      var left := CalcHash(height - 1, pos * 2, vTxid);
      var right := left;
      if pos * 2 + 1 < CalcTreeWidth(height - 1) {
        right := CalcHash(height - 1, pos * 2 + 1, vTxid);
      }
      r := hash(left, right);
    }

    method TraverseAndBuild(height: nat, pos: nat, vTxid: seq<Hash256>, vMatch: seq<bool>)
      requires |vTxid| == |vMatch| == nTransactions && IsNode(nTransactions, height, pos)
      modifies this`vBits, this`vHash
      ensures vBits == old(vBits) + Bits(vMatch, height, pos)
      ensures vHash == old(vHash) + Hashes(hash, vTxid, vMatch, height, pos)
      decreases height
    {
      hide Pow2, AnyMatch, Node, Bits, Hashes, End, IsNode, Width;
      BuildStep(hash, vTxid, vMatch, height, pos);
      var fParentOfMatch := ParentOfMatch(height, pos, vMatch);
      vBits := vBits + [fParentOfMatch];
      if height == 0 || !fParentOfMatch {
        var node := CalcHash(height, pos, vTxid);
        vHash := vHash + [node];
      } else {
        WidthIs(nTransactions, height - 1, 2 * pos + 1);
        TraverseAndBuild(height - 1, pos * 2, vTxid, vMatch);
        ghost var bits, hashes := Bits(vMatch, height - 1, 2 * pos), Hashes(hash, vTxid, vMatch, height - 1, 2 * pos);
        Regroup(old(vBits), [true], bits);
        if pos * 2 + 1 < CalcTreeWidth(height - 1) {
          TraverseAndBuild(height - 1, pos * 2 + 1, vTxid, vMatch);
          Regroup(old(vBits), [true] + bits, Bits(vMatch, height - 1, 2 * pos + 1));
          Regroup(old(vHash), hashes, Hashes(hash, vTxid, vMatch, height - 1, 2 * pos + 1));
        }
      }
    }

    /** The loop of `TraverseAndBuild` over the leaves below a node. */
    method ParentOfMatch(height: nat, pos: nat, vMatch: seq<bool>) returns (fParentOfMatch: bool)
      requires |vMatch| == nTransactions
      ensures fParentOfMatch == AnyMatch(vMatch, pos * Pow2(height), End(nTransactions, height, pos))
    {
      hide Pow2;
      fParentOfMatch := false;
      var p := pos * Pow2(height);
      while p < (pos + 1) * Pow2(height) && p < nTransactions
        invariant p >= pos * Pow2(height)
        invariant fParentOfMatch <==> exists i :: pos * Pow2(height) <= i < p && i < nTransactions && vMatch[i]
        invariant p <= End(nTransactions, height, pos) || p == pos * Pow2(height)
        decreases nTransactions - p
      {
        if vMatch[p] {
          fParentOfMatch := true;
        }
        p := p + 1;
      }
    }

    method TraverseAndExtract(height: nat, pos: nat, bitsUsed: nat, hashUsed: nat, match_: seq<Hash256>,
                              index: seq<nat>)
      returns (r: Hash256, nBitsUsed: nat, nHashUsed: nat, vMatch: seq<Hash256>, vnIndex: seq<nat>)
      modifies this`fBad
      ensures
        var e := Extract(hash, nTransactions, vBits, vHash, height, pos, bitsUsed, hashUsed);
        && r == e.hash && nBitsUsed == e.bits && nHashUsed == e.hashes && fBad == (old(fBad) || e.bad)
        && vMatch == match_ + e.matches && vnIndex == index + e.index
      decreases height
    {
      hide Width;
      nBitsUsed, nHashUsed, vMatch, vnIndex := bitsUsed, hashUsed, match_, index;
      if nBitsUsed >= |vBits| {
        fBad := true;
        return 0, nBitsUsed, nHashUsed, vMatch, vnIndex;
      }
      var fParentOfMatch := vBits[nBitsUsed];
      nBitsUsed := nBitsUsed + 1;
      if height == 0 || !fParentOfMatch {
        if nHashUsed >= |vHash| {
          fBad := true;
          return 0, nBitsUsed, nHashUsed, vMatch, vnIndex;
        }
        r := vHash[nHashUsed];
        nHashUsed := nHashUsed + 1;
        if height == 0 && fParentOfMatch {
          vMatch := vMatch + [r];
          vnIndex := vnIndex + [pos];
        }
      } else {
        r, nBitsUsed, nHashUsed, vMatch, vnIndex := ExtractChildren(height, pos, nBitsUsed, nHashUsed, vMatch, vnIndex);
      }
    }

    /** The descending case of `TraverseAndExtract`. */
    method ExtractChildren(height: nat, pos: nat, bitsUsed: nat, hashUsed: nat, match_: seq<Hash256>, index: seq<nat>)
      returns (r: Hash256, nBitsUsed: nat, nHashUsed: nat, vMatch: seq<Hash256>, vnIndex: seq<nat>)
      requires height > 0 && 0 < bitsUsed <= |vBits| && vBits[bitsUsed - 1]
      modifies this`fBad
      ensures
        var e := Extract(hash, nTransactions, vBits, vHash, height, pos, bitsUsed - 1, hashUsed);
        && r == e.hash && nBitsUsed == e.bits && nHashUsed == e.hashes && fBad == (old(fBad) || e.bad)
        && vMatch == match_ + e.matches && vnIndex == index + e.index
      decreases height, 0
    {
      hide Width, Extract;
      DescendStep(hash, nTransactions, vBits, vHash, height, pos, bitsUsed - 1, hashUsed);
      ghost var l := Extract(hash, nTransactions, vBits, vHash, height - 1, 2 * pos, bitsUsed, hashUsed);
      var left, right;
      left, nBitsUsed, nHashUsed, vMatch,
          vnIndex := TraverseAndExtract(height - 1, pos * 2, bitsUsed, hashUsed, match_, index);
      if pos * 2 + 1 < CalcTreeWidth(height - 1) {
        right, nBitsUsed, nHashUsed, vMatch,
            vnIndex := TraverseAndExtract(height - 1, pos * 2 + 1, nBitsUsed, nHashUsed, vMatch, vnIndex);
        ghost var e := Extract(hash, nTransactions, vBits, vHash, height - 1, 2 * pos + 1, l.bits, l.hashes);
        Regroup(match_, l.matches, e.matches);
        Regroup(index, l.index, e.index);
        if right == left {
          fBad := true;
        }
      } else {
        right := left;
      }
      r := hash(left, right);
    }

    /** The index vector is not cleared on entry, so the indices are added to what is in it. */
    method ExtractMatches(index: seq<nat>) returns (root: Hash256, vMatch: seq<Hash256>, vnIndex: seq<nat>)
      modifies this`fBad
      ensures
        var (root', matches, index') := ExtractAll(hash, nTransactions, vBits, vHash, old(fBad));
        root == root' && vMatch == matches && vnIndex == index + index'
    {
      hide Extract;
      vMatch, vnIndex := [], index;
      if nTransactions == 0 {
        return 0, vMatch, vnIndex;
      }
      if nTransactions > MAX_BLOCK_BASE_SIZE / 60 {
        return 0, vMatch, vnIndex;
      }
      if |vHash| > nTransactions {
        return 0, vMatch, vnIndex;
      }
      if |vBits| < |vHash| {
        return 0, vMatch, vnIndex;
      }
      var nHeight := CalcHeight();
      var nBitsUsed, nHashUsed;
      root, nBitsUsed, nHashUsed, vMatch, vnIndex := TraverseAndExtract(nHeight, 0, 0, 0, vMatch, vnIndex);
      if fBad {
        return 0, vMatch, vnIndex;
      }
      if (nBitsUsed + 7) / 8 != (|vBits| + 7) / 8 {
        return 0, vMatch, vnIndex;
      }
      if nHashUsed != |vHash| {
        return 0, vMatch, vnIndex;
      }
    }

    method Serialize() returns (m: Message)
      ensures m.nTransactions == nTransactions && m.vHash == vHash
      ensures |m.vBytes| == (|vBits| + 7) / 8
      ensures forall p | 0 <= p < 8 * |m.vBytes| :: BitOf(m.vBytes[p / 8], p % 8) <==> p < |vBits| && vBits[p]
    {
      var vBytes := Pack(vBits);
      m := Message(nTransactions, vHash, vBytes);
    }

    method Unserialize(m: Message)
      modifies this
      ensures nTransactions == m.nTransactions && vHash == m.vHash && !fBad
      ensures |vBits| == 8 * |m.vBytes|
      ensures forall p | 0 <= p < |vBits| :: vBits[p] == BitOf(m.vBytes[p / 8], p % 8)
    {
      nTransactions, vHash := m.nTransactions, m.vHash;
      vBits := Unpack(m.vBytes);
      fBad := false;
    }
  }

  /** A proof made by one side and checked by the other: the receiver gets the root, and the matched ids and positions
      in order. */
  method SendProof(hash: PairHash, txids: seq<Hash256>, match_: seq<bool>)
    returns (root: Hash256, matches: seq<Hash256>, index: seq<nat>)
    requires Injective(hash) && Distinct(txids) && |match_| == |txids| && 0 < |txids| <= MAX_BLOCK_BASE_SIZE / 60
    ensures root == Root(hash, txids) && index == Matched(match_, 0, |txids|)
    ensures forall i | 0 <= i < |index| :: index[i] < |txids|
    ensures matches == IdsAt(txids, index)
  {
    hide Injective, Distinct, Bits, Hashes, Root, ExtractAll, Height, Matched;
    var sender := new PartialMerkleTree(hash, txids, match_);
    var m := sender.Serialize();
    var receiver := new PartialMerkleTree.Empty(hash);
    receiver.Unserialize(m);
    var bits := sender.vBits;
    forall p | 0 <= p < |bits|
      ensures receiver.vBits[p] == bits[p]
    {
      assert BitOf(m.vBytes[p / 8], p % 8) <==> bits[p];
    }
    assert bits <= receiver.vBits;
    Complete(hash, txids, match_, receiver.vBits);
    root, matches, index := receiver.ExtractMatches([]);
  }

  /** Whatever message arrives: if it gives the root of a list of as many ids, its matches are true. */
  method CheckProof(hash: PairHash, m: Message, ghost txids: seq<Hash256>)
    returns (root: Hash256, matches: seq<Hash256>, index: seq<nat>)
    requires Injective(hash) && |txids| == m.nTransactions
    ensures txids != [] && root == Root(hash, txids) && root != 0 ==> Truthful(txids, matches, index)
  {
    hide Injective, Root, ExtractAll;
    var receiver := new PartialMerkleTree.Empty(hash);
    receiver.Unserialize(m);
    if m.nTransactions > 0 {
      Sound(hash, txids, receiver.vBits, receiver.vHash, false);
    }
    root, matches, index := receiver.ExtractMatches([]);
  }
}
