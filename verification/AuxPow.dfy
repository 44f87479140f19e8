/** The check of merge-mined work (`CAuxPow::check`). */
module AuxPow {
  import opened Basics
  import opened Positional

  type Byte = b: nat | b < 256

  /** A 256-bit hash, as the bytes in the order in which they are displayed. */
  type Hash = h: seq<Byte> | |h| == 32 witness seq(32, _ => 0)

  type PairHash = (Hash, Hash) -> Hash

  const MERGED_MINING_HEADER: seq<Byte> := [0xfa, 0xbe, 0x6d, 0x6d]

  /** The fields of an aux proof that the check looks at. */
  datatype Proof = Proof(
    script: seq<Byte>, txHash: Hash, merkleBranch: seq<Hash>, index: int,
    chainMerkleBranch: seq<Hash>, chainIndex: int, parentChainId: int, parentRoot: Hash)

  // ---------- Searching ----------

  predicate At(s: seq<Byte>, pattern: seq<Byte>, i: nat) {
    i + |pattern| <= |s| && s[i..i + |pattern|] == pattern
  }

  /** The first occurrence from position i on, or the end. */
  function Find(s: seq<Byte>, pattern: seq<Byte>, i: nat): (r: nat)
    requires i <= |s|
    ensures i <= r <= |s| && (r < |s| ==> At(s, pattern, r))
    ensures forall j | i <= j < r :: !At(s, pattern, j)
    decreases |s| - i
  {
    if i == |s| || At(s, pattern, i) then i else Find(s, pattern, i + 1)
  }

  method Search(s: seq<Byte>, pattern: seq<Byte>, from: nat) returns (r: nat)
    requires from <= |s|
    ensures r == Find(s, pattern, from)
  {
    r := from;
    while r < |s| && !At(s, pattern, r)
      invariant from <= r <= |s|
      invariant Find(s, pattern, from) == Find(s, pattern, r)
    {
      r := r + 1;
    }
  }

  // ---------- The merkle branch ----------

  const ZERO: Hash := [0, 0, 0, 0, 0, 0, 0, 0, 0, 0, 0, 0, 0, 0, 0, 0, 0, 0, 0, 0, 0, 0, 0, 0, 0, 0, 0, 0, 0, 0, 0, 0]

  function Climb(hash: PairHash, leaf: Hash, branch: seq<Hash>, index: int): Hash
    decreases |branch|
  {
    if branch == [] then leaf else
      Climb(hash, if index % 2 == 1 then hash(branch[0], leaf) else hash(leaf, branch[0]), branch[1..], index / 2)
  }

  function BranchRoot(hash: PairHash, leaf: Hash, branch: seq<Hash>, index: int): Hash {
    if index == -1 then ZERO else Climb(hash, leaf, branch, index)
  }

  method CheckMerkleBranch(hash: PairHash, leaf: Hash, vMerkleBranch: seq<Hash>, index: int) returns (r: Hash)
    ensures r == BranchRoot(hash, leaf, vMerkleBranch, index)
  {
    if index == -1 {
      return ZERO;
    }
    var nIndex := index;
    r := leaf;
    for i := 0 to |vMerkleBranch|
      invariant Climb(hash, r, vMerkleBranch[i..], nIndex) == Climb(hash, leaf, vMerkleBranch, index)
    {
      assert vMerkleBranch[i..][1..] == vMerkleBranch[i + 1..];
      if nIndex % 2 == 1 {
        r := hash(vMerkleBranch[i], r);
      } else {
        r := hash(r, vMerkleBranch[i]);
      }
      nIndex := nIndex / 2;
    }
  }

  datatype Pair = Pair(left: Hash, right: Hash)

  function Step(leaf: Hash, sibling: Hash, index: int): Pair {
    if index % 2 == 1 then Pair(sibling, leaf) else Pair(leaf, sibling)
  }

  /** The pairs that are hashed on the way up. */
  function Steps(hash: PairHash, leaf: Hash, branch: seq<Hash>, index: int): seq<Pair>
    decreases |branch|
  {
    if branch == [] then [] else
      var pair := Step(leaf, branch[0], index);
      [pair] + Steps(hash, hash(pair.left, pair.right), branch[1..], index / 2)
  }

  /** No two different pairs of these have the same hash: all that is assumed of the hash function. */
  ghost predicate CollisionFree(hash: PairHash, s: seq<Pair>, t: seq<Pair>) {
    forall i, j | 0 <= i < |s| && 0 <= j < |t| && hash(s[i].left, s[i].right) == hash(t[j].left, t[j].right) ::
          s[i] == t[j]
  }

  /** From one root, along branches of one length and one index, there is one way down. */
  lemma {:induction false} ClimbInjective(hash: PairHash, x: Hash, y: Hash, a: seq<Hash>, b: seq<Hash>, index: int)
    requires |a| == |b| && Climb(hash, x, a, index) == Climb(hash, y, b, index)
    requires CollisionFree(hash, Steps(hash, x, a, index), Steps(hash, y, b, index))
    ensures x == y && a == b
    decreases |a|
  {
    if a != [] {
      var p, q := Step(x, a[0], index), Step(y, b[0], index);
      var x', y' := hash(p.left, p.right), hash(q.left, q.right);
      var s, t := Steps(hash, x, a, index), Steps(hash, y, b, index);
      assert s[0] == p && t[0] == q;
      assert s[1..] == Steps(hash, x', a[1..], index / 2) && t[1..] == Steps(hash, y', b[1..], index / 2);
      forall i, j | 0 <= i < |s| - 1 && 0 <= j < |t| - 1
        ensures s[1..][i] == s[i + 1] && t[1..][j] == t[j + 1]
      {
      }
      ClimbInjective(hash, x', y', a[1..], b[1..], index / 2);
      assert a == [a[0]] + a[1..] && b == [b[0]] + b[1..];
    }
  }

  // ---------- The expected index ----------

  /** The slot of a chain, with the wrap-around of the 32-bit computation. */
  function ExpectedIndex(nonce: nat, chainId: int, h: nat): (r: nat)
    ensures r < Pow2(h)
  {
    ((((nonce * 1103515245 + 12345) % TWO_32 + chainId) % TWO_32 * 1103515245 + 12345) % TWO_32) % Pow2(h)
  }

  method GetExpectedIndex(nNonce: nat, nChainId: int, h: nat) returns (r: nat)
    ensures r == ExpectedIndex(nNonce, nChainId, h) && r < Pow2(h)
  {
    var rand := nNonce;
    rand := (rand * 1103515245 + 12345) % TWO_32;
    rand := (rand + nChainId) % TWO_32;
    rand := (rand * 1103515245 + 12345) % TWO_32;
    r := rand % Pow2(h);
  }

  // ---------- The check ----------

  function Le32(s: seq<Byte>, i: nat): nat
    requires i + 4 <= |s|
  {
    s[i] as nat + 0x100 * (s[i + 1] as nat) + 0x1_0000 * (s[i + 2] as nat) + 0x100_0000 * (s[i + 3] as nat)
  }

  /** The root of the chain tree stands at an allowed place. */
  predicate RootPlaced(script: seq<Byte>, root: Hash) {
    var head := Find(script, MERGED_MINING_HEADER, 0);
    var pc := Find(script, root, 0);
    && pc < |script|
    && if head < |script| then Find(script, MERGED_MINING_HEADER, head + 1) == |script| && head + 4 == pc else pc <= 20
  }

  /** What follows the root: the size of the chain tree and a nonce, which must give the branch and the index. */
  predicate SlotRight(script: seq<Byte>, pc: nat, branch: seq<Hash>, index: int, chainId: int) {
    && pc + 8 <= |script|
    && Le32(script, pc) == Pow2(|branch|)
    && index == ExpectedIndex(Le32(script, pc + 4), chainId, |branch|)
  }

  function ChainRoot(hash: PairHash, p: Proof, auxHash: Hash): Hash {
    BranchRoot(hash, auxHash, p.chainMerkleBranch, p.chainIndex)
  }

  predicate Checks(hash: PairHash, p: Proof, auxHash: Hash, chainId: int, strict: bool) {
    && p.index == 0
    && !(strict && p.parentChainId == chainId)
    && |p.chainMerkleBranch| <= 30
    && BranchRoot(hash, p.txHash, p.merkleBranch, p.index) == p.parentRoot
    && RootPlaced(p.script, ChainRoot(hash, p, auxHash))
    && SlotRight(p.script, Find(p.script, ChainRoot(hash, p, auxHash), 0) + 32, p.chainMerkleBranch, p.chainIndex,
                 chainId)
  }

  method Check(hash: PairHash, p: Proof, hashAuxBlock: Hash, nChainId: int, fStrictChainId: bool) returns (ok: bool)
    ensures ok <==> Checks(hash, p, hashAuxBlock, nChainId, fStrictChainId)
  {
    hide Find, BranchRoot, Le32, ExpectedIndex, Pow2;
    if p.index != 0 {
      return false;
    }
    if fStrictChainId && p.parentChainId == nChainId {
      return false;
    }
    if |p.chainMerkleBranch| > 30 {
      return false;
    }
    var rootHash := CheckMerkleBranch(hash, hashAuxBlock, p.chainMerkleBranch, p.chainIndex);
    var parentRoot := CheckMerkleBranch(hash, p.txHash, p.merkleBranch, p.index);
    if parentRoot != p.parentRoot {
      return false;
    }
    var script := p.script;
    var pcHead := Search(script, MERGED_MINING_HEADER, 0);
    var pc := Search(script, rootHash, 0);
    if pc == |script| {
      return false;
    }
    if pcHead != |script| {
      var again := Search(script, MERGED_MINING_HEADER, pcHead + 1);
      if again != |script| {
        return false;
      }
      if pcHead + |MERGED_MINING_HEADER| != pc {
        return false;
      }
    } else {
      if pc > 20 {
        return false;
      }
    }
    pc := pc + |rootHash|;
    if |script| - pc < 8 {
      return false;
    }
    var nSize := Le32(script, pc);
    var merkleHeight := |p.chainMerkleBranch|;
    if nSize != Pow2(merkleHeight) {
      return false;
    }
    var nNonce := Le32(script, pc + 4);
    var expected := GetExpectedIndex(nNonce, nChainId, merkleHeight);
    if p.chainIndex != expected {
      return false;
    }
    ok := true;
  }

  // ---------- Uniqueness ----------

  lemma {:induction false} Pow2Injective(a: nat, b: nat)
    requires Pow2(a) == Pow2(b)
    ensures a == b
  {
    if a > 0 && b > 0 {
      Pow2Injective(a - 1, b - 1);
    }
  }

  ghost predicate NoCollision(hash: PairHash, p: Proof, q: Proof, x: Hash, y: Hash) {
    CollisionFree(hash, Steps(hash, x, p.chainMerkleBranch, p.chainIndex),
                  Steps(hash, y, q.chainMerkleBranch, q.chainIndex))
  }

  /** Two proofs from one coinbase whose roots are found at the same place are for the same block. */
  lemma UniqueAtPlace(hash: PairHash, p: Proof, q: Proof, x: Hash, y: Hash, chainId: int, strict: bool)
    requires p.script == q.script && NoCollision(hash, p, q, x, y)
    requires Checks(hash, p, x, chainId, strict) && Checks(hash, q, y, chainId, strict)
    requires Find(p.script, ChainRoot(hash, p, x), 0) == Find(q.script, ChainRoot(hash, q, y), 0)
    ensures x == y && p.chainMerkleBranch == q.chainMerkleBranch && p.chainIndex == q.chainIndex
  {
    hide CollisionFree, ExpectedIndex, Climb, Steps;
    Pow2Injective(|p.chainMerkleBranch|, |q.chainMerkleBranch|);
    assert p.chainIndex == q.chainIndex >= 0;
    ClimbInjective(hash, x, y, p.chainMerkleBranch, q.chainMerkleBranch, p.chainIndex);
  }

  /** One coinbase with the merged-mining header serves at most one block per chain id, whatever branches and indices
      come with it. */
  lemma Unique(hash: PairHash, p: Proof, q: Proof, x: Hash, y: Hash, chainId: int, strict: bool)
    requires p.script == q.script && NoCollision(hash, p, q, x, y)
    requires exists i: nat :: At(p.script, MERGED_MINING_HEADER, i)
    requires Checks(hash, p, x, chainId, strict) && Checks(hash, q, y, chainId, strict)
    ensures x == y && p.chainMerkleBranch == q.chainMerkleBranch && p.chainIndex == q.chainIndex
  {
    hide BranchRoot, SlotRight, NoCollision;
    var i: nat :| At(p.script, MERGED_MINING_HEADER, i);
    assert Find(p.script, MERGED_MINING_HEADER, 0) < |p.script|;
    UniqueAtPlace(hash, p, q, x, y, chainId, strict);
  }

  // ---------- Exactly when ----------

  predicate HasHeader(s: seq<Byte>) {
    Find(s, MERGED_MINING_HEADER, 0) < |s|
  }

  /** A place in a script without the header where a root can stand: early, for the first time, with the size of a tree
      behind it. */
  predicate Usable(s: seq<Byte>, p: nat) {
    && p <= 20 && p + 40 <= |s| && Find(s, s[p..p + 32], 0) == p
    && exists h :: 0 <= h <= 30 && Le32(s, p + 32) == Pow2(h)
  }

  predicate OnePlace(s: seq<Byte>) {
    forall p: nat, q: nat | p <= 20 && q <= 20 && Usable(s, p) && Usable(s, q) :: p == q
  }

  /** Two blocks pass with one coinbase script, without a collision of the hash function. */
  ghost predicate Clash(s: seq<Byte>, hash: PairHash, p: Proof, q: Proof, x: Hash, y: Hash, chainId: int,
                        strict: bool) {
    && p.script == q.script == s && x != y && NoCollision(hash, p, q, x, y)
    && Checks(hash, p, x, chainId, strict) && Checks(hash, q, y, chainId, strict)
  }

  ghost predicate ServesOne(s: seq<Byte>) {
    forall hash: PairHash, p: Proof, q: Proof, x: Hash, y: Hash, chainId: int, strict: bool ::
      !Clash(s, hash, p, q, x, y, chainId, strict)
  }

  /** Without the header, a root that passes stands at a usable place. */
  lemma PassesAtUsable(hash: PairHash, p: Proof, x: Hash, chainId: int, strict: bool)
    requires !HasHeader(p.script) && Checks(hash, p, x, chainId, strict)
    ensures Find(p.script, ChainRoot(hash, p, x), 0) <= 20 && Usable(p.script, Find(p.script, ChainRoot(hash, p, x), 0))
  {
    hide BranchRoot, ExpectedIndex, Pow2;
    var s, root := p.script, ChainRoot(hash, p, x);
    var i := Find(s, root, 0);
    assert At(s, root, i) && s[i..i + 32] == root;
    assert Le32(s, i + 32) == Pow2(|p.chainMerkleBranch|);
  }

  /** A hash function for which one leaf is its own root. */
  function LeftOf(a: Hash, b: Hash): Hash {
    a
  }

  function Copies(r: Hash, n: nat): (c: seq<Hash>)
    ensures |c| == n && forall i | 0 <= i < n :: c[i] == r
  {
    if n == 0 then [] else [r] + Copies(r, n - 1)
  }

  lemma {:induction false} ClimbCopies(r: Hash, n: nat, index: int)
    ensures Climb(LeftOf, r, Copies(r, n), index) == r
    ensures forall i | 0 <= i < |Steps(LeftOf, r, Copies(r, n), index)| ::
              Steps(LeftOf, r, Copies(r, n), index)[i] == Pair(r, r)
    decreases n
  {
    if n > 0 {
      ClimbCopies(r, n - 1, index / 2);
      assert Copies(r, n)[1..] == Copies(r, n - 1);
    }
  }

  /** The root at a usable place passes as its own block. */
  lemma UsablePasses(s: seq<Byte>, i: nat, txHash: Hash, chainId: int) returns (p: Proof, x: Hash)
    requires !HasHeader(s) && Usable(s, i)
    ensures x == s[i..i + 32] && p.script == s && Checks(LeftOf, p, x, chainId, true)
    ensures forall k | 0 <= k < |Steps(LeftOf, x, p.chainMerkleBranch, p.chainIndex)| ::
              Steps(LeftOf, x, p.chainMerkleBranch, p.chainIndex)[k] == Pair(x, x)
  {
    x := s[i..i + 32];
    var h: nat :| h <= 30 && Le32(s, i + 32) == Pow2(h);
    var index := ExpectedIndex(Le32(s, i + 36), chainId, h);
    p := Proof(s, txHash, [], 0, Copies(x, h), index, chainId + 1, txHash);
    ClimbCopies(x, h, index);
    hide ExpectedIndex, Pow2, Copies;
    assert ChainRoot(LeftOf, p, x) == x;
  }

  /** One coinbase script serves at most one block per chain id, for every hash function without a collision, if and
      only if it has the header or at most one usable place. */
  lemma UniqueIff(s: seq<Byte>)
    ensures ServesOne(s) <==> HasHeader(s) || OnePlace(s)
  {
    forall hash: PairHash, p: Proof, q: Proof, x: Hash, y: Hash, chainId: int, strict: bool
      ensures Clash(s, hash, p, q, x, y, chainId, strict) ==> !HasHeader(s) && !OnePlace(s)
    {
      if Clash(s, hash, p, q, x, y, chainId, strict) {
        ClashMeans(s, hash, p, q, x, y, chainId, strict);
      }
    }
    if !HasHeader(s) && !OnePlace(s) {
      var i: nat, j: nat :| i <= 20 && j <= 20 && Usable(s, i) && Usable(s, j) && i != j;
      TwoPlacesClash(s, i, j);
    }
  }

  lemma ClashMeans(s: seq<Byte>, hash: PairHash, p: Proof, q: Proof, x: Hash, y: Hash, chainId: int, strict: bool)
    requires Clash(s, hash, p, q, x, y, chainId, strict)
    ensures !HasHeader(s) && !OnePlace(s)
  {
    hide NoCollision, BranchRoot, SlotRight, Usable;
    if HasHeader(s) {
      assert At(s, MERGED_MINING_HEADER, Find(s, MERGED_MINING_HEADER, 0));
      Unique(hash, p, q, x, y, chainId, strict);
      assert false;
    }
    PassesAtUsable(hash, p, x, chainId, strict);
    PassesAtUsable(hash, q, y, chainId, strict);
    if Find(s, ChainRoot(hash, p, x), 0) == Find(s, ChainRoot(hash, q, y), 0) {
      UniqueAtPlace(hash, p, q, x, y, chainId, strict);
      assert false;
    }
  }

  lemma TwoPlacesClash(s: seq<Byte>, i: nat, j: nat)
    requires !HasHeader(s) && Usable(s, i) && Usable(s, j) && i != j
    ensures !ServesOne(s)
  {
    hide Checks, HasHeader;
    var p, x := UsablePasses(s, i, ZERO, 0);
    var q, y := UsablePasses(s, j, ZERO, 0);
    hide Usable, Steps;
    assert x != y;
    assert NoCollision(LeftOf, p, q, x, y);
    assert Clash(s, LeftOf, p, q, x, y, 0, true);
  }

  // ---------- Without the header ----------

  /** A coinbase without the header that holds two roots: the second begins eight bytes into the first and takes in the
      size and nonce behind it. */
  const TWO_ROOTS: seq<Byte> :=
    [7, 7, 7, 7, 7, 7, 7, 7] +
    [0, 0, 0, 0, 0, 0, 0, 0, 0, 0, 0, 0, 0, 0, 0, 0, 0, 0, 0, 0, 0, 0, 0, 0] +
    [1, 0, 0, 0, 0, 0, 0, 0] +
    [1, 0, 0, 0, 0, 0, 0, 0]

  lemma FindIs(s: seq<Byte>, pattern: seq<Byte>, i: nat)
    requires i < |s| && At(s, pattern, i) && forall j | 0 <= j < i :: !At(s, pattern, j)
    ensures Find(s, pattern, 0) == i
  {
  }

  lemma AtHead(s: seq<Byte>, pattern: seq<Byte>, i: nat)
    requires At(s, pattern, i) && |pattern| > 0
    ensures s[i] == pattern[0]
  {
    assert s[i] == s[i..i + |pattern|][0];
  }

  lemma NotFound(s: seq<Byte>, pattern: seq<Byte>)
    requires |pattern| > 0 && pattern[0] !in s
    ensures Find(s, pattern, 0) == |s|
  {
    var r := Find(s, pattern, 0);
    if r < |s| {
      AtHead(s, pattern, r);
    }
  }

  /** A proof without branches passes for a root at offset i that is followed by the size 1. */
  lemma PlainPasses(hash: PairHash, script: seq<Byte>, txHash: Hash, root: Hash, i: nat, chainId: int)
    requires Find(script, MERGED_MINING_HEADER, 0) == |script| && Find(script, root, 0) == i <= 20
    requires i + 40 <= |script| && Le32(script, i + 32) == 1
    ensures Checks(hash, Proof(script, txHash, [], 0, [], 0, chainId + 1, txHash), root, chainId, true)
  {
    assert Pow2(0) == 1 && ExpectedIndex(Le32(script, i + 36), chainId, 0) < 1;
  }

  /** Any script of this shape serves two blocks. */
  lemma TwoRootsPass(hash: PairHash, s: seq<Byte>, txHash: Hash, chainId: int)
    requires |s| == 48 && 0xfa !in s && s[8] == 0 && forall j | 0 <= j < 8 :: s[j] == 7
    requires Le32(s, 32) == 1 && Le32(s, 40) == 1
    ensures
      var x: Hash, y: Hash := s[..32], s[8..40];
      var p := Proof(s, txHash, [], 0, [], 0, chainId + 1, txHash);
      x != y && Checks(hash, p, x, chainId, true) && Checks(hash, p, y, chainId, true)
  {
    hide Checks, Le32;
    var x: Hash, y: Hash := s[..32], s[8..40];
    NotFound(s, MERGED_MINING_HEADER);
    assert s[0..32] == x;
    FindIs(s, x, 0);
    PlainPasses(hash, s, txHash, x, 0, chainId);
    assert x[0] == 7 && y[0] == 0;
    forall j | 0 <= j < 8
      ensures At(s, y, j) ==> s[j] == 0
    {
      if At(s, y, j) {
        AtHead(s, y, j);
      }
    }
    FindIs(s, y, 8);
    PlainPasses(hash, s, txHash, y, 8, chainId);
  }

  /** Without the header the check lets one coinbase serve two blocks of one chain. */
  lemma TwiceWithoutHeader(hash: PairHash, txHash: Hash, chainId: int)
    ensures
      var x: Hash, y: Hash := TWO_ROOTS[..32], TWO_ROOTS[8..40];
      var p := Proof(TWO_ROOTS, txHash, [], 0, [], 0, chainId + 1, txHash);
      x != y && Checks(hash, p, x, chainId, true) && Checks(hash, p, y, chainId, true)
  {
    hide Checks;
    TwoRootsPass(hash, TWO_ROOTS, txHash, chainId);
  }

  // ---------- The proof that `initAuxPow` makes ----------

  /** The script pushes the forty bytes of root, size 1 and nonce 0. */
  function InitScript(auxHash: Hash): seq<Byte> {
    [40] + auxHash + [1, 0, 0, 0, 0, 0, 0, 0]
  }

  function Init(auxHash: Hash, txHash: Hash): Proof {
    Proof(InitScript(auxHash), txHash, [], 0, [], 0, 0, txHash)
  }

  /** The root could also begin at the push opcode, if all its bytes equal that. */
  lemma {:induction false} AtOpcode(auxHash: Hash, k: nat)
    requires At(InitScript(auxHash), auxHash, 0) && k < 32
    ensures auxHash[k] == 40
  {
    var s := InitScript(auxHash);
    assert s[0..32][k] == auxHash[k];
    if k > 0 {
      AtOpcode(auxHash, k - 1);
      assert s[k] == auxHash[k - 1];
    }
  }

  lemma AllOpcodes(auxHash: Hash)
    requires forall k | 0 <= k < 32 :: auxHash[k] == 40
    ensures At(InitScript(auxHash), auxHash, 0)
  {
    var s := InitScript(auxHash);
    forall k | 0 <= k < 32
      ensures s[0..32][k] == auxHash[k]
    {
      assert s[k] == if k == 0 then 40 else auxHash[k - 1];
    }
  }

  lemma InitFind(auxHash: Hash)
    ensures Find(InitScript(auxHash), auxHash, 0) == if forall k | 0 <= k < 32 :: auxHash[k] == 40 then 0 else 1
  {
    var s := InitScript(auxHash);
    assert s[1..33] == auxHash;
    if forall k | 0 <= k < 32 :: auxHash[k] == 40 {
      AllOpcodes(auxHash);
      FindIs(s, auxHash, 0);
    } else {
      var k :| 0 <= k < 32 && auxHash[k] != 40;
      if At(s, auxHash, 0) {
        AtOpcode(auxHash, k);
      }
      FindIs(s, auxHash, 1);
    }
  }

  lemma InitBytes(auxHash: Hash)
    ensures
      var s := InitScript(auxHash);
      |s| == 41 && s[32] == auxHash[31] && s[33] == 1 && Le32(s, 33) == 1 && Le32(s, 37) == 0
  {
  }

  /** It passes its own check exactly if the chain id differs from the parent's zero (when that matters), the hash does
      not consist of the push opcode only, and the script does not happen to contain the merged-mining header. */
  lemma InitPasses(hash: PairHash, auxHash: Hash, txHash: Hash, chainId: int, strict: bool)
    ensures Checks(hash, Init(auxHash, txHash), auxHash, chainId, strict) <==>
            && !(strict && chainId == 0)
            && (exists k | 0 <= k < 32 :: auxHash[k] != 40)
            && Find(InitScript(auxHash), MERGED_MINING_HEADER, 0) == 41
  {
    hide ExpectedIndex;
    var s := InitScript(auxHash);
    InitBytes(auxHash);
    InitFind(auxHash);
    assert Pow2(0) == 1 && ExpectedIndex(Le32(s, 37), chainId, 0) < 1;
    if Find(s, MERGED_MINING_HEADER, 0) < |s| {
      NoHeaderBefore(auxHash);
    }
  }

  /** A header inside the script is never right before the root. */
  lemma NoHeaderBefore(auxHash: Hash)
    ensures Find(InitScript(auxHash), MERGED_MINING_HEADER, 0) + 4 != Find(InitScript(auxHash), auxHash, 0)
  {
    InitFind(auxHash);
  }
}
