/**
 The rolling Bloom filter (`CRollingBloomFilter`): every cell is a pair of bits that says in which of three generations
 it was last set.
 */
module RollingBloom {
  import opened Words

  type Key = seq<bv8>

  /** The keyed hash function: number of the hash, tweak and key. */
  type KeyHash = (nat, nat, Key) -> bv32

  // ---------- Cells ----------

  function PairCode(p1: bv64, p2: bv64, k: bv6): (r: nat)
    ensures r <= 3
  {
    (if Bit(p1, k) then 1 else 0) + (if Bit(p2, k) then 2 else 0)
  }

  /** The generation of a cell, or zero. */
  function Code(data: seq<bv64>, w: nat, k: bv6): (r: nat)
    requires 2 * w + 1 < |data|
    ensures r <= 3
  {
    PairCode(data[2 * w], data[2 * w + 1], k)
  }

  /** All bits of a word like bit b (`-(uint64_t)b`). */
  function Spread(b: nat): bv64
    requires b <= 1
  {
    if b == 1 then 0xffff_ffff_ffff_ffff else 0
  }

  function BitValue(b: nat): bv64
    requires b <= 1
  {
    if b == 1 then 1 else 0
  }

  /** Masking a pair of words clears exactly the cells of generation g. */
  lemma WipePair(p1: bv64, p2: bv64, g: nat, k: bv6)
    requires 1 <= g <= 3
    ensures
      var mask := Differ(p1, p2, Spread(g % 2), Spread(g / 2));
      PairCode(And(p1, mask), And(p2, mask), k) == if PairCode(p1, p2, k) == g then 0 else PairCode(p1, p2, k)
  {
    hide Bit, And, Differ;
    var mask := Differ(p1, p2, Spread(g % 2), Spread(g / 2));
    DifferIs(p1, p2, Spread(g % 2), Spread(g / 2), k);
    AndBit(p1, mask, k);
    AndBit(p2, mask, k);
    ConstantBits(k);
  }

  /** Setting one cell to generation g. */
  lemma SetPair(p1: bv64, p2: bv64, g: nat, j: bv6, k: bv6)
    requires 1 <= g <= 3
    ensures PairCode(SetBit(p1, j, BitValue(g % 2)), SetBit(p2, j, BitValue(g / 2)), k) ==
            if k == j then g else PairCode(p1, p2, k)
  {
    hide Bit, SetBit;
    SetBitIs(p1, j, BitValue(g % 2), k);
    SetBitIs(p2, j, BitValue(g / 2), k);
  }

  /** Where hash value h leads: a pair of words and a bit. */
  function WordOf(h: bv32, size: nat): (w: nat)
    requires size > 0 && size % 2 == 0
    ensures 2 * w + 1 < size
  {
    (h >> 6) as nat % size / 2
  }

  function BitOf(h: bv32): bv6 {
    (h & 0x3f) as bv6
  }

  /** How many generations ago, if the current one is g. */
  function Age(g: nat, code: nat): nat
    requires 1 <= g <= 3 && 1 <= code <= 3
  {
    (g + 3 - code) % 3
  }

  /** The cell is set, at most `age` generations ago. */
  predicate CellFresh(data: seq<bv64>, h: bv32, g: nat, age: nat)
    requires |data| > 0 && |data| % 2 == 0 && 1 <= g <= 3
  {
    var code := Code(data, WordOf(h, |data|), BitOf(h));
    code != 0 && Age(g, code) <= age
  }

  ghost predicate Fresh(hash: KeyHash, funcs: nat, tweak: nat, data: seq<bv64>, key: Key, g: nat, age: nat)
    requires |data| > 0 && |data| % 2 == 0 && 1 <= g <= 3
  {
    forall n: nat :: n < funcs ==> CellFresh(data, hash(n, tweak, key), g, age)
  }

  /** The age of the d-th latest key, when the current generation has c keys and the others have e. */
  function AgeOf(d: nat, c: nat, e: nat): nat {
    if d <= c then 0 else if d <= c + e then 1 else 2
  }

  ghost predicate KeyKept(hash: KeyHash, funcs: nat, tweak: nat, data: seq<bv64>, history: seq<Key>, g: nat, c: nat,
                          e: nat, i: int)
    requires |data| > 0 && |data| % 2 == 0 && 1 <= g <= 3
  {
    0 <= i < |history| && |history| - i <= c + 2 * e ==>
      Fresh(hash, funcs, tweak, data, history[i], g, AgeOf(|history| - i, c, e))
  }

  /** The last c + 2e keys are all there. */
  ghost predicate Kept(hash: KeyHash, funcs: nat, tweak: nat, data: seq<bv64>, history: seq<Key>, g: nat, c: nat,
                       e: nat)
    requires |data| > 0 && |data| % 2 == 0 && 1 <= g <= 3
  {
    forall i :: KeyKept(hash, funcs, tweak, data, history, g, c, e, i)
  }

  /** The cells of a key. */
  ghost function Cells(hash: KeyHash, funcs: nat, tweak: nat, size: nat, key: Key): set<(nat, bv6)>
    requires size > 0 && size % 2 == 0
  {
    set n: nat | n < funcs :: (WordOf(hash(n, tweak, key), size), BitOf(hash(n, tweak, key)))
  }

  /** The i-th key has this cell, and was inserted `age` generations ago. */
  ghost predicate SetBy(hash: KeyHash, funcs: nat, tweak: nat, size: nat, history: seq<Key>, c: nat, e: nat, w: nat,
                        k: bv6, age: nat, i: nat)
    requires size > 0 && size % 2 == 0
  {
    && i < |history| && |history| - i <= c + 2 * e && AgeOf(|history| - i, c, e) == age
    && (w, k) in Cells(hash, funcs, tweak, size, history[i])
  }

  /** A cell that is set was set by a key of its generation. */
  ghost predicate Explained(hash: KeyHash, funcs: nat, tweak: nat, data: seq<bv64>, history: seq<Key>, g: nat, c: nat,
                            e: nat, w: nat, k: bv6)
    requires |data| > 0 && |data| % 2 == 0 && 1 <= g <= 3
  {
    2 * w + 1 < |data| && Code(data, w, k) != 0 ==>
      exists i: nat :: SetBy(hash, funcs, tweak, |data|, history, c, e, w, k, Age(g, Code(data, w, k)), i)
  }

  /** Nothing older than the last c + 2e keys is there. */
  ghost predicate AllExplained(hash: KeyHash, funcs: nat, tweak: nat, data: seq<bv64>, history: seq<Key>, g: nat,
                               c: nat, e: nat)
    requires |data| > 0 && |data| % 2 == 0 && 1 <= g <= 3
  {
    forall w: nat, k: bv6 :: Explained(hash, funcs, tweak, data, history, g, c, e, w, k)
  }

  // ---------- A new generation ----------

  function NextGeneration(g: nat): nat {
    if g + 1 == 4 then 1 else g + 1
  }

  /** The cells of generation g are cleared. */
  ghost predicate Wiped(before: seq<bv64>, after: seq<bv64>, g: nat) {
    |before| == |after| && forall w: nat, k: bv6 :: WipedAt(before, after, g, w, k)
  }

  ghost predicate WipedAt(before: seq<bv64>, after: seq<bv64>, g: nat, w: nat, k: bv6)
    requires |before| == |after|
  {
    2 * w + 1 < |before| ==> Code(after, w, k) == if Code(before, w, k) == g then 0 else Code(before, w, k)
  }

  /** Cells that were set at most one generation ago survive, and are one generation older. */
  lemma WipeAges(before: seq<bv64>, after: seq<bv64>, h: bv32, g: nat, age: nat)
    requires |before| > 0 && |before| % 2 == 0 && 1 <= g <= 3 && age <= 1
    requires Wiped(before, after, NextGeneration(g)) && CellFresh(before, h, g, age)
    ensures CellFresh(after, h, NextGeneration(g), age + 1)
  {
    hide Code;
    assert WipedAt(before, after, NextGeneration(g), WordOf(h, |before|), BitOf(h));
  }

  lemma WipeKeeps(hash: KeyHash, funcs: nat, tweak: nat, before: seq<bv64>, after: seq<bv64>, history: seq<Key>, g: nat,
                  e: nat)
    requires |after| == |before| > 0 && |before| % 2 == 0 && 1 <= g <= 3 && Wiped(before, after, NextGeneration(g))
    requires Kept(hash, funcs, tweak, before, history, g, e, e)
    ensures Kept(hash, funcs, tweak, after, history, NextGeneration(g), 0, e)
  {
    hide Wiped, CellFresh;
    var g' := NextGeneration(g);
    forall i
      ensures KeyKept(hash, funcs, tweak, after, history, g', 0, e, i)
    {
      if 0 <= i < |history| && |history| - i <= 2 * e {
        assert KeyKept(hash, funcs, tweak, before, history, g, e, e, i);
        var age := AgeOf(|history| - i, e, e);
        forall n: nat | n < funcs
          ensures CellFresh(after, hash(n, tweak, history[i]), g', age + 1)
        {
          WipeAges(before, after, hash(n, tweak, history[i]), g, age);
        }
      }
    }
  }

  lemma OneOlder(g: nat, code: nat)
    requires 1 <= g <= 3 && 1 <= code <= 3 && code != NextGeneration(g)
    ensures Age(g, code) <= 1 && Age(NextGeneration(g), code) == Age(g, code) + 1
  {
  }

  lemma SetByOlder(hash: KeyHash, funcs: nat, tweak: nat, size: nat, history: seq<Key>, e: nat, w: nat, k: bv6,
                   age: nat, i: nat)
    requires size > 0 && size % 2 == 0 && age <= 1 && SetBy(hash, funcs, tweak, size, history, e, e, w, k, age, i)
    ensures SetBy(hash, funcs, tweak, size, history, 0, e, w, k, age + 1, i)
  {
    hide Cells;
  }

  lemma WipeExplainsAt(hash: KeyHash, funcs: nat, tweak: nat, before: seq<bv64>, after: seq<bv64>, history: seq<Key>,
                       g: nat, e: nat, w: nat, k: bv6)
    requires |after| == |before| > 0 && |before| % 2 == 0 && 1 <= g <= 3
             && WipedAt(before, after, NextGeneration(g), w, k)
    requires Explained(hash, funcs, tweak, before, history, g, e, e, w, k)
    ensures Explained(hash, funcs, tweak, after, history, NextGeneration(g), 0, e, w, k)
  {
    hide Code, SetBy, Age, NextGeneration;
    if 2 * w + 1 < |after| && Code(after, w, k) != 0 {
      OneOlder(g, Code(before, w, k));
      var i: nat :| SetBy(hash, funcs, tweak, |before|, history, e, e, w, k, Age(g, Code(before, w, k)), i);
      SetByOlder(hash, funcs, tweak, |before|, history, e, w, k, Age(g, Code(before, w, k)), i);
    }
  }

  /** What is left is explained by the same keys, one generation later. */
  lemma WipeExplains(hash: KeyHash, funcs: nat, tweak: nat, before: seq<bv64>, after: seq<bv64>, history: seq<Key>,
                     g: nat, e: nat)
    requires |after| == |before| > 0 && |before| % 2 == 0 && 1 <= g <= 3 && Wiped(before, after, NextGeneration(g))
    requires AllExplained(hash, funcs, tweak, before, history, g, e, e)
    ensures AllExplained(hash, funcs, tweak, after, history, NextGeneration(g), 0, e)
  {
    hide Explained, WipedAt;
    var g' := NextGeneration(g);
    forall w: nat, k: bv6
      ensures Explained(hash, funcs, tweak, after, history, g', 0, e, w, k)
    {
      WipeExplainsAt(hash, funcs, tweak, before, after, history, g, e, w, k);
    }
  }

  // ---------- Setting cells ----------

  /** Every cell is as before, or is one of those given and has the current generation. */
  ghost predicate OnlyRenewed(before: seq<bv64>, after: seq<bv64>, g: nat, cells: set<(nat, bv6)>) {
    |before| == |after| && forall w: nat, k: bv6 :: RenewedAt(before, after, g, cells, w, k)
  }

  ghost predicate RenewedAt(before: seq<bv64>, after: seq<bv64>, g: nat, cells: set<(nat, bv6)>, w: nat, k: bv6)
    requires |before| == |after|
  {
    2 * w + 1 < |before| ==> Code(after, w, k) == Code(before, w, k) || (Code(after, w, k) == g && (w, k) in cells)
  }

  lemma SetByEarlier(hash: KeyHash, funcs: nat, tweak: nat, size: nat, history: seq<Key>, key: Key, c: nat, e: nat,
                     w: nat, k: bv6, age: nat, i: nat)
    requires size > 0 && size % 2 == 0 && SetBy(hash, funcs, tweak, size, history, c, e, w, k, age, i)
    ensures SetBy(hash, funcs, tweak, size, history + [key], c + 1, e, w, k, age, i)
  {
    hide Cells;
  }

  lemma SetByLast(hash: KeyHash, funcs: nat, tweak: nat, size: nat, history: seq<Key>, key: Key, c: nat, e: nat, w: nat,
                  k: bv6, g: nat)
    requires size > 0 && size % 2 == 0 && (w, k) in Cells(hash, funcs, tweak, size, key) && 1 <= g <= 3
    ensures SetBy(hash, funcs, tweak, size, history + [key], c + 1, e, w, k, Age(g, g), |history|)
  {
    hide Cells;
  }

  lemma InsertExplainsAt(hash: KeyHash, funcs: nat, tweak: nat, before: seq<bv64>, after: seq<bv64>, history: seq<Key>,
                         key: Key, g: nat, c: nat, e: nat, w: nat, k: bv6)
    requires |after| == |before| > 0 && |before| % 2 == 0 && 1 <= g <= 3
    requires RenewedAt(before, after, g, Cells(hash, funcs, tweak, |before|, key), w, k)
    requires Explained(hash, funcs, tweak, before, history, g, c, e, w, k)
    ensures Explained(hash, funcs, tweak, after, history + [key], g, c + 1, e, w, k)
  {
    hide Code, Cells, SetBy, Age;
    if 2 * w + 1 < |after| && Code(after, w, k) != 0 {
      if Code(after, w, k) == Code(before, w, k) {
        var i: nat :| SetBy(hash, funcs, tweak, |before|, history, c, e, w, k, Age(g, Code(before, w, k)), i);
        SetByEarlier(hash, funcs, tweak, |before|, history, key, c, e, w, k, Age(g, Code(before, w, k)), i);
      } else {
        SetByLast(hash, funcs, tweak, |before|, history, key, c, e, w, k, g);
      }
    }
  }

  lemma InsertExplains(hash: KeyHash, funcs: nat, tweak: nat, before: seq<bv64>, after: seq<bv64>, history: seq<Key>,
                       key: Key, g: nat, c: nat, e: nat)
    requires |after| == |before| > 0 && |before| % 2 == 0 && 1 <= g <= 3
    requires OnlyRenewed(before, after, g, Cells(hash, funcs, tweak, |before|, key))
    requires AllExplained(hash, funcs, tweak, before, history, g, c, e)
    ensures AllExplained(hash, funcs, tweak, after, history + [key], g, c + 1, e)
  {
    hide Explained, RenewedAt, Cells;
    var history', c' := history + [key], c + 1;
    forall w: nat, k: bv6
      ensures Explained(hash, funcs, tweak, after, history', g, c', e, w, k)
    {
      InsertExplainsAt(hash, funcs, tweak, before, after, history, key, g, c, e, w, k);
    }
  }

  lemma RenewedFresh(before: seq<bv64>, after: seq<bv64>, cells: set<(nat, bv6)>, h: bv32, g: nat, age: nat)
    requires |before| > 0 && |before| % 2 == 0 && 1 <= g <= 3 && OnlyRenewed(before, after, g, cells)
    requires CellFresh(before, h, g, age)
    ensures CellFresh(after, h, g, age)
  {
    hide Code;
    assert RenewedAt(before, after, g, cells, WordOf(h, |before|), BitOf(h));
  }

  lemma InsertKeeps(hash: KeyHash, funcs: nat, tweak: nat, before: seq<bv64>, after: seq<bv64>, history: seq<Key>,
                    key: Key, g: nat, c: nat, e: nat)
    requires |after| == |before| > 0 && |before| % 2 == 0 && 1 <= g <= 3
    requires OnlyRenewed(before, after, g, Cells(hash, funcs, tweak, |before|, key))
    requires Kept(hash, funcs, tweak, before, history, g, c, e) && Fresh(hash, funcs, tweak, after, key, g, 0)
    ensures Kept(hash, funcs, tweak, after, history + [key], g, c + 1, e)
  {
    hide OnlyRenewed, CellFresh, Cells;
    var history', c', cells := history + [key], c + 1, Cells(hash, funcs, tweak, |before|, key);
    forall i
      ensures KeyKept(hash, funcs, tweak, after, history', g, c', e, i)
    {
      assert KeyKept(hash, funcs, tweak, before, history, g, c, e, i);
      if 0 <= i < |history| && |history| - i <= c + 2 * e {
        var age := AgeOf(|history| - i, c, e);
        assert AgeOf(|history'| - i, c', e) == age && history'[i] == history[i];
        forall n: nat | n < funcs
          ensures CellFresh(after, hash(n, tweak, history[i]), g, age)
        {
          RenewedFresh(before, after, cells, hash(n, tweak, history[i]), g, age);
        }
      }
    }
  }

  // ---------- The filter ----------

  class RollingBloomFilter {
    const hash: KeyHash
    const nElements: nat
    const nHashFuncs: nat
    const nEntriesPerGeneration: nat
    const data: array<bv64>
    var nEntriesThisGeneration: nat
    var nGeneration: nat
    var nTweak: nat
    /** All keys inserted since the last reset. */
    ghost var history: seq<Key>

    ghost predicate Valid()
      reads this, data
    {
      && data.Length > 0 && data.Length % 2 == 0
      && nEntriesPerGeneration > 0 && nElements <= 2 * nEntriesPerGeneration
      && 1 <= nGeneration <= 3 && nEntriesThisGeneration <= nEntriesPerGeneration
      && Kept(hash, nHashFuncs, nTweak, data[..], history, nGeneration, nEntriesThisGeneration, nEntriesPerGeneration)
      && AllExplained(hash, nHashFuncs, nTweak, data[..], history, nGeneration, nEntriesThisGeneration,
                      nEntriesPerGeneration)
    }

    /** One of the keys of the last two generations and the current one has this cell. */
    ghost predicate RecentlySet(h: bv32)
      requires data.Length > 0 && data.Length % 2 == 0
      reads this
    {
      exists i: nat :: i < |history| && |history| - i <= nEntriesThisGeneration + 2 * nEntriesPerGeneration &&
        (WordOf(h, data.Length), BitOf(h)) in Cells(hash, nHashFuncs, nTweak, data.Length, history[i])
    }

    /** The cells that are set are those of the recent keys. */
    lemma SetIsRecent(h: bv32)
      requires Valid()
      ensures Code(data[..], WordOf(h, data.Length), BitOf(h)) != 0 <==> RecentlySet(h)
    {
      hide Code;
      var w, k, c, e := WordOf(h, data.Length), BitOf(h), nEntriesThisGeneration, nEntriesPerGeneration;
      assert Explained(hash, nHashFuncs, nTweak, data[..], history, nGeneration, c, e, w, k);
      if Code(data[..], w, k) != 0 {
        var i: nat :| SetBy(hash, nHashFuncs, nTweak, data.Length, history, c, e, w, k,
                            Age(nGeneration, Code(data[..], w, k)), i);
      }
      forall i: nat | i < |history| && |history| - i <= c + 2 * e && (w,
                                                                      k) in Cells(hash, nHashFuncs, nTweak, data.Length,
                                                                                  history[i])
        ensures Code(data[..], w, k) != 0
      {
        assert KeyKept(hash, nHashFuncs, nTweak, data[..], history, nGeneration, c, e, i);
        var n: nat :| n < nHashFuncs
            && (w, k) == (WordOf(hash(n, nTweak, history[i]), data.Length), BitOf(hash(n, nTweak, history[i])));
        assert CellFresh(data[..], hash(n, nTweak, history[i]), nGeneration, AgeOf(|history| - i, c, e));
      }
    }

    /** `words` is half the number of words that the sizing formula gives. */
    constructor (hash: KeyHash, elements: nat, hashFuncs: nat, words: nat, tweak: nat)
      requires elements >= 1 && words >= 1
      ensures Valid() && history == [] && nElements == elements && fresh(data)
    {
      this.hash := hash;
      nElements, nHashFuncs := elements, hashFuncs;
      nEntriesPerGeneration := (elements + 1) / 2;
      data := new bv64[2 * words];
      nEntriesThisGeneration, nGeneration, nTweak, history := 0, 1, 0, [];
      new;
      Reset(tweak);
    }

    method Reset(tweak: nat)
      requires data.Length > 0 && data.Length % 2 == 0 && nEntriesPerGeneration > 0
               && nElements <= 2 * nEntriesPerGeneration
      modifies this`nTweak, this`nEntriesThisGeneration, this`nGeneration, this`history, data
      ensures Valid() && history == [] && nTweak == tweak && forall i | 0 <= i < data.Length :: data[i] == 0
    {
      nTweak, nEntriesThisGeneration, nGeneration, history := tweak, 0, 1, [];
      for i := 0 to data.Length
        modifies data
        invariant forall j | 0 <= j < i :: data[j] == 0
      {
        data[i] := 0;
      }
      NothingSet(data[..]);
    }

    method Insert(vKey: Key)
      requires Valid()
      modifies this`nEntriesThisGeneration, this`nGeneration, this`history, data
      ensures Valid() && history == old(history) + [vKey]
      ensures if old(nEntriesThisGeneration) == nEntriesPerGeneration
              then nEntriesThisGeneration == 1 && nGeneration == NextGeneration(old(nGeneration))
              else nEntriesThisGeneration == old(nEntriesThisGeneration) + 1 && nGeneration == old(nGeneration)
    {
      hide Kept, AllExplained, Cells;
      if nEntriesThisGeneration == nEntriesPerGeneration {
        ghost var before := data[..];
        nEntriesThisGeneration := 0;
        nGeneration := nGeneration + 1;
        if nGeneration == 4 {
          nGeneration := 1;
        }
        Wipe();
        WipeKeeps(hash, nHashFuncs, nTweak, before, data[..], history, old(nGeneration), nEntriesPerGeneration);
        WipeExplains(hash, nHashFuncs, nTweak, before, data[..], history, old(nGeneration), nEntriesPerGeneration);
      }
      nEntriesThisGeneration := nEntriesThisGeneration + 1;
      ghost var start := data[..];
      SetCells(vKey);
      InsertKeeps(hash, nHashFuncs, nTweak, start, data[..], history, vKey, nGeneration, nEntriesThisGeneration - 1,
                  nEntriesPerGeneration);
      InsertExplains(hash, nHashFuncs, nTweak, start, data[..], history, vKey, nGeneration, nEntriesThisGeneration - 1,
                     nEntriesPerGeneration);
      history := history + [vKey];
    }

    /** Clears the cells of the generation that begins. */
    method Wipe()
      requires 1 <= nGeneration <= 3 && data.Length % 2 == 0
      modifies data
      ensures Wiped(old(data[..]), data[..], nGeneration)
    {
      hide Code, And, Differ;
      var nGenerationMask1 := Spread(nGeneration % 2);
      var nGenerationMask2 := Spread(nGeneration / 2);
      ghost var before := data[..];
      for w := 0 to data.Length / 2
        invariant forall j | 2 * w <= j < data.Length :: data[j] == before[j]
        invariant forall v: nat, k: bv6 :: v < w ==> WipedAt(before, data[..], nGeneration, v, k)
      {
        ghost var middle := data[..];
        var p1, p2 := data[2 * w], data[2 * w + 1];
        var mask := Differ(p1, p2, nGenerationMask1, nGenerationMask2);
        data[2 * w] := And(p1, mask);
        data[2 * w + 1] := And(p2, mask);
        WipeStep(before, middle, data[..], nGeneration, w);
      }
      forall v: nat, k: bv6
        ensures WipedAt(before, data[..], nGeneration, v, k)
      {
      }
    }

    /** Sets all cells of the key to the current generation, and no others. */
    method SetCells(vKey: Key)
      requires 1 <= nGeneration <= 3 && data.Length > 0 && data.Length % 2 == 0
      modifies data
      ensures OnlyRenewed(old(data[..]), data[..], nGeneration, Cells(hash, nHashFuncs, nTweak, data.Length, vKey))
      ensures Fresh(hash, nHashFuncs, nTweak, data[..], vKey, nGeneration, 0)
    {
      hide Code, CellFresh, SetBit, OnlyRenewed, Cells;
      ghost var before, cells := data[..], Cells(hash, nHashFuncs, nTweak, data.Length, vKey);
      RenewedSelf(before, nGeneration, cells);
      for n := 0 to nHashFuncs
        invariant OnlyRenewed(before, data[..], nGeneration, cells)
        invariant forall m: nat :: m < n ==> CellFresh(data[..], hash(m, nTweak, vKey), nGeneration, 0)
      {
        ghost var middle := data[..];
        var h := hash(n, nTweak, vKey);
        var bit := BitOf(h);
        var w := WordOf(h, data.Length);
        data[2 * w] := SetBit(data[2 * w], bit, BitValue(nGeneration % 2));
        data[2 * w + 1] := SetBit(data[2 * w + 1], bit, BitValue(nGeneration / 2));
        IsCell(hash, nHashFuncs, nTweak, data.Length, vKey, n);
        SetStep(middle, data[..], cells, h, nGeneration);
        RenewedTrans(before, middle, data[..], nGeneration, cells);
        forall m: nat | m < n
          ensures CellFresh(data[..], hash(m, nTweak, vKey), nGeneration, 0)
        {
          RenewedFresh(middle, data[..], cells, hash(m, nTweak, vKey), nGeneration, 0);
        }
      }
    }

    /** True exactly if every cell of the key is a cell of a recent key: so for all of the last `nElements` keys, and
        never because of an older one. */
    method Contains(vKey: Key) returns (r: bool)
      requires Valid()
      ensures r <==> forall n: nat :: n < nHashFuncs ==> RecentlySet(hash(n, nTweak, vKey))
      ensures forall i | 0 <= i < |history| && |history| - i <= nElements :: history[i] == vKey ==> r
    {
      hide Code, Bit, Or, Kept, AllExplained, RecentlySet;
      var n := 0;
      r := true;
      while n < nHashFuncs && r
        invariant 0 <= n <= nHashFuncs
        invariant r ==> forall m: nat :: m < n ==> RecentlySet(hash(m, nTweak, vKey))
        invariant !r ==> exists m: nat :: m < nHashFuncs && !RecentlySet(hash(m, nTweak, vKey))
        decreases nHashFuncs - n, r
      {
        var h := hash(n, nTweak, vKey);
        var bit := BitOf(h);
        var w := WordOf(h, data.Length);
        CodeSet(data[..], w, bit);
        SetIsRecent(h);
        if !Bit(Or(data[2 * w], data[2 * w + 1]), bit) {
          r := false;
        } else {
          n := n + 1;
        }
      }
      forall i | 0 <= i < |history| && |history| - i <= nElements && history[i] == vKey
        ensures r
      {
        RecentIsSet(i);
      }
    }

    /** The cells of a recent key are set. */
    lemma RecentIsSet(i: nat)
      requires Valid() && i < |history| && |history| - i <= nElements
      ensures forall n: nat :: n < nHashFuncs ==> RecentlySet(hash(n, nTweak, history[i]))
    {
      hide Cells, Kept, AllExplained;
      forall n: nat | n < nHashFuncs
        ensures RecentlySet(hash(n, nTweak, history[i]))
      {
        IsCell(hash, nHashFuncs, nTweak, data.Length, history[i], n);
      }
    }
  }

  lemma IsCell(hash: KeyHash, funcs: nat, tweak: nat, size: nat, key: Key, n: nat)
    requires size > 0 && size % 2 == 0 && n < funcs
    ensures (WordOf(hash(n, tweak, key), size), BitOf(hash(n, tweak, key))) in Cells(hash, funcs, tweak, size, key)
  {
  }

  lemma CodeSet(data: seq<bv64>, w: nat, k: bv6)
    requires 2 * w + 1 < |data|
    ensures Bit(Or(data[2 * w], data[2 * w + 1]), k) <==> Code(data, w, k) != 0
  {
    hide Bit, Or;
    OrBit(data[2 * w], data[2 * w + 1], k);
  }

  lemma WipeStep(before: seq<bv64>, middle: seq<bv64>, after: seq<bv64>, g: nat, w: nat)
    requires |before| == |middle| == |after| && 2 * w + 1 < |before| && 1 <= g <= 3
    requires middle[2 * w] == before[2 * w] && middle[2 * w + 1] == before[2 * w + 1]
    requires forall v: nat, k: bv6 :: v < w ==> WipedAt(before, middle, g, v, k)
    requires
      var mask := Differ(middle[2 * w], middle[2 * w + 1], Spread(g % 2), Spread(g / 2));
      after == middle[2 * w := And(middle[2 * w], mask)][2 * w + 1 := And(middle[2 * w + 1], mask)]
    ensures forall v: nat, k: bv6 :: v < w + 1 ==> WipedAt(before, after, g, v, k)
  {
    hide And, Differ, PairCode;
    forall v: nat, k: bv6 | v < w + 1
      ensures WipedAt(before, after, g, v, k)
    {
      if v < w {
        assert WipedAt(before, middle, g, v, k);
      } else {
        WipePair(before[2 * w], before[2 * w + 1], g, k);
      }
    }
  }

  lemma NothingSet(data: seq<bv64>)
    requires forall i | 0 <= i < |data| :: data[i] == 0
    ensures forall w: nat, k: bv6 :: 2 * w + 1 < |data| ==> Code(data, w, k) == 0
  {
    forall w: nat, k: bv6 | 2 * w + 1 < |data|
      ensures Code(data, w, k) == 0
    {
      assert data[2 * w] == data[2 * w + 1] == 0;
    }
  }

  lemma RenewedSelf(data: seq<bv64>, g: nat, cells: set<(nat, bv6)>)
    ensures OnlyRenewed(data, data, g, cells)
  {
  }

  lemma RenewedTrans(a: seq<bv64>, b: seq<bv64>, c: seq<bv64>, g: nat, cells: set<(nat, bv6)>)
    requires OnlyRenewed(a, b, g, cells) && OnlyRenewed(b, c, g, cells)
    ensures OnlyRenewed(a, c, g, cells)
  {
    hide Code;
    forall w: nat, k: bv6
      ensures RenewedAt(a, c, g, cells, w, k)
    {
      assert RenewedAt(a, b, g, cells, w, k) && RenewedAt(b, c, g, cells, w, k);
    }
  }

  lemma SetStep(before: seq<bv64>, after: seq<bv64>, cells: set<(nat, bv6)>, h: bv32, g: nat)
    requires |before| > 0 && |before| % 2 == 0 && 1 <= g <= 3 && (WordOf(h, |before|), BitOf(h)) in cells
    requires
      var w, j := WordOf(h, |before|), BitOf(h);
      after == before[2 * w := SetBit(before[2 * w], j,
                                      BitValue(g % 2))][2 * w + 1 := SetBit(before[2 * w + 1], j, BitValue(g / 2))]
    ensures OnlyRenewed(before, after, g, cells) && CellFresh(after, h, g, 0)
  {
    hide SetBit, PairCode, BitOf, WordOf;
    var v, j := WordOf(h, |before|), BitOf(h);
    SetPair(before[2 * v], before[2 * v + 1], g, j, j);
    forall w: nat, k: bv6
      ensures RenewedAt(before, after, g, cells, w, k)
    {
      if w == v {
        SetPair(before[2 * v], before[2 * v + 1], g, j, k);
      }
    }
  }
}
