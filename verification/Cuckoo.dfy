/** The cuckoo cache (`CuckooCache::cache`) with its bit-packed collection flags. */
module Cuckoo {
  import opened Bytes
  import opened Positional

  type Element = nat

  // ---------- Collection flags ----------

  predicate IsSet(mem: seq<bv8>, s: nat)
    requires s < 8 * |mem|
  {
    BitOf(mem[s / 8], s % 8)
  }

  /** `bit_packed_atomic_flags`, used by one thread. */
  class Flags {
    var mem: seq<bv8>

    constructor (size: nat)
      ensures 8 * |mem| >= size && forall i: nat :: i < 8 * |mem| ==> IsSet(mem, i)
    {
      var bytes := (size + 7) / 8;
      var m: seq<bv8> := [];
      for i := 0 to bytes
        invariant |m| == i && forall j | 0 <= j < i :: m[j] == 0xff
      {
        m := m + [0xff];
      }
      mem := m;
      new;
      forall i: nat | i < 8 * |mem|
        ensures IsSet(mem, i)
      {
        AllBits(i % 8);
      }
    }

    method BitSet(s: nat)
      requires s < 8 * |mem|
      modifies this`mem
      ensures |mem| == |old(mem)|
      ensures forall i: nat :: i < 8 * |mem| ==> (IsSet(mem, i) <==> i == s || IsSet(old(mem), i))
    {
      mem := mem[s / 8 := mem[s / 8] | Mask(s % 8)];
      forall i: nat | i < 8 * |mem|
        ensures IsSet(mem, i) <==> i == s || IsSet(old(mem), i)
      {
        SetBit(old(mem)[s / 8], s % 8, i % 8);
      }
    }

    method BitUnset(s: nat)
      requires s < 8 * |mem|
      modifies this`mem
      ensures |mem| == |old(mem)|
      ensures forall i: nat :: i < 8 * |mem| ==> (IsSet(mem, i) <==> i != s && IsSet(old(mem), i))
    {
      mem := mem[s / 8 := mem[s / 8] & !Mask(s % 8)];
      forall i: nat | i < 8 * |mem|
        ensures IsSet(mem, i) <==> i != s && IsSet(old(mem), i)
      {
        ClearBit(old(mem)[s / 8], s % 8, i % 8);
      }
    }

    method BitIsSet(s: nat) returns (r: bool)
      requires s < 8 * |mem|
      ensures r == IsSet(mem, s)
    {
      r := mem[s / 8] & Mask(s % 8) != 0;
    }
  }

  // ---------- The table ----------

  /** The hash function with its eight selectors, and the table size. */
  datatype Slots = Slots(hash: (nat, Element) -> nat, size: nat) {
    predicate Ok() {
      size > 0
    }

    /** The k-th slot of an element; masking with size - 1 is the remainder, since the size is a power of two. */
    function At(k: nat, e: Element): (r: nat)
      requires Ok()
      ensures r < size
    {
      hash(k, e) % size
    }

    /** The first place of a slot among the eight of an element, from the k-th on, or eight. */
    function PlaceOf(e: Element, loc: int, k: nat): (r: nat)
      requires Ok() && k <= 8
      ensures k <= r <= 8 && (r < 8 ==> At(r, e) == loc) && forall j: nat :: k <= j < r ==> At(j, e) != loc
      decreases 8 - k
    {
      if k == 8 || At(k, e) == loc then k else PlaceOf(e, loc, k + 1)
    }

    /** The slot to swap with, after `last`: the next of the eight in a circle. */
    function SwapSlot(e: Element, last: int): nat
      requires Ok()
    {
      At((1 + PlaceOf(e, last, 0)) % 8, e)
    }

    ghost predicate Home(e: Element, i: nat)
      requires Ok()
    {
      exists k: nat :: k < 8 && At(k, e) == i
    }
  }

  predicate LiveAt(mem: seq<bv8>, i: nat) {
    i < 8 * |mem| && !IsSet(mem, i)
  }

  /** An element that may not be collected is in one of its eight slots. */
  ghost predicate HomedAt(slots: Slots, table: seq<Element>, mem: seq<bv8>, i: nat)
    requires slots.Ok()
  {
    i < |table| && LiveAt(mem, i) ==> slots.Home(table[i], i)
  }

  ghost predicate Homed(slots: Slots, table: seq<Element>, mem: seq<bv8>)
    requires slots.Ok()
  {
    forall i: nat :: HomedAt(slots, table, mem, i)
  }

  /** An element with its epoch: true for the current one, false for the old one. */
  datatype Item = Item(element: Element, epoch: bool)

  /** What a cache holds: elements, epochs and collection flags, slot by slot. */
  datatype Content = Content(table: seq<Element>, epochs: seq<bool>, mem: seq<bv8>)

  ghost predicate HasAt(c: Content, x: Item, i: nat) {
    i < |c.table| && i < |c.epochs| && LiveAt(c.mem, i) && c.table[i] == x.element && c.epochs[i] == x.epoch
  }

  /** The element is kept somewhere, with this epoch. */
  ghost predicate Has(c: Content, x: Item) {
    exists i: nat :: HasAt(c, x, i)
  }

  /** The same elements are kept or in hand, each with its epoch. */
  ghost predicate SameHeld(c: Content, hand: set<Item>, c': Content, hand': set<Item>) {
    forall x :: Has(c, x) || x in hand <==> Has(c', x) || x in hand'
  }

  /** The first swap, when no slot was the last one, takes the second slot; so it takes the first one exactly if these
      are the same. */
  lemma FirstSwap(slots: Slots, e: Element)
    requires slots.Ok()
    ensures slots.SwapSlot(e, -1) == slots.At(1, e)
    ensures slots.SwapSlot(e, -1) == slots.At(0, e) <==> slots.At(0, e) == slots.At(1, e)
  {
    var r := slots.PlaceOf(e, -1, 0);
    assert r == 8;
  }

  lemma SameHeldTrans(a: Content, h: set<Item>, b: Content, h': set<Item>, c: Content, h'': set<Item>)
    requires SameHeld(a, h, b, h') && SameHeld(b, h', c, h'')
    ensures SameHeld(a, h, c, h'')
  {
  }

  lemma SameHeldSelf(c: Content, hand: set<Item>)
    ensures SameHeld(c, hand, c, hand)
  {
  }

  /** What `contains` looks for. */
  ghost predicate Found(slots: Slots, table: seq<Element>, x: Element)
    requires slots.Ok() && |table| == slots.size
  {
    exists k: nat :: k < 8 && table[slots.At(k, x)] == x
  }

  lemma HeldIsFound(slots: Slots, c: Content, x: Item)
    requires slots.Ok() && |c.table| == slots.size && Homed(slots, c.table, c.mem) && Has(c, x)
    ensures Found(slots, c.table, x.element)
  {
    var i: nat :| HasAt(c, x, i);
    assert HomedAt(slots, c.table, c.mem, i);
  }

  /** Flags after slot i has been marked to be kept. */
  ghost predicate Unmarked(mem: seq<bv8>, mem': seq<bv8>, i: nat) {
    |mem'| == |mem| && forall j: nat :: LiveAt(mem', j) <==> LiveAt(mem, j) || (j == i && i < 8 * |mem|)
  }

  function Stored(c: Content, x: Item, i: nat, mem: seq<bv8>): Content
    requires i < |c.table| == |c.epochs|
  {
    Content(c.table[i := x.element], c.epochs[i := x.epoch], mem)
  }

  lemma StoreHomed(slots: Slots, table: seq<Element>, mem: seq<bv8>, mem': seq<bv8>, e: Element, i: nat)
    requires slots.Ok() && |table| == slots.size && Homed(slots, table, mem) && Unmarked(mem, mem', i)
    requires i < |table| && slots.Home(e, i)
    ensures Homed(slots, table[i := e], mem')
  {
    var table' := table[i := e];
    forall j: nat
      ensures HomedAt(slots, table', mem', j)
    {
      assert HomedAt(slots, table, mem, j);
    }
  }

  /** Storing an element in a slot that is free loses nothing. */
  lemma StoreKeeps(c: Content, mem: seq<bv8>, x: Item, i: nat)
    requires i < |c.table| == |c.epochs| <= 8 * |c.mem| && Unmarked(c.mem, mem, i) && !LiveAt(c.mem, i)
    ensures SameHeld(c, {x}, Stored(c, x, i, mem), {})
  {
    var c' := Stored(c, x, i, mem);
    assert HasAt(c', x, i);
    forall y
      ensures Has(c', y) <==> Has(c, y) || y == x
    {
      if Has(c, y) {
        var j: nat :| HasAt(c, y, j);
        assert HasAt(c', y, j);
      }
      if Has(c', y) {
        var j: nat :| HasAt(c', y, j);
        assert y == x || HasAt(c, y, j);
      }
    }
  }

  /** Keeping an element that is there already, as one of the current epoch, touches no other. */
  lemma RenewKeeps(c: Content, mem: seq<bv8>, e: Element, i: nat)
    requires i < |c.table| == |c.epochs| <= 8 * |c.mem| && Unmarked(c.mem, mem, i) && c.table[i] == e
    ensures Has(Stored(c, Item(e, true), i, mem), Item(e, true))
    ensures Has(Stored(c, Item(e, true), i, mem), Item(e, false)) ==> Has(c, Item(e, false))
    ensures forall y: Item | y.element != e :: Has(c, y) <==> Has(Stored(c, Item(e, true), i, mem), y)
  {
    var c' := Stored(c, Item(e, true), i, mem);
    assert HasAt(c', Item(e, true), i);
    forall y: Item | y != Item(e, true)
      ensures Has(c', y) ==> Has(c, y)
      ensures y.element != e && Has(c, y) ==> Has(c', y)
    {
      if Has(c', y) {
        var j: nat :| HasAt(c', y, j);
        assert HasAt(c, y, j);
      }
      if y.element != e && Has(c, y) {
        var j: nat :| HasAt(c, y, j);
        assert HasAt(c', y, j);
      }
    }
  }

  /** Swapping the element in hand with the one in a kept slot loses nothing. */
  lemma SwapKeeps(c: Content, x: Item, i: nat)
    requires i < |c.table| == |c.epochs| && LiveAt(c.mem, i)
    ensures SameHeld(c, {x}, Stored(c, x, i, c.mem), {Item(c.table[i], c.epochs[i])})
  {
    var c', out := Stored(c, x, i, c.mem), Item(c.table[i], c.epochs[i]);
    assert HasAt(c', x, i) && HasAt(c, out, i);
    forall y
      ensures Has(c', y) || y == out <==> Has(c, y) || y == x
    {
      if Has(c, y) {
        var j: nat :| HasAt(c, y, j);
        assert y == out || HasAt(c', y, j);
      }
      if Has(c', y) {
        var j: nat :| HasAt(c', y, j);
        assert y == x || HasAt(c, y, j);
      }
    }
  }

  class Cache {
    const slots: Slots
    const depthLimit: nat
    const epochSize: nat
    const collectionFlags: Flags
    var table: seq<Element>
    var epochFlags: seq<bool>
    var epochHeuristicCounter: nat

    ghost predicate Valid()
      reads this, collectionFlags
    {
      && slots.Ok() && |table| == |epochFlags| == slots.size <= 8 * |collectionFlags.mem|
      && epochSize >= 1 && depthLimit >= 1
      && Homed(slots, table, collectionFlags.mem)
    }

    function Now(): Content
      reads this`table, this`epochFlags, collectionFlags
    {
      Content(table, epochFlags, collectionFlags.mem)
    }

    /** `setup` for a given depth limit; every slot holds the default element and may be collected. */
    constructor (hash: (nat, Element) -> nat, depthLimit: nat, default: Element)
      requires depthLimit >= 1
      ensures Valid() && slots.size == Pow2(depthLimit) && fresh(collectionFlags)
      ensures forall x :: !Has(Now(), x)
    {
      var size := Pow2(depthLimit);
      slots := Slots(hash, size);
      this.depthLimit := depthLimit;
      var flags := new Flags(size);
      collectionFlags := flags;
      table := seq(size, _ => default);
      epochFlags := seq(size, _ => false);
      var share := 45 * size / 100;
      epochSize := if share > 1 then share else 1;
      epochHeuristicCounter := if share > 1 then share else 1;
    }

    method EpochCheck()
      requires Valid()
      modifies this`epochFlags, this`epochHeuristicCounter, collectionFlags
      ensures Valid() && |collectionFlags.mem| == |old(collectionFlags.mem)|
      ensures Aged(old(epochFlags), old(collectionFlags.mem), old(epochHeuristicCounter), epochSize, |table|,
                   collectionFlags.mem)
      ensures
        if old(epochHeuristicCounter) != 0
            then epochFlags == old(epochFlags) && epochHeuristicCounter == old(epochHeuristicCounter) - 1
        else if Unused(old(epochFlags), old(collectionFlags.mem), |table|) < epochSize then
          epochFlags == old(epochFlags) && IsLargest(epochHeuristicCounter, 1, epochSize / 16,
                                                     epochSize - Unused(old(epochFlags), old(collectionFlags.mem),
                                                                        |table|))
        else (forall i | 0 <= i < |table| :: !epochFlags[i]) && epochHeuristicCounter == epochSize
    {
      if epochHeuristicCounter != 0 {
        epochHeuristicCounter := epochHeuristicCounter - 1;
        return;
      }
      var epochUnusedCount := CountUnused();
      if epochUnusedCount >= epochSize {
        AgeEpochs();
        epochHeuristicCounter := epochSize;
      } else {
        var left := epochSize - epochUnusedCount;
        var least := if left > epochSize / 16 then left else epochSize / 16;
        epochHeuristicCounter := if least > 1 then least else 1;
      }
    }

    /** How many elements of the latest epoch are not erased. */
    method CountUnused() returns (count: nat)
      requires Valid()
      ensures count == Unused(epochFlags, collectionFlags.mem, |table|)
    {
      count := 0;
      for i := 0 to |table|
        invariant count == Unused(epochFlags, collectionFlags.mem, i)
      {
        var set_ := collectionFlags.BitIsSet(i);
        if epochFlags[i] && !set_ {
          count := count + 1;
        }
      }
    }

    /** The old epoch may be erased, the current one becomes the old one. */
    method AgeEpochs()
      requires Valid()
      modifies this`epochFlags, collectionFlags
      ensures Valid() && |collectionFlags.mem| == |old(collectionFlags.mem)|
      ensures forall i | 0 <= i < |table| :: !epochFlags[i]
      ensures forall i: nat :: LiveAt(collectionFlags.mem, i) <==>
                LiveAt(old(collectionFlags.mem), i) && (i < |table| ==> old(epochFlags)[i])
      ensures |epochFlags| == |table|
    {
      ghost var mem := collectionFlags.mem;
      for i := 0 to |table|
        invariant |epochFlags| == |table| && |collectionFlags.mem| == |mem|
        invariant forall j | 0 <= j < |table| :: epochFlags[j] == (j >= i && old(epochFlags)[j])
        invariant forall j: nat :: LiveAt(collectionFlags.mem, j) <==> LiveAt(mem, j) && (j < i ==> old(epochFlags)[j])
      {
        if epochFlags[i] {
          epochFlags := epochFlags[i := false];
        } else {
          collectionFlags.BitSet(i);
        }
      }
      FewerHomed(slots, table, mem, collectionFlags.mem);
    }

    /** Marks a slot to be kept. */
    method PleaseKeep(loc: nat)
      requires loc < 8 * |collectionFlags.mem|
      modifies collectionFlags
      ensures Unmarked(old(collectionFlags.mem), collectionFlags.mem, loc)
    {
      collectionFlags.BitUnset(loc);
    }

    /** The place of a slot among those of the element (`std::find`), or 8. */
    method FindLoc(e: Element, loc: int) returns (k: nat)
      requires slots.Ok()
      ensures k == slots.PlaceOf(e, loc, 0)
    {
      k := 0;
      while k < 8 && slots.At(k, e) != loc
        invariant 0 <= k <= 8 && slots.PlaceOf(e, loc, 0) == slots.PlaceOf(e, loc, k)
      {
        k := k + 1;
      }
    }

    /** Stores the element in the first of its slots that may be collected. */
    method StoreInFree(e: Element, lastEpoch: bool) returns (stored: bool)
      requires Valid()
      modifies this`table, this`epochFlags, collectionFlags
      ensures Valid()
      ensures stored ==> SameHeld(old(Now()), {Item(e, lastEpoch)}, Now(), {})
      ensures !stored ==> Now() == old(Now())
      ensures !stored ==> forall k: nat :: k < 8 ==> LiveAt(collectionFlags.mem, slots.At(k, e))
    {
      hide Homed, Has, IsSet;
      var k := 0;
      while k < 8
        invariant 0 <= k <= 8
        invariant Now() == old(Now())
        invariant forall j: nat :: j < k ==> LiveAt(collectionFlags.mem, slots.At(j, e))
      {
        var loc := slots.At(k, e);
        var collectable := collectionFlags.BitIsSet(loc);
        if collectable {
          assert slots.Home(e, loc);
          PleaseKeep(loc);
          StoreHomed(slots, table, old(collectionFlags.mem), collectionFlags.mem, e, loc);
          StoreKeeps(old(Now()), collectionFlags.mem, Item(e, lastEpoch), loc);
          table := table[loc := e];
          epochFlags := epochFlags[loc := lastEpoch];
          return true;
        }
        k := k + 1;
      }
      stored := false;
    }

    /** Moves elements along their slots until one finds room; the one in hand when the depth limit is reached is lost.
        Every element takes its epoch with it. */
    method Place(e0: Element) returns (ghost lost: set<Item>)
      requires Valid()
      modifies this`table, this`epochFlags, collectionFlags
      ensures Valid() && |lost| <= 1
      ensures SameHeld(old(Now()), {Item(e0, true)}, Now(), lost)
      ensures lost != {} ==> forall k: nat :: k < 8 ==> LiveAt(old(collectionFlags.mem), slots.At(k, e0))
    {
      hide Homed, Has, IsSet, SameHeld;
      SameHeldSelf(Now(), {Item(e0, true)});
      var e, lastEpoch := e0, true;
      var lastLoc: int := -1;
      for depth := 0 to depthLimit
        invariant Valid() && collectionFlags.mem == old(collectionFlags.mem)
        invariant SameHeld(old(Now()), {Item(e0, true)}, Now(), {Item(e, lastEpoch)})
        invariant if depth == 0 then e == e0 else forall k: nat ::
                    k < 8 ==> LiveAt(old(collectionFlags.mem), slots.At(k, e0))
      {
        ghost var before := Now();
        var stored := StoreInFree(e, lastEpoch);
        if stored {
          lost := {};
          SameHeldTrans(old(Now()), {Item(e0, true)}, before, {Item(e, lastEpoch)}, Now(), {});
          return;
        }
        var k := FindLoc(e, lastLoc);
        var loc := slots.At((1 + k) % 8, e);
        assert slots.Home(e, loc) && LiveAt(collectionFlags.mem, loc);
        lastLoc := loc;
        StoreHomed(slots, table, collectionFlags.mem, collectionFlags.mem, e, loc);
        SwapKeeps(before, Item(e, lastEpoch), loc);
        var evicted, epoch := table[loc], lastEpoch;
        SameHeldTrans(old(Now()), {Item(e0, true)}, before, {Item(e, lastEpoch)},
                      Stored(before, Item(e, lastEpoch), loc, before.mem), {Item(table[loc], epochFlags[loc])});
        table := table[loc := e];
        e := evicted;
        lastEpoch := epochFlags[loc];
        epochFlags := epochFlags[loc := epoch];
      }
      lost := {Item(e, lastEpoch)};
    }

    /** `start` is what the cache holds right after the epoch check. All of it and the new element is still there and
        found afterwards, each with its epoch, with at most one exception; none if one of its slots may be collected,
        or if the element was there already, which then belongs to the current epoch. */
    method Insert(e: Element) returns (ghost start: Content, ghost lost: set<Item>)
      requires Valid()
      modifies this`table, this`epochFlags, this`epochHeuristicCounter, collectionFlags
      ensures Valid()
      ensures start.table == old(table) && |start.epochs| == |table|
      ensures Aged(old(epochFlags), old(collectionFlags.mem), old(epochHeuristicCounter), epochSize, |table|, start.mem)
      ensures AgedEpochs(old(epochFlags), old(collectionFlags.mem), old(epochHeuristicCounter), epochSize, |table|,
                         start.epochs)
      ensures |lost| <= 1 && (Found(slots, old(table), e) ==> lost == {})
      ensures lost != {} ==> forall k: nat :: k < 8 ==> LiveAt(start.mem, slots.At(k, e))
      ensures forall x: Item | x.element != e :: Has(start, x) <==> Has(Now(), x) || x in lost
      ensures Has(Now(), Item(e, true)) || Item(e, true) in lost
      ensures Has(Now(), Item(e, false)) ==> Has(start, Item(e, false))
      ensures forall x :: Has(Now(), x) ==> Found(slots, table, x.element)
    {
      hide Homed, Has, IsSet, SameHeld, Found, Aged, AgedEpochs, Unused;
      EpochCheck();
      AgedTogether(old(epochFlags), old(collectionFlags.mem), old(epochHeuristicCounter), epochSize, |table|,
                   epochFlags);
      start := Now();
      var k := 0;
      while k < 8
        invariant 0 <= k <= 8 && Valid() && Now() == start
        invariant forall j: nat :: j < k ==> table[slots.At(j, e)] != e
      {
        var loc := slots.At(k, e);
        if table[loc] == e {
          assert slots.Home(e, loc);
          PleaseKeep(loc);
          StoreHomed(slots, table, start.mem, collectionFlags.mem, e, loc);
          RenewKeeps(start, collectionFlags.mem, e, loc);
          assert table[loc := e] == table;
          epochFlags := epochFlags[loc := true];
          lost := {};
          AllFound(slots, Now());
          return;
        }
        k := k + 1;
      }
      lost := Place(e);
      NotThere(slots, old(table), e);
      SameButNew(start, e, Now(), lost);
      AllFound(slots, Now());
    }

    /** Finds an element in one of its slots; with `erase` just the first such slot may be collected from then on. */
    method Contains(e: Element, erase: bool) returns (r: bool)
      requires Valid()
      modifies collectionFlags
      ensures Valid() && r == Found(slots, table, e)
      ensures forall b :: old(Has(Now(), Item(e, b))) ==> r
      ensures !(r && erase) ==> collectionFlags.mem == old(collectionFlags.mem)
      ensures r && erase ==> exists k: nat ::
                IsFirst(k, e) && Collected(old(collectionFlags.mem), collectionFlags.mem, slots.At(k, e))
    {
      hide Homed, IsSet, Has;
      AllFound(slots, Now());
      var k := 0;
      while k < 8
        invariant 0 <= k <= 8 && Valid() && collectionFlags.mem == old(collectionFlags.mem)
        invariant forall j: nat :: j < k ==> table[slots.At(j, e)] != e
      {
        var loc := slots.At(k, e);
        if table[loc] == e {
          if erase {
            collectionFlags.BitSet(loc);
            FewerHomed(slots, table, old(collectionFlags.mem), collectionFlags.mem);
            assert IsFirst(k, e) && Collected(old(collectionFlags.mem), collectionFlags.mem, loc);
          }
          return true;
        }
        k := k + 1;
      }
      r := false;
    }

    /** The k-th slot of the element is the first of its slots that holds it. */
    ghost predicate IsFirst(k: nat, e: Element)
      requires slots.Ok() && |table| == slots.size
      reads this`table
    {
      k < 8 && table[slots.At(k, e)] == e && forall j: nat :: j < k ==> table[slots.At(j, e)] != e
    }
  }

  /** Slot i may be collected, and otherwise nothing changed. */
  ghost predicate Collected(mem: seq<bv8>, mem': seq<bv8>, i: nat) {
    |mem'| == |mem| && forall j: nat :: LiveAt(mem', j) <==> LiveAt(mem, j) && j != i
  }

  predicate IsLargest(r: int, a: int, b: int, c: int) {
    r >= a && r >= b && r >= c && (r == a || r == b || r == c)
  }

  /** What an epoch check does to the flags. */
  ghost predicate Aged(epochs: seq<bool>, mem: seq<bv8>, counter: nat, epochSize: nat, n: nat, mem': seq<bv8>) {
    if n <= |epochs| && n <= 8 * |mem| && counter == 0 && Unused(epochs, mem, n) >= epochSize then
      forall i: nat :: LiveAt(mem', i) <==> LiveAt(mem, i) && (i < n ==> epochs[i])
    else
      mem' == mem
  }

  /** And to the epochs. */
  ghost predicate AgedEpochs(epochs: seq<bool>, mem: seq<bv8>, counter: nat, epochSize: nat, n: nat,
                             epochs': seq<bool>) {
    if n <= |epochs| && n <= 8 * |mem| && counter == 0 && Unused(epochs, mem, n) >= epochSize then
      forall i | 0 <= i < |epochs'| :: !epochs'[i]
    else
      epochs' == epochs
  }

  lemma AgedTogether(epochs: seq<bool>, mem: seq<bv8>, counter: nat, epochSize: nat, n: nat, epochs': seq<bool>)
    requires |epochs| == |epochs'| == n <= 8 * |mem|
    requires
      if counter != 0 || Unused(epochs, mem, n) < epochSize then epochs' == epochs
      else forall i | 0 <= i < n :: !epochs'[i]
    ensures AgedEpochs(epochs, mem, counter, epochSize, n, epochs')
  {
  }

  lemma NotThere(slots: Slots, table: seq<Element>, e: Element)
    requires slots.Ok() && |table| == slots.size && forall j: nat :: j < 8 ==> table[slots.At(j, e)] != e
    ensures !Found(slots, table, e)
  {
  }

  /** What holding the same with one new element means for each. */
  lemma SameButNew(c: Content, e: Element, c': Content, lost: set<Item>)
    requires SameHeld(c, {Item(e, true)}, c', lost)
    ensures forall x: Item | x.element != e :: Has(c, x) <==> Has(c', x) || x in lost
    ensures Has(c', Item(e, true)) || Item(e, true) in lost
    ensures Has(c', Item(e, false)) ==> Has(c, Item(e, false))
  {
    hide Has;
  }

  lemma AllFound(slots: Slots, c: Content)
    requires slots.Ok() && |c.table| == slots.size && Homed(slots, c.table, c.mem)
    ensures forall x :: Has(c, x) ==> Found(slots, c.table, x.element)
  {
    forall x | Has(c, x)
      ensures Found(slots, c.table, x.element)
    {
      HeldIsFound(slots, c, x);
    }
  }

  lemma FewerHomed(slots: Slots, table: seq<Element>, mem: seq<bv8>, mem': seq<bv8>)
    requires slots.Ok() && Homed(slots, table, mem) && forall i: nat :: LiveAt(mem', i) ==> LiveAt(mem, i)
    ensures Homed(slots, table, mem')
  {
    forall i: nat
      ensures HomedAt(slots, table, mem', i)
    {
      assert HomedAt(slots, table, mem, i);
    }
  }

  function Unused(epochs: seq<bool>, mem: seq<bv8>, n: nat): nat
    requires n <= |epochs| && n <= 8 * |mem|
  {
    if n == 0 then 0 else Unused(epochs, mem, n - 1) + if epochs[n - 1] && LiveAt(mem, n - 1) then 1 else 0
  }
}
