/** Compact blocks: which slot every short id stands for, and how slots are filled. */
module CompactBlock {
  import opened Basics

  /** A transaction with its two hashes. */
  datatype Tx = Tx(hash: Hash256, witnessHash: Hash256, isNull: bool)

  /** The offset is a 16-bit number, counted from the slot after the previous prefilled transaction. */
  datatype Prefilled = Prefilled(index: nat, tx: Tx)

  datatype Message = Message(headerIsNull: bool, shortTxIds: seq<nat>, prefilled: seq<Prefilled>) {
    function BlockTxCount(): nat {
      |shortTxIds| + |prefilled|
    }
  }

  type Slots = seq<Option<Tx>>

  const MIN_TRANSACTION_BASE_SIZE := 10
  const MAX_UINT16: nat := 65535

  // ---------- Prefilled transactions ----------

  /** The slot of the i-th prefilled transaction. */
  function PrefilledSlot(prefilled: seq<Prefilled>, i: nat): nat
    requires i < |prefilled|
  {
    (if i == 0 then 0 else PrefilledSlot(prefilled, i - 1) + 1) + prefilled[i].index
  }

  lemma {:induction false} PrefilledAscend(prefilled: seq<Prefilled>, i: nat, j: nat)
    requires i < j < |prefilled|
    ensures PrefilledSlot(prefilled, i) < PrefilledSlot(prefilled, j)
    decreases j
  {
    if i < j - 1 {
      PrefilledAscend(prefilled, i, j - 1);
    }
  }

  /** The message is accepted as far as its i-th prefilled transaction goes. */
  predicate PrefilledOk(m: Message, i: nat)
    requires i < |m.prefilled|
  {
    && !m.prefilled[i].tx.isNull
    && PrefilledSlot(m.prefilled, i) <= MAX_UINT16
    && PrefilledSlot(m.prefilled, i) <= |m.shortTxIds| + i
  }

  // ---------- Empty slots ----------

  function Available(slots: Slots): nat {
    if slots == [] then 0 else Available(slots[..|slots| - 1]) + if slots[|slots| - 1].Some? then 1 else 0
  }

  /** The empty slots in order. */
  function Empties(slots: Slots): seq<nat> {
    if slots == [] then [] else
      Empties(slots[..|slots| - 1]) + if slots[|slots| - 1].None? then [|slots| - 1] else []
  }

  lemma {:induction false} EmptiesCount(slots: Slots)
    ensures |Empties(slots)| + Available(slots) == |slots|
  {
    if slots != [] {
      EmptiesCount(slots[..|slots| - 1]);
    }
  }

  lemma {:induction false} EmptiesAt(slots: Slots, k: nat)
    requires k < |Empties(slots)|
    ensures Empties(slots)[k] < |slots| && slots[Empties(slots)[k]].None?
  {
    var n := |slots| - 1;
    if k < |Empties(slots[..n])| {
      EmptiesAt(slots[..n], k);
    }
  }

  lemma {:induction false} EmptiesAscend(slots: Slots, j: nat, k: nat)
    requires j < k < |Empties(slots)|
    ensures Empties(slots)[j] < Empties(slots)[k]
  {
    var n := |slots| - 1;
    if k < |Empties(slots[..n])| {
      EmptiesAscend(slots[..n], j, k);
    } else {
      EmptiesAt(slots[..n], j);
    }
  }

  /** Every empty slot is listed: the k-th one has exactly k empty slots below it. */
  lemma {:induction false} EmptiesAll(slots: Slots, s: nat)
    requires s < |slots| && slots[s].None?
    ensures |Empties(slots[..s])| < |Empties(slots)| && Empties(slots)[|Empties(slots[..s])|] == s
    decreases |slots|
  {
    var n := |slots| - 1;
    if s < n {
      EmptiesAll(slots[..n], s);
      assert slots[..n][..s] == slots[..s];
    }
  }

  lemma {:induction false} AvailableUpdate(slots: Slots, s: nat, x: Option<Tx>)
    requires s < |slots|
    ensures Available(slots[s := x]) ==
            Available(slots) + (if x.Some? then 1 else 0) - (if slots[s].Some? then 1 else 0)
    decreases |slots|
  {
    var n := |slots| - 1;
    if s < n {
      AvailableUpdate(slots[..n], s, x);
      assert slots[s := x][..n] == slots[..n][s := x];
    } else {
      assert slots[s := x][..n] == slots[..n];
    }
  }

  lemma {:induction false} NoneAvailable(slots: Slots)
    requires forall s | 0 <= s < |slots| :: slots[s].None?
    ensures Available(slots) == 0
  {
    if slots != [] {
      NoneAvailable(slots[..|slots| - 1]);
    }
  }

  lemma {:induction false} AvailableBelow(slots: Slots, s: nat)
    requires s <= |slots|
    ensures Available(slots[..s]) <= Available(slots)
    decreases |slots|
  {
    if s < |slots| {
      AvailableBelow(slots[..|slots| - 1], s);
      assert slots[..|slots| - 1][..s] == slots[..s];
    } else {
      assert slots[..s] == slots;
    }
  }

  lemma {:induction false} AvailableMonotone(slots: Slots, s: nat)
    requires s <= |slots|
    ensures |Empties(slots[..s])| <= |Empties(slots)|
    decreases |slots|
  {
    if s < |slots| {
      AvailableMonotone(slots[..|slots| - 1], s);
      assert slots[..|slots| - 1][..s] == slots[..s];
    } else {
      assert slots[..s] == slots;
    }
  }

  // ---------- Filling slots from candidates ----------

  /** A transaction of the memory pool or the extra pool, with the hash it is listed under. */
  datatype Candidate = Candidate(hash: Hash256, tx: Tx)

  /** The slots agree with a block as far as they are filled. */
  ghost predicate Agrees(slots: Slots, block: seq<Tx>) {
    |slots| == |block| && forall s | 0 <= s < |slots| :: slots[s].Some? ==> slots[s].value == block[s]
  }

  /** Whatever candidate answers to the short id of a slot is the transaction of the block there. */
  ghost predicate NoCollision(short: Hash256 -> nat, ids: map<nat, nat>, candidates: seq<Candidate>, block: seq<Tx>) {
    forall i | 0 <= i < |candidates| :: Answers(short, ids, candidates[i], block)
  }

  ghost predicate Answers(short: Hash256 -> nat, ids: map<nat, nat>, c: Candidate, block: seq<Tx>) {
    short(c.hash) in ids ==> ids[short(c.hash)] < |block| && block[ids[short(c.hash)]] == c.tx
  }

  /** The prefilled slots are as they were; a slot that was filled since holds a candidate with the slot's short id. */
  ghost predicate SlotOk(short: Hash256 -> nat, ids: map<nat, nat>, all: seq<Candidate>, base: Slots, slots: Slots,
                         have: seq<bool>, s: nat) {
    s < |base| && |slots| == |base| == |have| ==>
      if base[s].Some? then slots[s] == base[s]
      else slots[s].Some? ==> have[s] && exists c :: c in all && Matches(short, ids, c, s) && slots[s].value == c.tx
  }

  ghost predicate Matches(short: Hash256 -> nat, ids: map<nat, nat>, c: Candidate, s: nat) {
    short(c.hash) in ids && ids[short(c.hash)] == s
  }

  ghost predicate Filling(short: Hash256 -> nat, ids: map<nat, nat>, all: seq<Candidate>, base: Slots, slots: Slots,
                          have: seq<bool>, count: int) {
    && |slots| == |base| == |have|
    && (forall s: nat :: SlotOk(short, ids, all, base, slots, have, s))
    && (forall id | id in ids :: ids[id] < |base| && base[ids[id]].None?)
    && count == Available(slots) - Available(base)
  }

  lemma FillingCount(short: Hash256 -> nat, ids: map<nat, nat>, all: seq<Candidate>, base: Slots, slots: Slots,
                     have: seq<bool>, count: int)
    requires Filling(short, ids, all, base, slots, have, count)
    ensures count >= 0
  {
    forall s | 0 <= s < |base|
      ensures base[s].Some? ==> slots[s].Some?
    {
      assert SlotOk(short, ids, all, base, slots, have, s);
    }
    AvailableAtLeast(base, slots);
  }

  lemma FillStep(short: Hash256 -> nat, ids: map<nat, nat>, all: seq<Candidate>, base: Slots, slots: Slots,
                 have: seq<bool>, count: int, c: Candidate)
    requires Filling(short, ids, all, base, slots, have, count) && c in all && short(c.hash) in ids
    ensures ids[short(c.hash)] < |slots|
    ensures
      var s := ids[short(c.hash)];
      !have[s] ==> Filling(short, ids, all, base, slots[s := Some(c.tx)], have[s := true], count + 1)
  {
    var s := ids[short(c.hash)];
    if !have[s] {
      assert SlotOk(short, ids, all, base, slots, have, s) && Matches(short, ids, c, s);
      AvailableUpdate(slots, s, Some(c.tx));
      var slots', have' := slots[s := Some(c.tx)], have[s := true];
      forall r: nat
        ensures SlotOk(short, ids, all, base, slots', have', r)
      {
        assert SlotOk(short, ids, all, base, slots, have, r);
      }
    }
  }

  lemma ResetStep(short: Hash256 -> nat, ids: map<nat, nat>, all: seq<Candidate>, base: Slots, slots: Slots,
                  have: seq<bool>, count: int, id: nat)
    requires Filling(short, ids, all, base, slots, have, count) && id in ids
    ensures ids[id] < |slots|
    ensures slots[ids[id]].Some? ==>
              Filling(short, ids, all, base, slots[ids[id] := None], have, count - 1) && count > 0
  {
    var s := ids[id];
    if slots[s].Some? {
      AvailableUpdate(slots, s, None);
      var slots' := slots[s := None];
      forall r: nat
        ensures SlotOk(short, ids, all, base, slots', have, r)
      {
        assert SlotOk(short, ids, all, base, slots, have, r);
      }
      FillingCount(short, ids, all, base, slots', have, count - 1);
    }
  }

  /** The k-th candidate is the only one that answers to the short id of slot s. */
  ghost predicate OnlyMatch(short: Hash256 -> nat, ids: map<nat, nat>, all: seq<Candidate>, s: nat, k: nat) {
    k < |all| && Matches(short, ids, all[k], s) && forall j | 0 <= j < |all| && j != k ::
          !Matches(short, ids, all[j], s)
  }

  /** After p candidates: if slot s has the k-th as its only one, then it holds it, or nothing was found for it yet. */
  ghost predicate ScannedAt(short: Hash256 -> nat, ids: map<nat, nat>, all: seq<Candidate>, slots: Slots,
                            have: seq<bool>, p: nat, s: nat, k: nat) {
    OnlyMatch(short, ids, all, s, k) && s < |slots| == |have| ==>
      if k < p then slots[s] == Some(all[k].tx) else !have[s]
  }

  ghost predicate Scanned(short: Hash256 -> nat, ids: map<nat, nat>, all: seq<Candidate>, slots: Slots, have: seq<bool>,
                          p: nat) {
    forall s: nat, k: nat :: ScannedAt(short, ids, all, slots, have, p, s, k)
  }

  lemma ScanStart(short: Hash256 -> nat, ids: map<nat, nat>, all: seq<Candidate>, slots: Slots, have: seq<bool>)
    requires forall s | 0 <= s < |have| :: !have[s]
    ensures Scanned(short, ids, all, slots, have, 0)
  {
  }

  /** One more candidate changes at most the slot that it answers to, and fills that if nothing was found for it. */
  lemma ScanStep(short: Hash256 -> nat, ids: map<nat, nat>, all: seq<Candidate>, slots: Slots, have: seq<bool>,
                 slots': Slots, have': seq<bool>, p: nat)
    requires Scanned(short, ids, all, slots, have, p) && p < |all| && |slots| == |have| == |slots'| == |have'|
    requires forall s: nat ::
               s < |slots| && !Matches(short, ids, all[p], s) ==> slots'[s] == slots[s] && have'[s] == have[s]
    requires forall s: nat :: s < |slots| && Matches(short, ids, all[p], s) && !have[s] ==> slots'[s] == Some(all[p].tx)
    ensures Scanned(short, ids, all, slots', have', p + 1)
  {
    var p' := p + 1;
    forall s: nat, k: nat
      ensures ScannedAt(short, ids, all, slots', have', p', s, k)
    {
      assert ScannedAt(short, ids, all, slots, have, p, s, k);
    }
  }

  /** When all slots are filled, no candidate that is left is the only one for its slot. */
  lemma ScanFull(short: Hash256 -> nat, ids: map<nat, nat>, all: seq<Candidate>, base: Slots, slots: Slots,
                 have: seq<bool>, count: int, p: nat, p': nat)
    requires Filling(short, ids, all, base, slots, have, count) && Scanned(short, ids, all, slots, have, p)
    requires count + Available(base) == |base| && p <= p'
    ensures Scanned(short, ids, all, slots, have, p')
  {
    forall s: nat, k: nat
      ensures ScannedAt(short, ids, all, slots, have, p', s, k)
    {
      assert ScannedAt(short, ids, all, slots, have, p, s, k);
      if OnlyMatch(short, ids, all, s, k) && s < |slots| && k >= p {
        AllFilled(slots, s);
        assert SlotOk(short, ids, all, base, slots, have, s);
      }
    }
  }

  lemma AllFilled(slots: Slots, s: nat)
    requires Available(slots) == |slots| && s < |slots|
    ensures slots[s].Some?
  {
    EmptiesCount(slots);
    if slots[s].None? {
      EmptiesAll(slots, s);
    }
  }

  lemma ScanEnd(short: Hash256 -> nat, ids: map<nat, nat>, all: seq<Candidate>, slots: Slots, have: seq<bool>)
    requires Scanned(short, ids, all, slots, have, |all|) && |slots| == |have|
    ensures forall s: nat, k: nat | s < |slots| && OnlyMatch(short, ids, all, s, k) :: slots[s] == Some(all[k].tx)
  {
    forall s: nat, k: nat | s < |slots| && OnlyMatch(short, ids, all, s, k)
      ensures slots[s] == Some(all[k].tx)
    {
      assert ScannedAt(short, ids, all, slots, have, |all|, s, k);
    }
  }

  /** How many slots hold a candidate. */
  function Held(slots: Slots, have: seq<bool>): nat
    requires |slots| == |have|
  {
    if slots == [] then 0 else
      var n := |slots| - 1;
      Held(slots[..n], have[..n]) + if slots[n].Some? && have[n] then 1 else 0
  }

  lemma {:induction false} HeldUpdate(slots: Slots, have: seq<bool>, s: nat, x: Option<Tx>, b: bool)
    requires |slots| == |have| && s < |slots|
    ensures Held(slots[s := x], have[s := b]) ==
            Held(slots, have) + (if x.Some? && b then 1 else 0) - (if slots[s].Some? && have[s] then 1 else 0)
    decreases |slots|
  {
    var n := |slots| - 1;
    if s < n {
      HeldUpdate(slots[..n], have[..n], s, x, b);
      assert slots[s := x][..n] == slots[..n][s := x] && have[s := b][..n] == have[..n][s := b];
    } else {
      assert slots[s := x][..n] == slots[..n] && have[s := b][..n] == have[..n];
    }
  }

  lemma {:induction false} NothingHeld(slots: Slots, have: seq<bool>)
    requires |slots| == |have| && forall s | 0 <= s < |have| :: !have[s]
    ensures Held(slots, have) == 0
  {
    if slots != [] {
      var n := |slots| - 1;
      NothingHeld(slots[..n], have[..n]);
    }
  }

  /** The short ids lead to slots that are empty before the pools are scanned. */
  ghost predicate ToEmpty(ids: map<nat, nat>, base: Slots) {
    && |ids| + Available(base) == |base|
    && forall id | id in ids :: ids[id] < |base| && base[ids[id]].None?
  }

  /** While the pools are scanned, after p candidates. */
  ghost predicate ScanOk(short: Hash256 -> nat, ids: map<nat, nat>, all: seq<Candidate>, base: Slots, slots: Slots,
                         have: seq<bool>, count: int, p: nat) {
    && |slots| == |have| == |base| && count == Held(slots, have)
    && (forall id | id in ids :: ids[id] < |slots|)
    && (ToEmpty(ids, base) ==>
          Filling(short, ids, all, base, slots, have, count) && Scanned(short, ids, all, slots, have, p))
  }

  lemma ScanRange(short: Hash256 -> nat, ids: map<nat, nat>, all: seq<Candidate>, base: Slots, slots: Slots,
                  have: seq<bool>, count: int, p: nat)
    requires ScanOk(short, ids, all, base, slots, have, count, p)
    ensures |slots| == |have| && forall id | id in ids :: ids[id] < |slots|
  {
    hide Filling, Scanned, Held, ToEmpty;
  }

  /** The first candidate for a slot. */
  lemma ScanFills(short: Hash256 -> nat, ids: map<nat, nat>, all: seq<Candidate>, base: Slots, slots: Slots,
                  have: seq<bool>, count: int, p: nat)
    requires ScanOk(short, ids, all, base, slots, have, count, p) && p < |all| && short(all[p].hash) in ids
    ensures
      var s := ids[short(all[p].hash)];
      s < |slots| == |have| &&
      (!have[s] ==> ScanOk(short, ids, all, base, slots[s := Some(all[p].tx)], have[s := true], count + 1, p + 1))
  {
    hide Filling, Scanned, Held, ToEmpty;
    var s, c := ids[short(all[p].hash)], all[p];
    if !have[s] {
      HeldUpdate(slots, have, s, Some(c.tx), true);
      if ToEmpty(ids, base) {
        FillStep(short, ids, all, base, slots, have, count, c);
        ScanStep(short, ids, all, slots, have, slots[s := Some(c.tx)], have[s := true], p);
      }
    }
  }

  /** Another one. */
  lemma ScanResets(short: Hash256 -> nat, ids: map<nat, nat>, all: seq<Candidate>, base: Slots, slots: Slots,
                   have: seq<bool>, count: int, p: nat)
    requires ScanOk(short, ids, all, base, slots, have, count, p) && p < |all| && short(all[p].hash) in ids
    ensures
      var s := ids[short(all[p].hash)];
      s < |slots| == |have| &&
      (have[s] && slots[s].Some? ==>
         count > 0 && ScanOk(short, ids, all, base, slots[s := None], have, count - 1, p + 1))
  {
    hide Filling, Scanned, Held, ToEmpty;
    var s := ids[short(all[p].hash)];
    if have[s] && slots[s].Some? {
      HeldUpdate(slots, have, s, None, true);
      assert have[s := true] == have;
      if ToEmpty(ids, base) {
        ResetStep(short, ids, all, base, slots, have, count, short(all[p].hash));
        ScanStep(short, ids, all, slots, have, slots[s := None], have, p);
      }
    }
  }

  /** A candidate that changes nothing: it answers to no short id, or something was found for its slot. */
  lemma ScanKeeps(short: Hash256 -> nat, ids: map<nat, nat>, all: seq<Candidate>, base: Slots, slots: Slots,
                  have: seq<bool>, count: int, p: nat)
    requires ScanOk(short, ids, all, base, slots, have, count, p) && p < |all|
    requires short(all[p].hash) in ids ==> ids[short(all[p].hash)] < |have| && have[ids[short(all[p].hash)]]
    ensures ScanOk(short, ids, all, base, slots, have, count, p + 1)
  {
    hide Filling, Scanned, Held, ToEmpty;
    if ToEmpty(ids, base) {
      ScanStep(short, ids, all, slots, have, slots, have, p);
    }
  }

  /** The early exit. */
  lemma ScanStops(short: Hash256 -> nat, ids: map<nat, nat>, all: seq<Candidate>, base: Slots, slots: Slots,
                  have: seq<bool>, count: int, p: nat, p': nat)
    requires ScanOk(short, ids, all, base, slots, have, count, p) && count == |ids| && p <= p'
    ensures ScanOk(short, ids, all, base, slots, have, count, p')
  {
    hide Filling, Scanned, Held;
    if ToEmpty(ids, base) {
      ScanFull(short, ids, all, base, slots, have, count, p, p');
    }
  }

  lemma ScanBegins(short: Hash256 -> nat, ids: map<nat, nat>, all: seq<Candidate>, shortTxIds: seq<nat>, base: Slots,
                   have: seq<bool>)
    requires MappedModulo(ids, shortTxIds, base) && EmptyBeyond(base) && |ids| == |shortTxIds| == |Empties(base)|
    requires |have| == |base| && forall s | 0 <= s < |have| :: !have[s]
    ensures ScanOk(short, ids, all, base, base, have, 0, 0)
    ensures |base| <= MAX_UINT16 + 1 ==> ToEmpty(ids, base)
  {
    hide Scanned, Held, Empties, Available;
    NothingHeld(base, have);
    EmptiesCount(base);
    forall id | id in ids
      ensures ids[id] < |base|
    {
      var k :| 0 <= k < |shortTxIds| && shortTxIds[k] == id;
      EmptiesAt(base, k);
    }
    if |base| <= MAX_UINT16 + 1 {
      ModuloIff(ids, shortTxIds, base);
      forall id | id in ids
        ensures base[ids[id]].None?
      {
        MappedSlots(ids, shortTxIds, base, id);
      }
    }
    ScanStart(short, ids, all, base, have);
  }

  lemma ScanEnds(short: Hash256 -> nat, ids: map<nat, nat>, all: seq<Candidate>, base: Slots, slots: Slots,
                 have: seq<bool>, count: int)
    requires ScanOk(short, ids, all, base, slots, have, count, |all|)
    ensures |slots| == |have| == |base| && count == Held(slots, have)
    ensures ToEmpty(ids, base) ==>
              && Filling(short, ids, all, base, slots, have, count)
              && forall s: nat, k: nat | s < |slots| && OnlyMatch(short, ids, all, s, k) :: slots[s] == Some(all[k].tx)
  {
    hide Filling, Scanned, Held, ToEmpty, OnlyMatch;
    if ToEmpty(ids, base) {
      ScanEnd(short, ids, all, slots, have);
    }
  }

  /** Without collisions the slots agree with the block, however they were filled. */
  lemma FillingAgrees(short: Hash256 -> nat, ids: map<nat, nat>, all: seq<Candidate>, base: Slots, slots: Slots,
                      have: seq<bool>, count: int, block: seq<Tx>)
    requires Filling(short, ids, all, base, slots, have, count) && NoCollision(short, ids, all, block)
             && Agrees(base, block)
    ensures Agrees(slots, block)
  {
    forall s | 0 <= s < |slots|
      ensures slots[s].Some? ==> slots[s].value == block[s]
    {
      assert SlotOk(short, ids, all, base, slots, have, s);
      if slots[s].Some? && base[s].None? {
        var c :| c in all && Matches(short, ids, c, s) && slots[s].value == c.tx;
        var i :| 0 <= i < |all| && all[i] == c;
        assert Answers(short, ids, all[i], block);
      }
    }
  }

  lemma {:induction false} AvailableAtLeast(a: Slots, b: Slots)
    requires |a| == |b| && forall s | 0 <= s < |a| :: a[s].Some? ==> b[s].Some?
    ensures Available(a) <= Available(b)
  {
    if a != [] {
      AvailableAtLeast(a[..|a| - 1], b[..|b| - 1]);
    }
  }

  /** The slots after all prefilled transactions are in place. */
  ghost predicate Placed(m: Message, slots: Slots) {
    && |slots| == m.BlockTxCount() && Available(slots) == |m.prefilled|
    && PlacedUpTo(m, slots, |m.prefilled|)
  }

  ghost predicate PlacedUpTo(m: Message, slots: Slots, n: nat) {
    (forall i: nat :: i < n ==> PlacedAt(m, slots, i)) && (forall s: nat :: TakenBy(m, slots, n, s))
  }

  /** A slot is taken only by one of the first n prefilled transactions. */
  ghost predicate TakenBy(m: Message, slots: Slots, n: nat, s: nat) {
    s < |slots| && slots[s].Some? ==> exists i: nat :: i < n && IsPrefilledSlot(m, i, s)
  }

  ghost predicate IsPrefilledSlot(m: Message, i: nat, s: nat) {
    i < |m.prefilled| && PrefilledSlot(m.prefilled, i) == s
  }

  ghost predicate PlacedAt(m: Message, slots: Slots, i: nat) {
    i < |m.prefilled| ==>
      var s := PrefilledSlot(m.prefilled, i);
      s < |slots| && slots[s] == Some(m.prefilled[i].tx)
  }

  /** The k-th short id stands for the k-th slot that the prefilled transactions leave empty. */
  ghost predicate Mapped(ids: map<nat, nat>, shortTxIds: seq<nat>, slots: Slots) {
    && |Empties(slots)| == |shortTxIds|
    && (forall k | 0 <= k < |shortTxIds| :: shortTxIds[k] in ids && ids[shortTxIds[k]] == Empties(slots)[k])
    && (forall id | id in ids :: id in shortTxIds)
  }

  /** The same with slots as 16-bit numbers, which is what the code computes. */
  ghost predicate MappedModulo(ids: map<nat, nat>, shortTxIds: seq<nat>, slots: Slots) {
    && |Empties(slots)| == |shortTxIds|
    && (forall k | 0 <= k < |shortTxIds| ::
          shortTxIds[k] in ids && ids[shortTxIds[k]] == Empties(slots)[k] % (MAX_UINT16 + 1))
    && (forall id | id in ids :: id in shortTxIds)
  }

  /** No prefilled transaction lies beyond the 16-bit slots. */
  ghost predicate EmptyBeyond(slots: Slots) {
    forall s | MAX_UINT16 < s < |slots| :: slots[s].None?
  }

  /** The mapping is right exactly for blocks of at most 65536 transactions. */
  lemma ModuloIff(ids: map<nat, nat>, shortTxIds: seq<nat>, slots: Slots)
    requires MappedModulo(ids, shortTxIds, slots) && EmptyBeyond(slots)
    ensures Mapped(ids, shortTxIds, slots) <==> |slots| <= MAX_UINT16 + 1
  {
    hide Empties;
    forall k: nat | k < |shortTxIds|
      ensures Empties(slots)[k] < |slots|
    {
      EmptiesAt(slots, k);
    }
    if |slots| > MAX_UINT16 + 1 {
      EmptiesAll(slots, MAX_UINT16 + 1);
    }
  }

  ghost predicate Shared(ids: map<nat, nat>, id: nat, other: nat) {
    id in ids && other in ids && id != other && ids[id] == ids[other]
  }

  /** A slot that is empty like the one 65536 further. */
  ghost predicate EmptyTwice(slots: Slots, s: nat) {
    s < |slots| - (MAX_UINT16 + 1) && slots[s].None?
  }

  /** Beyond that, two short ids share a slot exactly if some slot and the one 65536 further are both left empty. */
  lemma SharedIff(ids: map<nat, nat>, shortTxIds: seq<nat>, slots: Slots)
    requires MappedModulo(ids, shortTxIds, slots) && EmptyBeyond(slots) && |slots| <= 2 * (MAX_UINT16 + 1)
    requires DistinctIds(shortTxIds, |shortTxIds|)
    ensures (exists id, other :: Shared(ids, id, other)) <==> exists s: nat :: EmptyTwice(slots, s)
  {
    hide Shared, EmptyTwice, MappedModulo, EmptyBeyond, DistinctIds;
    forall id, other | Shared(ids, id, other)
      ensures exists s: nat :: EmptyTwice(slots, s)
    {
      var s := SharedSlot(ids, shortTxIds, slots, id, other);
    }
    forall s: nat | EmptyTwice(slots, s)
      ensures exists id, other :: Shared(ids, id, other)
    {
      var id, other := SharingIds(ids, shortTxIds, slots, s);
    }
  }

  lemma SharedSlot(ids: map<nat, nat>, shortTxIds: seq<nat>, slots: Slots, id: nat, other: nat) returns (s: nat)
    requires MappedModulo(ids, shortTxIds, slots) && |slots| <= 2 * (MAX_UINT16 + 1) && Shared(ids, id, other)
    ensures EmptyTwice(slots, s)
  {
    hide Empties;
    var j: nat :| j < |shortTxIds| && shortTxIds[j] == id;
    var k: nat :| k < |shortTxIds| && shortTxIds[k] == other;
    EmptiesAt(slots, j);
    EmptiesAt(slots, k);
    if j < k {
      EmptiesAscend(slots, j, k);
      s := Empties(slots)[j];
    } else {
      EmptiesAscend(slots, k, j);
      s := Empties(slots)[k];
    }
  }

  lemma SharingIds(ids: map<nat, nat>, shortTxIds: seq<nat>, slots: Slots, s: nat) returns (id: nat, other: nat)
    requires MappedModulo(ids, shortTxIds, slots) && EmptyBeyond(slots) && DistinctIds(shortTxIds, |shortTxIds|)
    requires EmptyTwice(slots, s)
    ensures Shared(ids, id, other)
  {
    hide Empties;
    var r := s + MAX_UINT16 + 1;
    var j, k := |Empties(slots[..s])|, |Empties(slots[..r])|;
    EmptiesAll(slots, s);
    EmptiesAll(slots, r);
    id, other := shortTxIds[j], shortTxIds[k];
    assert j < k || k < j;
  }

  lemma PlacedBelow(m: Message, slots: Slots)
    requires Placed(m, slots) && forall i: nat :: i < |m.prefilled| ==> PrefilledOk(m, i)
    ensures EmptyBeyond(slots)
  {
    forall i: nat, s: nat | i < |m.prefilled| && IsPrefilledSlot(m, i, s)
      ensures s <= MAX_UINT16
    {
      assert PrefilledOk(m, i);
    }
    forall s | MAX_UINT16 < s < |slots|
      ensures slots[s].None?
    {
      assert TakenBy(m, slots, |m.prefilled|, s);
    }
  }

  ghost predicate DistinctIds(shortTxIds: seq<nat>, n: nat) {
    forall j, k | 0 <= j < k < n && k < |shortTxIds| :: shortTxIds[j] != shortTxIds[k]
  }

  /** One-to-one and in range. */
  lemma MappedSlots(ids: map<nat, nat>, shortTxIds: seq<nat>, slots: Slots, id: nat)
    requires Mapped(ids, shortTxIds, slots) && id in ids
    ensures ids[id] < |slots| && slots[ids[id]].None?
    ensures forall other | other in ids && ids[other] == ids[id] :: other == id
  {
    var k :| 0 <= k < |shortTxIds| && shortTxIds[k] == id;
    EmptiesAt(slots, k);
    forall other | other in ids && ids[other] == ids[id]
      ensures other == id
    {
      var j :| 0 <= j < |shortTxIds| && shortTxIds[j] == other;
      if j < k {
        EmptiesAscend(slots, j, k);
      } else if k < j {
        EmptiesAscend(slots, k, j);
      }
    }
  }

  // ---------- Receiving ----------

  datatype Status = Ok | Invalid | Failed | CheckBlockFailed

  class PartiallyDownloadedBlock {
    var headerIsNull: bool
    var txnAvailable: Slots
    var prefilledCount: nat
    var mempoolCount: nat
    var extraCount: nat

    constructor ()
      ensures headerIsNull && txnAvailable == [] && prefilledCount == mempoolCount == extraCount == 0
    {
      headerIsNull, txnAvailable := true, [];
      prefilledCount, mempoolCount, extraCount := 0, 0, 0;
    }

    /** The first loop of `InitData`. */
    method PlacePrefilled(m: Message) returns (ok: bool)
      modifies this`txnAvailable
      ensures ok <==> forall i: nat :: i < |m.prefilled| ==> PrefilledOk(m, i)
      ensures ok ==> Placed(m, txnAvailable)
    {
      txnAvailable := seq(m.BlockTxCount(), _ => None);
      NoneAvailable(txnAvailable);
      var lastPrefilledIndex := -1;
      var i := 0;
      while i < |m.prefilled|
        invariant 0 <= i <= |m.prefilled| && |txnAvailable| == m.BlockTxCount() && Available(txnAvailable) == i
        invariant lastPrefilledIndex == if i == 0 then -1 else PrefilledSlot(m.prefilled, i - 1)
        invariant forall j: nat :: j < i ==> PrefilledOk(m, j)
        invariant PlacedUpTo(m, txnAvailable, i)
      {
        if m.prefilled[i].tx.isNull {
          assert !PrefilledOk(m, i);
          return false;
        }
        lastPrefilledIndex := lastPrefilledIndex + m.prefilled[i].index + 1;
        assert lastPrefilledIndex == PrefilledSlot(m.prefilled, i);
        if lastPrefilledIndex > MAX_UINT16 {
          assert !PrefilledOk(m, i);
          return false;
        }
        if lastPrefilledIndex > |m.shortTxIds| + i {
          assert !PrefilledOk(m, i);
          return false;
        }
        PlaceStep(m, txnAvailable, i);
        txnAvailable := txnAvailable[lastPrefilledIndex := Some(m.prefilled[i].tx)];
        i := i + 1;
      }
      ok := true;
    }

    /** The second loop of `InitData`: finds the empty slots one after the other, with 16-bit indices. Whether a
        bucket of the hash table gets too full is an arbitrary choice. */
    method MapShortIds(shortTxIds: seq<nat>) returns (ok: bool, ids: map<nat, nat>, crowded: bool)
      requires |Empties(txnAvailable)| == |shortTxIds| && (shortTxIds != [] ==> Available(txnAvailable) <= MAX_UINT16)
      ensures ok ==> DistinctIds(shortTxIds, |shortTxIds|) && MappedModulo(ids, shortTxIds,
                                                                           txnAvailable) && |ids| == |shortTxIds|
      ensures !ok && !crowded ==> !DistinctIds(shortTxIds, |shortTxIds|)
    {
      hide Empties, Available, MappedSoFar, MappedModulo, DistinctIds;
      ids, crowded := map[], false;
      var indexOffset := 0;
      ghost var slots := Wrapped(Empties(txnAvailable));
      MapStart(shortTxIds, slots);
      NoEmpties();
      assert txnAvailable[..0] == [];
      var i := 0;
      while i < |shortTxIds|
        invariant 0 <= i <= |shortTxIds| && 0 <= indexOffset && i + indexOffset <= |txnAvailable|
        invariant |Empties(txnAvailable[..i + indexOffset])| == i
        invariant MappedSoFar(ids, shortTxIds, slots, i)
      {
        indexOffset := SkipTaken(i, indexOffset);
        MapStep(ids, shortTxIds, slots, i);
        ids := ids[shortTxIds[i] := (i + indexOffset) % (MAX_UINT16 + 1)];
        var bucketFull := *;
        if bucketFull {
          return false, ids, true;
        }
        i := i + 1;
      }
      MapEnd(ids, shortTxIds, txnAvailable);
      ok := |ids.Keys| == |shortTxIds|;
    }

    /** The inner loop: on to the next empty slot, which is the i-th. */
    method SkipTaken(i: nat, offset: nat) returns (indexOffset: nat)
      requires Available(txnAvailable) <= MAX_UINT16 && i + offset <= |txnAvailable|
      requires |Empties(txnAvailable[..i + offset])| == i < |Empties(txnAvailable)|
      ensures i + indexOffset < |txnAvailable| && Empties(txnAvailable)[i] == i + indexOffset
      ensures |Empties(txnAvailable[..i + indexOffset + 1])| == i + 1
    {
      hide Empties, Available;
      indexOffset := offset;
      SlotLeft(txnAvailable, i + indexOffset);
      while txnAvailable[i + indexOffset].Some?
        invariant i + indexOffset < |txnAvailable|
        invariant |Empties(txnAvailable[..i + indexOffset])| == i
        decreases |txnAvailable| - indexOffset
      {
        EmptiesNext(txnAvailable, i + indexOffset);
        SlotLeft(txnAvailable, i + indexOffset + 1);
        OffsetFits(txnAvailable, i, indexOffset + 1);
        indexOffset := (indexOffset + 1) % (MAX_UINT16 + 1);
      }
      EmptiesAll(txnAvailable, i + indexOffset);
      EmptiesNext(txnAvailable, i + indexOffset);
    }

    /** The loop of `InitData` over the memory pool. Two candidates for one slot leave it empty. */
    method ScanPool(short: Hash256 -> nat, ids: map<nat, nat>, pool: seq<Candidate>, have0: seq<bool>,
                    ghost all: seq<Candidate>, ghost base: Slots)
      returns (have: seq<bool>)
      requires ScanOk(short, ids, all, base, txnAvailable, have0, mempoolCount, 0)
      requires |pool| <= |all| && pool == all[..|pool|]
      modifies this`txnAvailable, this`mempoolCount
      ensures ScanOk(short, ids, all, base, txnAvailable, have, mempoolCount, |pool|)
    {
      hide ScanOk, Matches;
      have := have0;
      var i := 0;
      while i < |pool|
        invariant 0 <= i <= |pool| && ScanOk(short, ids, all, base, txnAvailable, have, mempoolCount, i)
      {
        var c := pool[i];
        assert c == all[i];
        ScanRange(short, ids, all, base, txnAvailable, have, mempoolCount, i);
        var shortId := short(c.hash);
        if shortId in ids {
          var s := ids[shortId];
          if !have[s] {
            ScanFills(short, ids, all, base, txnAvailable, have, mempoolCount, i);
            txnAvailable := txnAvailable[s := Some(c.tx)];
            have := have[s := true];
            mempoolCount := mempoolCount + 1;
          } else if txnAvailable[s].Some? {
            ScanResets(short, ids, all, base, txnAvailable, have, mempoolCount, i);
            txnAvailable := txnAvailable[s := None];
            mempoolCount := mempoolCount - 1;
          } else {
            ScanKeeps(short, ids, all, base, txnAvailable, have, mempoolCount, i);
          }
        } else {
          ScanKeeps(short, ids, all, base, txnAvailable, have, mempoolCount, i);
        }
        if mempoolCount == |ids| {
          ScanStops(short, ids, all, base, txnAvailable, have, mempoolCount, i + 1, |pool|);
          return;
        }
        i := i + 1;
      }
    }

    /** The loop over the extra transactions; here a second candidate counts only if it differs. The counter of extra
        transactions is a 64-bit number that wraps around. */
    method ScanExtra(short: Hash256 -> nat, ids: map<nat, nat>, extra: seq<Candidate>, have0: seq<bool>,
                     ghost all: seq<Candidate>, ghost base: Slots, ghost n: nat)
      returns (have: seq<bool>)
      requires ScanOk(short, ids, all, base, txnAvailable, have0, mempoolCount, n)
      requires n <= |all| && extra == all[n..]
      modifies this`txnAvailable, this`mempoolCount, this`extraCount
      ensures ScanOk(short, ids, all, base, txnAvailable, have, mempoolCount, |all|)
    {
      hide ScanOk, Matches;
      have := have0;
      var i := 0;
      while i < |extra|
        invariant 0 <= i <= |extra| && ScanOk(short, ids, all, base, txnAvailable, have, mempoolCount, n + i)
      {
        var c := extra[i];
        assert c == all[n + i];
        ScanRange(short, ids, all, base, txnAvailable, have, mempoolCount, n + i);
        var shortId := short(c.hash);
        if shortId in ids {
          var s := ids[shortId];
          if !have[s] {
            ScanFills(short, ids, all, base, txnAvailable, have, mempoolCount, n + i);
            txnAvailable := txnAvailable[s := Some(c.tx)];
            have := have[s := true];
            mempoolCount := mempoolCount + 1;
            extraCount := (extraCount + 1) % TWO_64;
          } else if txnAvailable[s].Some? && txnAvailable[s].value.witnessHash != c.tx.witnessHash {
            ScanResets(short, ids, all, base, txnAvailable, have, mempoolCount, n + i);
            txnAvailable := txnAvailable[s := None];
            mempoolCount := mempoolCount - 1;
            extraCount := (extraCount + TWO_64 - 1) % TWO_64;
          } else {
            ScanKeeps(short, ids, all, base, txnAvailable, have, mempoolCount, n + i);
          }
        } else {
          ScanKeeps(short, ids, all, base, txnAvailable, have, mempoolCount, n + i);
        }
        if mempoolCount == |ids| {
          ScanStops(short, ids, all, base, txnAvailable, have, mempoolCount, n + i + 1, |all|);
          return;
        }
        i := i + 1;
      }
    }

    /** Whatever the message and the pools, every index is in range. An accepted message maps its short ids in order
        to the slots that the prefilled transactions leave empty, as 16-bit numbers. If these are the slots
        themselves, then they hold only candidates that answer to them, and a slot with just one such candidate holds
        it. The result is `Failed` only for a collision among the short ids or a crowded hash table. */
    method InitData(m: Message, short: Hash256 -> nat, pool: seq<Candidate>, extra: seq<Candidate>)
      returns (status: Status, ghost ids: map<nat, nat>, ghost base: Slots, ghost have: seq<bool>, ghost crowded: bool)
      requires headerIsNull && txnAvailable == [] && mempoolCount == 0
               && (m.shortTxIds != [] ==> |m.prefilled| <= MAX_UINT16)
      modifies this
      ensures status == Ok || status == Invalid || status == Failed
      ensures status == Invalid <==>
                || m.headerIsNull || (m.shortTxIds == [] && m.prefilled == [])
                || m.BlockTxCount() > MAX_BLOCK_BASE_SIZE / MIN_TRANSACTION_BASE_SIZE
                || exists i: nat :: i < |m.prefilled| && !PrefilledOk(m, i)
      ensures status == Failed && !crowded ==> !DistinctIds(m.shortTxIds, |m.shortTxIds|)
      ensures status == Ok ==>
                && !headerIsNull && Placed(m, base) && EmptyBeyond(base) && MappedModulo(ids, m.shortTxIds, base)
                && |txnAvailable| == |have| == m.BlockTxCount() && mempoolCount == Held(txnAvailable, have)
      ensures status == Ok && m.BlockTxCount() <= MAX_UINT16 + 1 ==>
                && Mapped(ids, m.shortTxIds, base)
                && Filling(short, ids, pool + extra, base, txnAvailable, have, mempoolCount)
                && prefilledCount == Available(base)
                && forall s: nat, k: nat | s < |txnAvailable| && OnlyMatch(short, ids, pool + extra, s, k) ::
                     txnAvailable[s] == Some((pool + extra)[k].tx)
    {
      hide Filling, Placed, Mapped, MappedModulo, EmptyBeyond, ScanOk, OnlyMatch, Held, Available, Empties;
      ids, base, have, crowded := map[], [], [], false;
      if m.headerIsNull || (m.shortTxIds == [] && m.prefilled == []) {
        return Invalid, ids, base, have, crowded;
      }
      if |m.shortTxIds| + |m.prefilled| > MAX_BLOCK_BASE_SIZE / MIN_TRANSACTION_BASE_SIZE {
        return Invalid, ids, base, have, crowded;
      }
      headerIsNull := false;
      var ok := PlacePrefilled(m);
      if !ok {
        return Invalid, ids, base, have, crowded;
      }
      prefilledCount := |m.prefilled|;
      base := txnAvailable;
      PlacedEmpties(m, base);
      PlacedBelow(m, base);
      var found, full;
      ok, found, full := MapShortIds(m.shortTxIds);
      ids, crowded := found, full;
      if !ok {
        return Failed, ids, base, have, crowded;
      }
      ModuloIff(found, m.shortTxIds, base);
      var haveTxn := seq(|txnAvailable|, _ => false);
      ScanBegins(short, found, pool + extra, m.shortTxIds, base, haveTxn);
      haveTxn := ScanPool(short, found, pool, haveTxn, pool + extra, base);
      haveTxn := ScanExtra(short, found, extra, haveTxn, pool + extra, base, |pool|);
      ScanEnds(short, found, pool + extra, base, txnAvailable, haveTxn, mempoolCount);
      have := haveTxn;
      status := Ok;
    }

    /** Fills the empty slots with the missing transactions in order. A slot that is used is left empty. */
    method FillBlock(vtxMissing: seq<Tx>, checks: bool, corruptionPossible: bool) returns (status: Status, vtx: seq<Tx>)
      requires !headerIsNull
      modifies this`headerIsNull, this`txnAvailable
      ensures status == Ok <==> |vtxMissing| == |Empties(old(txnAvailable))| && checks
      ensures status == Invalid <==> |vtxMissing| != |Empties(old(txnAvailable))|
      ensures headerIsNull <==> |vtxMissing| >= |Empties(old(txnAvailable))|
      ensures headerIsNull ==> txnAvailable == []
      ensures status != Invalid ==> |vtx| == |old(txnAvailable)| && forall s | 0 <= s < |vtx| ::
                FilledAt(old(txnAvailable), vtxMissing, vtx, s)
    {
      hide Empties, FilledAt;
      ghost var slots := txnAvailable;
      vtx := [];
      NoEmpties();
      assert slots[..0] == [];
      var txMissingOffset := 0;
      var i := 0;
      while i < |txnAvailable|
        invariant !headerIsNull && 0 <= i <= |slots| == |txnAvailable| && |vtx| == i
        invariant txMissingOffset == |Empties(slots[..i])| <= |vtxMissing|
        invariant forall s | i <= s < |slots| :: txnAvailable[s] == slots[s]
        invariant forall s | 0 <= s < i :: FilledAt(slots, vtxMissing, vtx, s)
      {
        EmptiesNext(slots, i);
        AvailableMonotone(slots, i + 1);
        if txnAvailable[i].None? {
          if |vtxMissing| <= txMissingOffset {
            return Invalid, vtx;
          }
          FillNext(slots, vtxMissing, vtx, i, vtxMissing[txMissingOffset]);
          vtx := vtx + [vtxMissing[txMissingOffset]];
          txMissingOffset := txMissingOffset + 1;
        } else {
          FillNext(slots, vtxMissing, vtx, i, txnAvailable[i].value);
          vtx := vtx + [txnAvailable[i].value];
          txnAvailable := txnAvailable[i := None];
        }
        i := i + 1;
      }
      assert slots[..i] == slots;
      headerIsNull := true;
      txnAvailable := [];
      if |vtxMissing| != txMissingOffset {
        return Invalid, vtx;
      }
      if !checks {
        return if corruptionPossible then Failed else CheckBlockFailed, vtx;
      }
      status := Ok;
    }
  }

  lemma PlaceStep(m: Message, slots: Slots, i: nat)
    requires i < |m.prefilled| && |slots| == m.BlockTxCount() && PrefilledSlot(m.prefilled, i) < |slots|
    requires PlacedUpTo(m, slots, i)
    ensures
      var slots' := slots[PrefilledSlot(m.prefilled, i) := Some(m.prefilled[i].tx)];
      Available(slots') == Available(slots) + 1 && PlacedUpTo(m, slots', i + 1)
  {
    var s, n := PrefilledSlot(m.prefilled, i), i + 1;
    var slots' := slots[s := Some(m.prefilled[i].tx)];
    assert IsPrefilledSlot(m, i, s);
    forall j: nat | j < n
      ensures PlacedAt(m, slots', j)
    {
      if j < i {
        PrefilledAscend(m.prefilled, j, i);
        assert PlacedAt(m, slots, j);
      }
    }
    forall r: nat
      ensures TakenBy(m, slots', n, r)
    {
      assert TakenBy(m, slots, i, r);
    }
    assert slots[s].None? by {
      assert TakenBy(m, slots, i, s);
      if slots[s].Some? {
        var j: nat :| j < i && IsPrefilledSlot(m, j, s);
        PrefilledAscend(m.prefilled, j, i);
      }
    }
    AvailableUpdate(slots, s, Some(m.prefilled[i].tx));
  }

  // ---------- Steps of the mapping ----------

  lemma NoEmpties()
    ensures Empties([]) == []
  {
  }

  lemma EmptiesNext(slots: Slots, s: nat)
    requires s < |slots|
    ensures Empties(slots[..s + 1]) == Empties(slots[..s]) + if slots[s].None? then [s] else []
  {
    assert slots[..s + 1][..s] == slots[..s];
  }

  /** As long as fewer slots than there are have been found, the end is not reached. */
  lemma SlotLeft(slots: Slots, s: nat)
    requires s <= |slots| && |Empties(slots[..s])| < |Empties(slots)|
    ensures s < |slots|
  {
    assert slots[..|slots|] == slots;
  }

  /** The offset counts the taken slots so far. */
  lemma OffsetFits(slots: Slots, i: nat, offset: nat)
    requires i + offset <= |slots| && |Empties(slots[..i + offset])| == i && Available(slots) <= MAX_UINT16
    ensures offset <= MAX_UINT16
  {
    hide Empties, Available;
    EmptiesCount(slots[..i + offset]);
    AvailableBelow(slots, i + offset);
  }

  function Wrapped(slots: seq<nat>): (r: seq<nat>)
    ensures |r| == |slots| && forall k | 0 <= k < |r| :: r[k] == slots[k] % (MAX_UINT16 + 1)
  {
    seq(|slots|, k requires 0 <= k < |slots| => slots[k] % (MAX_UINT16 + 1))
  }

  ghost predicate IdBefore(shortTxIds: seq<nat>, n: nat, id: nat) {
    exists k: nat :: k < n && k < |shortTxIds| && shortTxIds[k] == id
  }

  /** Distinct ids so far lead to the first empty slots; otherwise the map is too small. */
  ghost predicate MappedSoFar(ids: map<nat, nat>, shortTxIds: seq<nat>, empties: seq<nat>, n: nat)
    requires n <= |shortTxIds| == |empties|
  {
    && (forall id: nat :: id in ids <==> IdBefore(shortTxIds, n, id))
    && if DistinctIds(shortTxIds, n) then
         |ids.Keys| == n && forall k: nat :: k < n ==> LeadsTo(ids, shortTxIds[k], empties[k])
       else
         |ids.Keys| < n
  }

  predicate LeadsTo(ids: map<nat, nat>, id: nat, slot: nat) {
    id in ids && ids[id] == slot
  }

  lemma MapStart(shortTxIds: seq<nat>, empties: seq<nat>)
    requires |shortTxIds| == |empties|
    ensures MappedSoFar(map[], shortTxIds, empties, 0)
  {
  }

  lemma IdBeforeNext(shortTxIds: seq<nat>, n: nat, id: nat)
    requires n < |shortTxIds|
    ensures IdBefore(shortTxIds, n + 1, id) <==> IdBefore(shortTxIds, n, id) || id == shortTxIds[n]
  {
  }

  lemma DistinctNext(shortTxIds: seq<nat>, n: nat)
    requires n < |shortTxIds|
    ensures DistinctIds(shortTxIds, n + 1) <==> DistinctIds(shortTxIds, n) && !IdBefore(shortTxIds, n, shortTxIds[n])
  {
  }

  lemma MapStep(ids: map<nat, nat>, shortTxIds: seq<nat>, empties: seq<nat>, n: nat)
    requires n < |shortTxIds| == |empties| && MappedSoFar(ids, shortTxIds, empties, n)
    ensures MappedSoFar(ids[shortTxIds[n] := empties[n]], shortTxIds, empties, n + 1)
  {
    hide IdBefore, DistinctIds;
    var id := shortTxIds[n];
    var ids' := ids[id := empties[n]];
    assert ids'.Keys == ids.Keys + {id};
    DistinctNext(shortTxIds, n);
    forall x: nat
      ensures x in ids' <==> IdBefore(shortTxIds, n + 1, x)
    {
      IdBeforeNext(shortTxIds, n, x);
    }
    if DistinctIds(shortTxIds, n + 1) {
      forall k: nat | k < n + 1
        ensures LeadsTo(ids', shortTxIds[k], empties[k])
      {
        if k < n {
          assert LeadsTo(ids, shortTxIds[k], empties[k]);
        }
      }
    }
  }

  lemma MapEnd(ids: map<nat, nat>, shortTxIds: seq<nat>, slots: Slots)
    requires |Empties(slots)| == |shortTxIds| && MappedSoFar(ids, shortTxIds, Wrapped(Empties(slots)), |shortTxIds|)
    ensures |ids.Keys| == |shortTxIds| <==> DistinctIds(shortTxIds, |shortTxIds|)
    ensures |ids.Keys| == |shortTxIds| ==> MappedModulo(ids, shortTxIds, slots)
  {
    forall id | id in ids
      ensures id in shortTxIds
    {
      assert IdBefore(shortTxIds, |shortTxIds|, id);
    }
    if |ids.Keys| == |shortTxIds| {
      forall k: nat | k < |shortTxIds|
        ensures shortTxIds[k] in ids && ids[shortTxIds[k]] == Empties(slots)[k] % (MAX_UINT16 + 1)
      {
        assert LeadsTo(ids, shortTxIds[k], Wrapped(Empties(slots))[k]);
      }
    }
  }

  lemma PlacedEmpties(m: Message, slots: Slots)
    requires Placed(m, slots)
    ensures |slots| == m.BlockTxCount() && |Empties(slots)| == |m.shortTxIds| && Available(slots) == |m.prefilled|
  {
    EmptiesCount(slots);
  }

  // ---------- Reconstruction ----------

  /** A slot of the finished block: what was available, or the next of the missing ones. */
  ghost predicate FilledAt(slots: Slots, missing: seq<Tx>, vtx: seq<Tx>, s: nat) {
    s < |slots| && s < |vtx| &&
    if slots[s].Some? then vtx[s] == slots[s].value
    else |Empties(slots[..s])| < |missing| && vtx[s] == missing[|Empties(slots[..s])|]
  }

  lemma FillNext(slots: Slots, missing: seq<Tx>, vtx: seq<Tx>, i: nat, tx: Tx)
    requires i < |slots| && |vtx| == i && forall s | 0 <= s < i :: FilledAt(slots, missing, vtx, s)
    requires if slots[i].Some? then tx == slots[i].value
             else |Empties(slots[..i])| < |missing| && tx == missing[|Empties(slots[..i])|]
    ensures forall s | 0 <= s < i + 1 :: FilledAt(slots, missing, vtx + [tx], s)
  {
    hide Empties;
    var vtx' := vtx + [tx];
    forall s | 0 <= s < i + 1
      ensures FilledAt(slots, missing, vtx', s)
    {
      assert s < i ==> FilledAt(slots, missing, vtx, s);
    }
  }

  /** The transactions of the block that are not available, in order. */
  function MissingOf(slots: Slots, block: seq<Tx>): seq<Tx>
    requires |slots| == |block|
  {
    if slots == [] then [] else
      MissingOf(slots[..|slots| - 1], block[..|block| - 1]) + if slots[|slots| - 1].None? then [block[|block| - 1]]
          else []
  }

  lemma {:induction false} MissingAt(slots: Slots, block: seq<Tx>, s: nat)
    requires |slots| == |block| && s < |slots| && slots[s].None?
    ensures |MissingOf(slots, block)| == |Empties(slots)|
    ensures |Empties(slots[..s])| < |Empties(slots)| && MissingOf(slots, block)[|Empties(slots[..s])|] == block[s]
    decreases |slots|
  {
    var n := |slots| - 1;
    MissingLength(slots[..n], block[..n]);
    if s < n {
      MissingAt(slots[..n], block[..n], s);
      assert slots[..n][..s] == slots[..s];
    }
  }

  lemma {:induction false} MissingLength(slots: Slots, block: seq<Tx>)
    requires |slots| == |block|
    ensures |MissingOf(slots, block)| == |Empties(slots)|
  {
    if slots != [] {
      MissingLength(slots[..|slots| - 1], block[..|block| - 1]);
    }
  }

  /** Slots that agree with the block, filled with its missing transactions, give the block. */
  lemma Rebuilt(slots: Slots, block: seq<Tx>, vtx: seq<Tx>)
    requires Agrees(slots, block) && |vtx| == |slots|
    requires forall s | 0 <= s < |vtx| :: FilledAt(slots, MissingOf(slots, block), vtx, s)
    ensures vtx == block
  {
    hide Empties, MissingOf;
    forall s | 0 <= s < |vtx|
      ensures vtx[s] == block[s]
    {
      assert FilledAt(slots, MissingOf(slots, block), vtx, s);
      if slots[s].None? {
        MissingAt(slots, block, s);
      }
    }
  }

  function IdHash(tx: Tx, useWtxid: bool): Hash256 {
    if useWtxid then tx.witnessHash else tx.hash
  }

  /** The message of a block (`CBlockHeaderAndShortTxIDs`): the coinbase prefilled, short ids for the rest. */
  method MakeMessage(block: seq<Tx>, short: Hash256 -> nat, useWtxid: bool) returns (m: Message)
    requires |block| >= 1
    ensures !m.headerIsNull && m.prefilled == [Prefilled(0, block[0])] && |m.shortTxIds| == |block| - 1
    ensures forall i | 1 <= i < |block| :: m.shortTxIds[i - 1] == short(IdHash(block[i], useWtxid))
  {
    var shortTxIds := [];
    var i := 1;
    while i < |block|
      invariant 1 <= i <= |block| && |shortTxIds| == i - 1
      invariant forall j | 1 <= j < i :: shortTxIds[j - 1] == short(IdHash(block[j], useWtxid))
    {
      shortTxIds := shortTxIds + [short(IdHash(block[i], useWtxid))];
      i := i + 1;
    }
    m := Message(false, shortTxIds, [Prefilled(0, block[0])]);
  }

  /** Of a message with only the coinbase prefilled, the k-th short id stands for slot k + 1. */
  lemma {:induction false} CoinbaseOnly(slots: Slots)
    requires |slots| >= 1 && slots[0].Some? && forall s | 1 <= s < |slots| :: slots[s].None?
    ensures |Empties(slots)| == |slots| - 1 && forall k | 0 <= k < |slots| - 1 :: Empties(slots)[k] == k + 1
  {
    if |slots| > 1 {
      CoinbaseOnly(slots[..|slots| - 1]);
    } else {
      assert slots[..0] == [];
    }
  }

  /** The short ids of the block are distinct, and no candidate has the short id of another transaction. */
  ghost predicate CollisionFree(block: seq<Tx>, short: Hash256 -> nat, useWtxid: bool, all: seq<Candidate>) {
    && (forall i, j | 1 <= i < j < |block| :: short(IdHash(block[i], useWtxid)) != short(IdHash(block[j], useWtxid)))
    && (forall c, i | c in all && 1 <= i < |block| ::
          short(c.hash) == short(IdHash(block[i], useWtxid)) ==> c.tx == block[i])
  }

  lemma BlockMapped(block: seq<Tx>, short: Hash256 -> nat, useWtxid: bool, all: seq<Candidate>, m: Message, base: Slots,
                    ids: map<nat, nat>)
    requires |block| >= 1 && m.prefilled == [Prefilled(0, block[0])] && |m.shortTxIds| == |block| - 1
    requires forall i | 1 <= i < |block| :: m.shortTxIds[i - 1] == short(IdHash(block[i], useWtxid))
    requires CollisionFree(block, short, useWtxid, all) && Placed(m, base) && Mapped(ids, m.shortTxIds, base)
    ensures NoCollision(short, ids, all, block) && Agrees(base, block)
  {
    assert PlacedAt(m, base, 0);
    forall s: nat | 1 <= s < |base|
      ensures base[s].None?
    {
      assert TakenBy(m, base, 1, s);
    }
    CoinbaseOnly(base);
    forall i | 0 <= i < |all|
      ensures Answers(short, ids, all[i], block)
    {
      var c := all[i];
      if short(c.hash) in ids {
        var k :| 0 <= k < |m.shortTxIds| && m.shortTxIds[k] == short(c.hash);
        assert m.shortTxIds[(k + 1) - 1] == short(IdHash(block[k + 1], useWtxid));
      }
    }
  }

  /** A block sent as a compact block, with the missing transactions sent after it, arrives as it was; only a crowded
      hash table can make the receiver give up. */
  method SendBlock(block: seq<Tx>, short: Hash256 -> nat, useWtxid: bool, pool: seq<Candidate>, extra: seq<Candidate>)
    returns (status: Status, vtx: seq<Tx>, ghost crowded: bool)
    requires 1 <= |block| <= MAX_UINT16 + 1 && !block[0].isNull && CollisionFree(block, short, useWtxid, pool + extra)
    ensures status == Ok || (status == Failed && crowded)
    ensures status == Ok ==> vtx == block
  {
    hide Placed, Mapped, Filling, CollisionFree, Agrees, MissingOf, Empties;
    vtx := [];
    var m := MakeMessage(block, short, useWtxid);
    var receiver := new PartiallyDownloadedBlock();
    ghost var ids, base, have;
    status, ids, base, have, crowded := receiver.InitData(m, short, pool, extra);
    SentIsAccepted(block, short, useWtxid, pool + extra, m);
    if status != Ok {
      return;
    }
    BlockMapped(block, short, useWtxid, pool + extra, m, base, ids);
    FillingAgrees(short, ids, pool + extra, base, receiver.txnAvailable, have, receiver.mempoolCount, block);
    AgreesLength(receiver.txnAvailable, block);
    var missing := MissingOf(receiver.txnAvailable, block);
    ghost var slots := receiver.txnAvailable;
    MissingLength(slots, block);
    status, vtx := receiver.FillBlock(missing, true, false);
    Rebuilt(slots, block, vtx);
  }

  lemma AgreesLength(slots: Slots, block: seq<Tx>)
    requires Agrees(slots, block)
    ensures |slots| == |block|
  {
  }

  lemma SentIsAccepted(block: seq<Tx>, short: Hash256 -> nat, useWtxid: bool, all: seq<Candidate>, m: Message)
    requires |block| >= 1 && !block[0].isNull && m.prefilled == [Prefilled(0, block[0])]
             && |m.shortTxIds| == |block| - 1
    requires forall i | 1 <= i < |block| :: m.shortTxIds[i - 1] == short(IdHash(block[i], useWtxid))
    requires CollisionFree(block, short, useWtxid, all)
    ensures forall i: nat :: i < |m.prefilled| ==> PrefilledOk(m, i)
    ensures DistinctIds(m.shortTxIds, |m.shortTxIds|)
  {
    forall j, k | 0 <= j < k < |m.shortTxIds|
      ensures m.shortTxIds[j] != m.shortTxIds[k]
    {
      assert m.shortTxIds[(j + 1) - 1] == short(IdHash(block[j + 1], useWtxid));
      assert m.shortTxIds[(k + 1) - 1] == short(IdHash(block[k + 1], useWtxid));
    }
  }
}
