/**
 The file format of the address manager (`CAddrMan::Serialize` and `Unserialize`). A stream is a sequence of tokens,
 each a number or the stored part of a record. The functions say what is written and what reading does with any
 stream; the loops are proved to follow them.
 */
module AddrCodec {
  import opened AddrTables
  import opened Basics

  /** The part of a record that is stored. */
  datatype Record = Record(address: Address, source: NetAddr, lastSuccess: int, attempts: int)

  datatype Token = Num(n: int) | Rec(record: Record)

  type Stream = seq<Token>

  function Saved(info: Info): Record {
    Record(info.address, info.source, info.lastSuccess, info.attempts)
  }

  function Restored(r: Record): Info {
    Info(r.address, r.source, 0, 0, r.lastSuccess, r.attempts, 0, false, -1)
  }

  /** `n ^ (1 << 30)` on a two's complement number. */
  function FlipBit30(n: int): int {
    if n / 0x4000_0000 % 2 == 0 then n + 0x4000_0000 else n - 0x4000_0000
  }

  // ---------- Writing ----------

  /** Which records the two passes write. */
  predicate Picks(info: Info, tried: bool) {
    if tried then info.inTried else info.refCount != 0
  }

  /** The ids from k up to `end` whose records are written, in ascending order. */
  function Picked(infos: Infos, tried: bool, k: nat, end: nat): seq<int>
    requires k <= end
    decreases end - k
  {
    if k == end then []
    else if k in infos && Picks(infos[k], tried) then [k] + Picked(infos, tried, k + 1, end)
    else Picked(infos, tried, k + 1, end)
  }

  function Records(infos: Infos, tried: bool, k: nat, end: nat): Stream
    requires k <= end
    decreases end - k
  {
    if k == end then []
    else if k in infos && Picks(infos[k], tried) then [Rec(Saved(infos[k]))] + Records(infos, tried, k + 1, end)
    else Records(infos, tried, k + 1, end)
  }

  /** The place of an id in a list; its length when it is not there. */
  function Index(ids: seq<int>, id: int): (r: nat)
    ensures r <= |ids|
    ensures if id in ids then r < |ids| && ids[r] == id else r == |ids|
  {
    if ids == [] || ids[0] == id then 0 else 1 + Index(ids[1..], id)
  }

  /** The slots in use of a bucket, from slot i on. */
  function Indices(ids: seq<int>, row: seq<int>, i: nat): Stream
    requires i <= |row|
    decreases |row| - i
  {
    if i == |row| then []
    else if row[i] != -1 then [Num(Index(ids, row[i]))] + Indices(ids, row, i + 1)
    else Indices(ids, row, i + 1)
  }

  function Buckets(ids: seq<int>, news: Table, b: nat): Stream
    requires b <= |news|
    decreases |news| - b
  {
    if b == |news| then []
    else [Num(|Indices(ids, news[b], 0)|)] + Indices(ids, news[b], 0) + Buckets(ids, news, b + 1)
  }

  function Header(key: nat, nNew: int, nTried: int): Stream {
    [Num(1), Num(32), Num(key), Num(nNew), Num(nTried), Num(FlipBit30(NEW_BUCKET_COUNT))]
  }

  /** The ids in the order in which their records are written; a record's place is its id after reading. */
  function Order(t: Tables): seq<int>
    requires t.idCount >= 0
  {
    Picked(t.infos, false, 0, t.idCount) + Picked(t.infos, true, 0, t.idCount)
  }

  function Encode(t: Tables, key: nat): Stream
    requires t.idCount >= 0
  {
    Header(key, t.nNew, t.nTried)
    + Records(t.infos, false, 0, t.idCount)
    + Records(t.infos, true, 0, t.idCount)
    + Buckets(Picked(t.infos, false, 0, t.idCount), t.news, 0)
  }

  // ---------- The passes of `Serialize` ----------

  /** One pass over the records in ascending order of ids, which are all below `end`. The `assert` against the counter
      cannot fail when the counter is right. */
  method WriteRecords(infos: Infos, tried: bool, end: nat, count: int) returns (s: Stream, unkIds: map<int, int>)
    requires count == |Picked(infos, tried, 0, end)|
    ensures s == Records(infos, tried, 0, end)
    ensures IndexMap(unkIds, Picked(infos, tried, 0, end))
  {
    hide Picked, Records;
    s, unkIds := [], map[];
    ghost var done: seq<int> := [];
    var nIds := 0;
    for k := 0 to end
      invariant nIds == |done|
      invariant done + Picked(infos, tried, k, end) == Picked(infos, tried, 0, end)
      invariant s + Records(infos, tried, k, end) == Records(infos, tried, 0, end)
      invariant forall i | 0 <= i < |done| :: done[i] < k && done[i] in unkIds && unkIds[done[i]] == i
    {
      PickedStep(infos, tried, k, end);
      if k in infos {
        unkIds := unkIds[k := nIds];
        if Picks(infos[k], tried) {
          assert nIds != count;
          Regroup(s, Rec(Saved(infos[k])), Records(infos, tried, k + 1, end));
          Regroup(done, k, Picked(infos, tried, k + 1, end));
          s := s + [Rec(Saved(infos[k]))];
          done := done + [k];
          nIds := nIds + 1;
        }
      }
    }
    PickedEnd(infos, tried, end);
    assert done == Picked(infos, tried, 0, end);
  }

  lemma Regroup<T>(a: seq<T>, x: T, b: seq<T>)
    ensures a + ([x] + b) == (a + [x]) + b
  {
  }

  lemma PickedStep(infos: Infos, tried: bool, k: nat, end: nat)
    requires k < end
    ensures
      if k in infos && Picks(infos[k], tried) then
        && Picked(infos, tried, k, end) == [k] + Picked(infos, tried, k + 1, end)
        && Records(infos, tried, k, end) == [Rec(Saved(infos[k]))] + Records(infos, tried, k + 1, end)
      else
        && Picked(infos, tried, k, end) == Picked(infos, tried, k + 1, end)
        && Records(infos, tried, k, end) == Records(infos, tried, k + 1, end)
  {
  }

  lemma PickedEnd(infos: Infos, tried: bool, end: nat)
    ensures Picked(infos, tried, end, end) == [] && Records(infos, tried, end, end) == []
  {
  }

  /** The map holds the place in the list of each of its members. */
  ghost predicate IndexMap(unkIds: map<int, int>, ids: seq<int>) {
    forall i | 0 <= i < |ids| :: ids[i] in unkIds && unkIds[ids[i]] == i
  }

  /** One bucket: the number of slots in use, then their indices. */
  method WriteBucket(row: seq<int>, unkIds: map<int, int>, ghost ids: seq<int>) returns (s: Stream)
    requires IndexMap(unkIds, ids) && forall i | 0 <= i < |row| && row[i] != -1 :: row[i] in ids
    ensures s == [Num(|Indices(ids, row, 0)|)] + Indices(ids, row, 0)
  {
    var nSize := 0;
    for i := 0 to |row|
      invariant nSize + |Indices(ids, row, i)| == |Indices(ids, row, 0)|
    {
      if row[i] != -1 {
        nSize := nSize + 1;
      }
    }
    s := [Num(nSize)];
    for i := 0 to |row|
      invariant s + Indices(ids, row, i) == [Num(nSize)] + Indices(ids, row, 0)
    {
      if row[i] != -1 {
        s := s + [Num(unkIds[row[i]])];
      }
    }
  }

  method WriteBuckets(news: Table, unkIds: map<int, int>, ghost ids: seq<int>) returns (s: Stream)
    requires IndexMap(unkIds, ids) && forall b, i | InTable(news, b, i) && news[b][i] != -1 :: news[b][i] in ids
    ensures s == Buckets(ids, news, 0)
  {
    s := [];
    for b := 0 to |news|
      invariant s + Buckets(ids, news, b) == Buckets(ids, news, 0)
    {
      forall i | 0 <= i < |news[b]| && news[b][i] != -1
        ensures news[b][i] in ids
      {
        assert InTable(news, b, i);
      }
      var bucket := WriteBucket(news[b], unkIds, ids);
      s := s + bucket;
    }
  }

  // ---------- Reading, one token at a time ----------

  /** What holds of the tables while any stream is read into them: the random order is right, the ids are below `next`,
      and those below `loaded` are there. */
  ghost predicate Tidy(t: Tables, next: int, loaded: int) {
    && HasShape(t.tried, TRIED_BUCKET_COUNT) && HasShape(t.news, NEW_BUCKET_COUNT)
    && Ordered(t.infos, t.random)
    && AllInRange(t.infos, next, loaded)
  }

  ghost predicate AllInRange(infos: Infos, next: int, loaded: int) {
    forall id :: InRange(infos, next, loaded, id)
  }

  ghost predicate InRange(infos: Infos, next: int, loaded: int, id: int) {
    (id in infos ==> id < next) && (0 <= id < loaded ==> id in infos)
  }

  /** A record of the new part gets id n. If the bucket data cannot be used it also gets the slot of its source, when
      that is free. */
  function LoadNew(t: Tables, places: Places, r: Record, n: nat, usable: bool): Tables
    requires HasShape(t.news, NEW_BUCKET_COUNT)
  {
    var u := Enter(t.(idCount := n), Restored(r)).(idCount := t.idCount);
    if usable then u else
      var b := places.NewBucket(r.address.service.ip, r.source);
      var p := places.Position(true, b, r.address.service);
      if u.news[b][p] == -1 then AddRef(u, b, p, n) else u
  }

  /** A record of the tried part gets the next id and its slot; if the slot is taken it is lost. */
  function LoadTried(t: Tables, places: Places, r: Record): Tables
    requires HasShape(t.tried, TRIED_BUCKET_COUNT)
  {
    var b := places.TriedBucket(r.address.service);
    var p := places.Position(false, b, r.address.service);
    if t.tried[b][p] == -1 then Place(Enter(t, Restored(r)), b, p, t.idCount).(nTried := t.nTried)
    else t.(nTried := t.nTried - 1)
  }

  /** An index of a bucket's part becomes a reference, if possible. */
  function LoadSlot(t: Tables, places: Places, bucket: nat, i: int, usable: bool): Tables
    requires HasShape(t.news, NEW_BUCKET_COUNT) && (usable ==> bucket < NEW_BUCKET_COUNT)
    requires 0 <= i < t.nNew ==> i in t.infos
  {
    if 0 <= i < t.nNew then
      var p := places.Position(true, bucket, t.infos[i].Service());
      if usable && t.news[bucket][p] == -1 && t.infos[i].refCount < NEW_BUCKETS_PER_ADDRESS then AddRef(t, bucket, p, i)
      else t
    else t
  }

  lemma EnterOrdered(t: Tables, info: Info)
    requires Ordered(t.infos, t.random) && t.idCount !in t.infos
    ensures Ordered(Enter(t, info).infos, Enter(t, info).random)
  {
    var e := Enter(t, info);
    forall y
      ensures PosLinked(e.infos, e.random, y) && RandomLinked(e.infos, e.random, y)
    {
      assert PosLinked(t.infos, t.random, y) && RandomLinked(t.infos, t.random, y);
    }
  }

  lemma UpdateOrdered(infos: Infos, random: seq<int>, id: int, x: Info)
    requires Ordered(infos, random) && id in infos && x.randomPos == infos[id].randomPos
    ensures Ordered(infos[id := x], random)
  {
    var updated := infos[id := x];
    forall y
      ensures PosLinked(updated, random, y) && RandomLinked(updated, random, y)
    {
      assert PosLinked(infos, random, y) && RandomLinked(infos, random, y);
    }
  }

  lemma UpdateInRange(infos: Infos, next: int, loaded: int, id: int, x: Info)
    requires id in infos && AllInRange(infos, next, loaded)
    ensures AllInRange(infos[id := x], next, loaded)
  {
    var updated := infos[id := x];
    forall y
      ensures InRange(updated, next, loaded, y)
    {
      assert InRange(infos, next, loaded, y);
    }
  }

  lemma AddRefTidy(t: Tables, next: int, loaded: int, b: nat, p: nat, id: int)
    requires Tidy(t, next, loaded) && InTable(t.news, b, p) && id in t.infos
    ensures Tidy(AddRef(t, b, p, id), next, loaded)
  {
    var x := t.infos[id].(refCount := t.infos[id].refCount + 1);
    UpdateOrdered(t.infos, t.random, id, x);
    UpdateInRange(t.infos, next, loaded, id, x);
  }

  lemma EnterTidy(t: Tables, loaded: int, loaded': int, info: Info)
    requires Tidy(t, t.idCount, loaded) && loaded' <= (if loaded == t.idCount then loaded + 1 else loaded)
    ensures Tidy(Enter(t, info), t.idCount + 1, loaded')
  {
    assert InRange(t.infos, t.idCount, loaded, t.idCount);
    EnterOrdered(t, info);
    var e, next := Enter(t, info), t.idCount + 1;
    forall y
      ensures InRange(e.infos, next, loaded', y)
    {
      assert InRange(t.infos, t.idCount, loaded, y);
    }
  }

  lemma LoadNewTidy(t: Tables, places: Places, r: Record, n: nat, usable: bool)
    requires Tidy(t, n, n)
    ensures Tidy(LoadNew(t, places, r, n, usable), n + 1, n + 1)
  {
    var w := t.(idCount := n);
    EnterTidy(w, n, n + 1, Restored(r));
    var u := Enter(w, Restored(r)).(idCount := t.idCount);
    var b := places.NewBucket(r.address.service.ip, r.source);
    AddRefTidy(u, n + 1, n + 1, b, places.Position(true, b, r.address.service), n);
  }

  lemma LoadTriedTidy(t: Tables, places: Places, r: Record, loaded: int)
    requires Tidy(t, t.idCount, loaded)
    ensures Tidy(LoadTried(t, places, r), LoadTried(t, places, r).idCount, loaded)
  {
    EnterTidy(t, loaded, loaded, Restored(r));
    var e, id := Enter(t, Restored(r)), t.idCount;
    UpdateOrdered(e.infos, e.random, id, e.infos[id].(inTried := true));
    UpdateInRange(e.infos, e.idCount, loaded, id, e.infos[id].(inTried := true));
  }

  lemma LoadSlotTidy(t: Tables, places: Places, bucket: nat, i: int, usable: bool, next: int)
    requires Tidy(t, next, t.nNew) && (usable ==> bucket < NEW_BUCKET_COUNT)
    ensures 0 <= i < t.nNew ==> i in t.infos
    ensures Tidy(LoadSlot(t, places, bucket, i, usable), next, t.nNew)
  {
    assert InRange(t.infos, next, t.nNew, i);
    if 0 <= i < t.nNew && usable {
      AddRefTidy(t, next, t.nNew, bucket, places.Position(true, bucket, t.infos[i].Service()), i);
    }
  }

  lemma DeleteOrdered(t: Tables, id: int)
    requires Ordered(t.infos, t.random) && id in t.infos
    ensures Deletable(t, id) && Ordered(Delete(t, id).infos, Delete(t, id).random)
  {
    assert PosLinked(t.infos, t.random, id) && RandomLinked(t.infos, t.random, |t.random| - 1);
    var d := Delete(t, id);
    forall y
      ensures PosLinked(d.infos, d.random, y) && RandomLinked(d.infos, d.random, y)
    {
      assert PosLinked(t.infos, t.random, y) && RandomLinked(t.infos, t.random, y);
    }
  }

  // ---------- Reading a stream ----------

  ghost function ReadNew(t: Tables, places: Places, s: Stream, n: nat, end: int,
                         usable: bool): (r: Option<(Tables, Stream)>)
    requires Tidy(t, n, n)
    ensures r.Some? && end >= n ==> Tidy(r.value.0, end, end)
    ensures r.Some? ==> r.value.0.nNew == t.nNew
    ensures end <= n ==> r == Some((t, s))
    decreases end - n
  {
    if n >= end then Some((t, s))
    else if s == [] || !s[0].Rec? then None
    else
      LoadNewTidy(t, places, s[0].record, n, usable);
      ReadNew(LoadNew(t, places, s[0].record, n, usable), places, s[1..], n + 1, end, usable)
  }

  ghost function ReadTried(t: Tables, places: Places, s: Stream, n: nat, end: int,
                           loaded: int): (r: Option<(Tables, Stream)>)
    requires Tidy(t, t.idCount, loaded)
    ensures r.Some? ==> Tidy(r.value.0, r.value.0.idCount, loaded) && r.value.0.nNew == t.nNew
    decreases end - n
  {
    if n >= end then Some((t, s))
    else if s == [] || !s[0].Rec? then None
    else
      LoadTriedTidy(t, places, s[0].record, loaded);
      ReadTried(LoadTried(t, places, s[0].record), places, s[1..], n + 1, end, loaded)
  }

  ghost function ReadSlots(t: Tables, places: Places, s: Stream, bucket: nat, n: nat, size: int,
                           usable: bool): (r: Option<(Tables, Stream)>)
    requires Tidy(t, t.idCount, t.nNew) && (usable ==> bucket < NEW_BUCKET_COUNT)
    ensures r.Some? ==> Tidy(r.value.0, r.value.0.idCount, r.value.0.nNew)
    decreases size - n
  {
    if n >= size then Some((t, s))
    else if s == [] || !s[0].Num? then None
    else
      LoadSlotTidy(t, places, bucket, s[0].n, usable, t.idCount);
      ReadSlots(LoadSlot(t, places, bucket, s[0].n, usable), places, s[1..], bucket, n + 1, size, usable)
  }

  ghost function ReadBuckets(t: Tables, places: Places, s: Stream, bucket: nat, buckets: int,
                             usable: bool): (r: Option<(Tables, Stream)>)
    requires Tidy(t, t.idCount, t.nNew) && (usable ==> buckets == NEW_BUCKET_COUNT)
    ensures r.Some? ==> Tidy(r.value.0, r.value.0.idCount, r.value.0.nNew)
    decreases buckets - bucket
  {
    if bucket >= buckets then Some((t, s))
    else if s == [] || !s[0].Num? then None
    else
      var r := ReadSlots(t, places, s[1..], bucket, 0, s[0].n, usable);
      if r.None? then None else ReadBuckets(r.value.0, places, r.value.1, bucket + 1, buckets, usable)
  }

  predicate Unused(t: Tables, id: int) {
    id in t.infos && !t.infos[id].inTried && t.infos[id].refCount == 0
  }

  /** Deletes the records in neither table, in ascending order of ids from n on. */
  ghost function Prune(t: Tables, n: int, end: int): (r: Tables)
    requires Ordered(t.infos, t.random)
    ensures Ordered(r.infos, r.random)
    decreases end - n
  {
    if n >= end then t
    else if Unused(t, n) then DeleteOrdered(t, n); Prune(Delete(t, n), n + 1, end)
    else Prune(t, n + 1, end)
  }

  datatype Outcome = Loaded(t: Tables, key: nat, rest: Stream) | EndOfData | BadKeySize | TooManyNew | TooManyTried

  /** The first tokens. */
  predicate HasHeader(s: Stream) {
    |s| >= 6 && (forall i | 0 <= i < 6 :: s[i].Num?) && s[2].n >= 0
  }

  function Blank(nNew: int, nTried: int): Tables {
    Tables(0, map[], map[], [], nTried, EmptyTable(TRIED_BUCKET_COUNT), nNew, EmptyTable(NEW_BUCKET_COUNT))
  }

  function BucketsIn(version: int, buckets: int): int {
    if version != 0 then FlipBit30(buckets) else buckets
  }

  predicate IsUsable(version: int, buckets: int) {
    version == 1 && buckets == NEW_BUCKET_COUNT
  }

  ghost function Decode(hashes: Hashes, s: Stream): Outcome {
    if !HasHeader(s) then
      if |s| >= 2 && s[0].Num? && s[1].Num? && s[1].n != 32 then BadKeySize else EndOfData
    else if s[1].n != 32 then BadKeySize
    else if s[3].n > NEW_BUCKET_COUNT * BUCKET_SIZE then TooManyNew
    else if s[4].n > TRIED_BUCKET_COUNT * BUCKET_SIZE then TooManyTried
    else
      Body(Places(hashes, s[2].n), s[3].n, s[4].n, BucketsIn(s[0].n, s[5].n),
           IsUsable(s[0].n, BucketsIn(s[0].n, s[5].n)), s[6..])
  }

  lemma BlankTidy(nNew: int, nTried: int)
    ensures Tidy(Blank(nNew, nTried), 0, 0)
  {
  }

  lemma NewLoaded(nNew: int, nTried: int, t: Tables)
    requires if nNew >= 0 then Tidy(t, nNew, nNew) else t == Blank(nNew, nTried)
    requires t.nNew == nNew
    ensures var u := t.(idCount := nNew); Tidy(u, u.idCount, u.nNew)
  {
    if nNew < 0 {
      var u := t.(idCount := nNew);
      assert forall id :: InRange(u.infos, nNew, nNew, id);
    }
  }

  /** What follows the header. */
  ghost function Body(places: Places, nNew: int, nTried: int, buckets: int, usable: bool, s: Stream): Outcome
    requires usable ==> buckets == NEW_BUCKET_COUNT
  {
    BlankTidy(nNew, nTried);
    var news := ReadNew(Blank(nNew, nTried), places, s, 0, nNew, usable);
    if news.None? then EndOfData else
      NewLoaded(nNew, nTried, news.value.0);
      var tried := ReadTried(news.value.0.(idCount := nNew), places, news.value.1, 0, nTried, nNew);
      if tried.None? then EndOfData else
        var slots := ReadBuckets(tried.value.0, places, tried.value.1, 0, buckets, usable);
        if slots.None? then EndOfData else
          Loaded(Prune(slots.value.0, if nNew < 0 then nNew else 0, slots.value.0.idCount), places.key, slots.value.1)
  }

  // ---------- The passes of `Unserialize` ----------

  method LoadNewRecords(t0: Tables, places: Places, s0: Stream, end: int, usable: bool)
    returns (ok: bool, t: Tables, s: Stream)
    requires Tidy(t0, 0, 0)
    ensures ReadNew(t0, places, s0, 0, end, usable) == if ok then Some((t, s)) else None
  {
    hide Ordered, AllInRange, Enter, AddRef;
    t, s := t0, s0;
    var n := 0;
    while n < end
      invariant 0 <= n && Tidy(t, n, n)
      invariant ReadNew(t0, places, s0, 0, end, usable) == ReadNew(t, places, s, n, end, usable)
      decreases end - n
    {
      if s == [] || !s[0].Rec? {
        return false, t, s;
      }
      LoadNewTidy(t, places, s[0].record, n, usable);
      t := EnterRecord(t, places, s[0].record, n, usable);
      s := s[1..];
      n := n + 1;
    }
    ok := true;
  }

  method EnterRecord(t0: Tables, places: Places, r: Record, n: nat, usable: bool) returns (t: Tables)
    requires HasShape(t0.news, NEW_BUCKET_COUNT)
    ensures t == LoadNew(t0, places, r, n, usable)
  {
    t := t0;
    var info := Restored(r);
    t := t.(addrs := t.addrs[info.Ip() := n]);
    info := info.(randomPos := |t.random|);
    t := t.(random := t.random + [n], infos := t.infos[n := info]);
    if !usable {
      var nUBucket := places.NewBucket(info.Ip(), info.source);
      var nUBucketPos := places.Position(true, nUBucket, info.Service());
      if t.news[nUBucket][nUBucketPos] == -1 {
        t := t.(news := Put(t.news, nUBucket, nUBucketPos, n));
        t := t.(infos := t.infos[n := info.(refCount := info.refCount + 1)]);
      }
    }
  }

  method LoadTriedRecords(t0: Tables, places: Places, s0: Stream, end: int, ghost loaded: int)
    returns (ok: bool, t: Tables, s: Stream)
    requires Tidy(t0, t0.idCount, loaded)
    ensures ReadTried(t0, places, s0, 0, end, loaded) == if ok then Some((t, s)) else None
  {
    hide Ordered, AllInRange, Enter, Place;
    t, s := t0, s0;
    var nLost := 0;
    var n := 0;
    while n < end
      invariant 0 <= n && Tidy(t.(nTried := t.nTried - nLost), t.idCount, loaded)
                && HasShape(t.tried, TRIED_BUCKET_COUNT)
      invariant ReadTried(t0, places, s0, 0, end, loaded) ==
                ReadTried(t.(nTried := t.nTried - nLost), places, s, n, end, loaded)
      decreases end - n
    {
      if s == [] || !s[0].Rec? {
        return false, t, s;
      }
      ghost var now := t.(nTried := t.nTried - nLost);
      LoadTriedTidy(now, places, s[0].record, loaded);
      t, nLost := EnterTriedRecord(t, places, s[0].record, nLost);
      s := s[1..];
      n := n + 1;
    }
    t := t.(nTried := t.nTried - nLost);
    ok := true;
  }

  method EnterTriedRecord(t0: Tables, places: Places, r: Record, lost: int) returns (t: Tables, nLost: int)
    requires HasShape(t0.tried, TRIED_BUCKET_COUNT)
    ensures t.(nTried := t.nTried - nLost) == LoadTried(t0.(nTried := t0.nTried - lost), places, r)
    ensures HasShape(t.tried, TRIED_BUCKET_COUNT)
  {
    t, nLost := t0, lost;
    var info := Restored(r);
    var nKBucket := places.TriedBucket(info.Service());
    var nKBucketPos := places.Position(false, nKBucket, info.Service());
    if t.tried[nKBucket][nKBucketPos] == -1 {
      info := info.(randomPos := |t.random|, inTried := true);
      t := t.(random := t.random + [t.idCount]);
      t := t.(infos := t.infos[t.idCount := info], addrs := t.addrs[info.Ip() := t.idCount]);
      t := t.(tried := Put(t.tried, nKBucket, nKBucketPos, t.idCount));
      t := t.(idCount := t.idCount + 1);
      ghost var e := Enter(t0.(nTried := t0.nTried - lost), Restored(r));
      assert t.infos == e.infos[t0.idCount := e.infos[t0.idCount].(inTried := true)];
    } else {
      nLost := nLost + 1;
    }
  }

  method LoadBuckets(t0: Tables, places: Places, s0: Stream, buckets: int, usable: bool)
    returns (ok: bool, t: Tables, s: Stream)
    requires Tidy(t0, t0.idCount, t0.nNew) && (usable ==> buckets == NEW_BUCKET_COUNT)
    ensures ReadBuckets(t0, places, s0, 0, buckets, usable) == if ok then Some((t, s)) else None
  {
    hide Tidy, ReadSlots;
    t, s := t0, s0;
    var bucket := 0;
    while bucket < buckets
      invariant 0 <= bucket && Tidy(t, t.idCount, t.nNew)
      invariant ReadBuckets(t0, places, s0, 0, buckets, usable) == ReadBuckets(t, places, s, bucket, buckets, usable)
      decreases buckets - bucket
    {
      if s == [] || !s[0].Num? {
        return false, t, s;
      }
      ok, t, s := LoadSlots(t, places, s[1..], bucket, s[0].n, usable);
      if !ok {
        return;
      }
      bucket := bucket + 1;
    }
    ok := true;
  }

  method LoadSlots(t0: Tables, places: Places, s0: Stream, bucket: nat, nSize: int, usable: bool)
    returns (ok: bool, t: Tables, s: Stream)
    requires Tidy(t0, t0.idCount, t0.nNew) && (usable ==> bucket < NEW_BUCKET_COUNT)
    ensures ReadSlots(t0, places, s0, bucket, 0, nSize, usable) == if ok then Some((t, s)) else None
  {
    t, s := t0, s0;
    var n := 0;
    while n < nSize
      invariant 0 <= n && Tidy(t, t.idCount, t.nNew)
      invariant ReadSlots(t0, places, s0, bucket, 0, nSize, usable) == ReadSlots(t, places, s, bucket, n, nSize, usable)
      decreases nSize - n
    {
      if s == [] || !s[0].Num? {
        return false, t, s;
      }
      var nIndex := s[0].n;
      LoadSlotTidy(t, places, bucket, nIndex, usable, t.idCount);
      if 0 <= nIndex < t.nNew {
        var info := t.infos[nIndex];
        var nUBucketPos := places.Position(true, bucket, info.Service());
        if usable && t.news[bucket][nUBucketPos] == -1 && info.refCount < NEW_BUCKETS_PER_ADDRESS {
          info := info.(refCount := info.refCount + 1);
          t := t.(infos := t.infos[nIndex := info], news := Put(t.news, bucket, nUBucketPos, nIndex));
        }
      }
      s := s[1..];
      n := n + 1;
    }
    ok := true;
  }

  /** The last loop; the asserts of `Delete` hold whatever was read. */
  method PruneUnused(t0: Tables, first: int) returns (t: Tables, nLostUnk: nat)
    requires Ordered(t0.infos, t0.random)
    ensures t == Prune(t0, first, t0.idCount)
    ensures nLostUnk == 0 ==> t == t0
  {
    hide Ordered, Delete;
    t, nLostUnk := t0, 0;
    var n := first;
    while n < t0.idCount
      invariant Ordered(t.infos, t.random)
      invariant Prune(t0, first, t0.idCount) == Prune(t, n, t0.idCount)
      invariant nLostUnk == 0 ==> t == t0
      decreases t0.idCount - n
    {
      if n in t.infos && !t.infos[n].inTried && t.infos[n].refCount == 0 {
        DeleteOrdered(t, n);
        t := Delete(t, n);
        nLostUnk := nLostUnk + 1;
      }
      n := n + 1;
    }
  }

  /** Reading any stream into empty tables. */
  method Unserialize(hashes: Hashes, s: Stream) returns (r: Outcome)
    ensures r == Decode(hashes, s)
  {
    hide ReadNew, ReadTried, ReadBuckets, Prune;
    if |s| >= 2 && s[0].Num? && s[1].Num? && s[1].n != 32 {
      return BadKeySize;
    }
    if !HasHeader(s) {
      return EndOfData;
    }
    var nKey, nNew, nTried := s[2].n, s[3].n, s[4].n;
    var nUBuckets := s[5].n;
    if s[0].n != 0 {
      nUBuckets := FlipBit30(nUBuckets);
    }
    if nNew > NEW_BUCKET_COUNT * BUCKET_SIZE {
      return TooManyNew;
    }
    if nTried > TRIED_BUCKET_COUNT * BUCKET_SIZE {
      return TooManyTried;
    }
    var usable := s[0].n == 1 && nUBuckets == NEW_BUCKET_COUNT;
    var places := Places(hashes, nKey);
    BlankTidy(nNew, nTried);
    var ok, t, rest := LoadNewRecords(Blank(nNew, nTried), places, s[6..], nNew, usable);
    if !ok {
      return EndOfData;
    }
    NewLoaded(nNew, nTried, t);
    ok, t, rest := LoadTriedRecords(t.(idCount := nNew), places, rest, nTried, nNew);
    if !ok {
      return EndOfData;
    }
    ok, t, rest := LoadBuckets(t, places, rest, nUBuckets, usable);
    if !ok {
      return EndOfData;
    }
    var pruned, nLostUnk := PruneUnused(t, if nNew < 0 then nNew else 0);
    return Loaded(pruned, nKey, rest);
  }
}
