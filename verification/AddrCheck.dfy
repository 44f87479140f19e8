/**
 The consistency check of the address manager (`CAddrMan::Check_`) on values: what it looks for, stated outright, and
 how that relates to the invariant of `AddrTables`.
 */
module AddrCheck {
  import opened AddrTables
  import Sets

  /** `mapAddr[ip]` in C++: a missing key reads as zero. */
  function AddrId(addrs: map<NetAddr, int>, ip: NetAddr): int {
    if ip in addrs then addrs[ip] else 0
  }

  /** What is asked of one record. */
  ghost predicate RecordOk(info: Info, addrs: map<NetAddr, int>, random: seq<int>, id: int) {
    && (if info.inTried then info.lastSuccess != 0 && info.refCount == 0
        else 1 <= info.refCount <= NEW_BUCKETS_PER_ADDRESS)
    && AddrId(addrs, info.Ip()) == id
    && 0 <= info.randomPos < |random| && random[info.randomPos] == id
    && info.lastTry >= 0 && info.lastSuccess >= 0
  }

  ghost predicate InfoChecked(infos: Infos, addrs: map<NetAddr, int>, random: seq<int>, id: int) {
    id in infos ==> RecordOk(infos[id], addrs, random, id)
  }

  /** Everything the check looks for, but for the key. */
  ghost predicate Checked(t: Tables, places: Places) {
    && |t.random| == t.nTried + t.nNew
    && (forall id :: InfoChecked(t.infos, t.addrs, t.random, id))
    && |TriedIds(t.infos)| == t.nTried && |NewIds(t.infos)| == t.nNew
    && TriedOk(places, t.infos, t.tried)
    && NewOk(places, t.infos, t.news)
  }

  /** What the check does not look for: ids are in range and the address map holds the records' addresses, no others. */
  ghost predicate Booked(t: Tables) {
    && t.idCount >= 0
    && (forall id :: InfoLinked(t.infos, t.addrs, t.idCount, id))
    && (forall a :: AddrLinked(t.infos, t.addrs, a))
  }

  lemma SplitIds(infos: Infos)
    ensures |TriedIds(infos)| + |NewIds(infos)| == |infos.Keys|
  {
    assert TriedIds(infos) + NewIds(infos) == infos.Keys;
    assert TriedIds(infos) !! NewIds(infos);
  }

  lemma {:induction false} ImageSize(infos: Infos, ids: set<int>, pos: set<int>)
    requires ids <= infos.Keys && pos == set id | id in ids :: infos[id].randomPos
    requires forall x, y | x in ids && y in ids && infos[x].randomPos == infos[y].randomPos :: x == y
    ensures |pos| == |ids|
    decreases |ids|
  {
    if |ids| == 0 {
      assert pos == {};
    } else {
      var id := Sets.Member(ids);
      var rest := set x | x in ids - {id} :: infos[x].randomPos;
      ImageSize(infos, ids - {id}, rest);
      assert pos == rest + {infos[id].randomPos};
    }
  }

  /** There are as many positions as records and every record has its own, so every position has a record. */
  lemma RandomIsFull(t: Tables, places: Places)
    requires Checked(t, places)
    ensures forall i :: RandomLinked(t.infos, t.random, i)
  {
    SplitIds(t.infos);
    var pos := set id | id in t.infos.Keys :: t.infos[id].randomPos;
    forall x | x in t.infos.Keys
      ensures 0 <= t.infos[x].randomPos < |t.random| && t.random[t.infos[x].randomPos] == x
    {
      assert InfoChecked(t.infos, t.addrs, t.random, x);
    }
    ImageSize(t.infos, t.infos.Keys, pos);
    Sets.Bounded(pos, |t.random|);
    forall i
      ensures RandomLinked(t.infos, t.random, i)
    {
      if 0 <= i < |t.random| {
        assert i in pos;
      }
    }
  }

  /** The invariant is what the check looks for together with what it leaves out. */
  lemma InvIsChecked(t: Tables, places: Places)
    ensures Inv(t, places, {}, 0) <==> Checked(t, places) && Booked(t)
  {
    if Checked(t, places) && Booked(t) {
      CheckedIsInv(t, places);
    }
    if Inv(t, places, {}, 0) {
      InvChecked(t, places);
    }
  }

  lemma CheckedIsInv(t: Tables, places: Places)
    requires Checked(t, places) && Booked(t)
    ensures Inv(t, places, {}, 0)
  {
    RandomIsFull(t, places);
    forall id
      ensures PosLinked(t.infos, t.random, id) && InfoSettled(t.infos, {}, id)
    {
      assert InfoChecked(t.infos, t.addrs, t.random, id);
    }
    assert NewIds(t.infos) - {} == NewIds(t.infos);
  }

  lemma InvChecked(t: Tables, places: Places)
    requires Inv(t, places, {}, 0)
    ensures Checked(t, places) && Booked(t)
  {
    assert NewIds(t.infos) - {} == NewIds(t.infos);
    forall id
      ensures InfoChecked(t.infos, t.addrs, t.random, id)
    {
      assert InfoLinked(t.infos, t.addrs, t.idCount, id) && PosLinked(t.infos, t.random, id);
      assert InfoSettled(t.infos, {}, id);
      if id in t.infos && t.infos[id].inTried {
        TriedUnreferenced(places, t.infos, t.news, id);
      }
    }
    PositionsAreRecords(t, places);
  }

  lemma PositionsAreRecords(t: Tables, places: Places)
    requires Linked(t.infos, t.addrs, t.random, t.idCount)
    ensures |t.random| == |TriedIds(t.infos)| + |NewIds(t.infos)|
  {
    SplitIds(t.infos);
    var pos := set id | id in t.infos.Keys :: t.infos[id].randomPos;
    forall x | x in t.infos.Keys
      ensures 0 <= t.infos[x].randomPos < |t.random| && t.random[t.infos[x].randomPos] == x
    {
      assert PosLinked(t.infos, t.random, x);
    }
    ImageSize(t.infos, t.infos.Keys, pos);
    var all := Sets.Upto(|t.random|);
    forall i | i in all
      ensures i in pos
    {
      assert RandomLinked(t.infos, t.random, i);
    }
    assert pos == all;
  }

  // ---------- The loop over the records ----------

  /** The tests of one record. Looking an address up enters it when it is missing. */
  method CheckInfo(info: Info, addrs: map<NetAddr, int>, random: seq<int>, n: int)
    returns (err: int, addrs': map<NetAddr, int>)
    ensures err != -16
    ensures err == 0 <==> RecordOk(info, addrs, random, n)
    ensures addrs' == addrs || (info.Ip() !in addrs && addrs' == addrs[info.Ip() := 0])
  {
    err, addrs' := 0, addrs;
    if info.inTried {
      if info.lastSuccess == 0 {
        return -1, addrs';
      }
      if info.refCount != 0 {
        return -2, addrs';
      }
    } else {
      if info.refCount < 0 || info.refCount > NEW_BUCKETS_PER_ADDRESS {
        return -3, addrs';
      }
      if info.refCount == 0 {
        return -4, addrs';
      }
    }
    if info.Ip() !in addrs' {
      addrs' := addrs'[info.Ip() := 0];
    }
    if addrs'[info.Ip()] != n {
      return -5, addrs';
    }
    if info.randomPos < 0 || info.randomPos >= |random| || random[info.randomPos] != n {
      return -14, addrs';
    }
    if info.lastTry < 0 {
      return -6, addrs';
    }
    if info.lastSuccess < 0 {
      return -8, addrs';
    }
  }

  /** Goes over all records, in whatever order; collects the tried ids and the reference counts of the others. A zero
      result means that every record passed. */
  method CheckInfos(infos: Infos, addrs: map<NetAddr, int>, random: seq<int>)
    returns (err: int, addrs': map<NetAddr, int>, setTried: set<int>, mapNew: map<int, int>)
    ensures err != -16
    ensures err == 0 <==> forall id :: InfoChecked(infos, addrs, random, id)
    ensures err == 0 ==> setTried == TriedIds(infos)
    ensures err == 0 ==> mapNew.Keys == NewIds(infos) && forall id | id in mapNew :: mapNew[id] == infos[id].refCount
    ensures (forall id | id in infos :: infos[id].Ip() in addrs) ==> addrs' == addrs
  {
    hide RecordOk;
    err, addrs', setTried, mapNew := 0, addrs, {}, map[];
    var todo := infos.Keys;
    while |todo| > 0
      invariant todo <= infos.Keys
      invariant forall id :: id in todo || InfoChecked(infos, addrs, random, id)
      invariant forall id :: Collected(infos, todo, setTried, mapNew, id)
      invariant SameIds(addrs', addrs)
      invariant (forall id | id in infos :: infos[id].Ip() in addrs) ==> addrs' == addrs
      decreases |todo|
    {
      ghost var some := Sets.Member(todo);
      var n :| n in todo;
      ghost var before := addrs';
      err, addrs' := CheckInfo(infos[n], addrs', random, n);
      SameRecord(infos[n], before, addrs, random, n);
      assert SameIds(addrs', addrs);
      if err != 0 {
        assert !InfoChecked(infos, addrs, random, n);
        return;
      }
      ghost var todo0, setTried0, mapNew0 := todo, setTried, mapNew;
      if infos[n].inTried {
        setTried := setTried + {n};
      } else {
        mapNew := mapNew[n := infos[n].refCount];
      }
      todo := todo - {n};
      forall id
        ensures Collected(infos, todo, setTried, mapNew, id)
      {
        assert Collected(infos, todo0, setTried0, mapNew0, id);
      }
    }
    forall id
      ensures id in setTried <==> id in TriedIds(infos)
      ensures id in mapNew <==> id in NewIds(infos)
      ensures id in mapNew ==> mapNew[id] == infos[id].refCount
    {
      assert Collected(infos, todo, setTried, mapNew, id);
    }
  }

  ghost predicate Collected(infos: Infos, todo: set<int>, setTried: set<int>, mapNew: map<int, int>, id: int) {
    && (id in setTried <==> id in infos && id !in todo && infos[id].inTried)
    && (id in mapNew <==> id in infos && id !in todo && !infos[id].inTried)
    && (id in mapNew ==> mapNew[id] == infos[id].refCount)
  }

  ghost predicate SameIds(a: map<NetAddr, int>, b: map<NetAddr, int>) {
    forall ip :: AddrId(a, ip) == AddrId(b, ip)
  }

  lemma SameRecord(info: Info, a: map<NetAddr, int>, b: map<NetAddr, int>, random: seq<int>, n: int)
    requires SameIds(a, b)
    ensures RecordOk(info, a, random, n) <==> RecordOk(info, b, random, n)
  {
    assert AddrId(a, info.Ip()) == AddrId(b, info.Ip());
  }

  // ---------- The loop over the tried table ----------

  /** The slots before this one in the order of the loops. */
  predicate Before(b: int, p: int, n: int, i: int) {
    b < n || (b == n && p < i)
  }

  /** The entry was met, at its own slot. */
  ghost predicate Met(places: Places, infos: Infos, tried: Table, n: int, i: int, id: int)
    requires HasShape(tried, TRIED_BUCKET_COUNT)
  {
    && id in infos
    && var b := places.TriedBucket(infos[id].Service());
       var p := places.Position(false, b, infos[id].Service());
       Before(b, p, n, i) && tried[b][p] == id
  }

  ghost predicate TriedLeft(places: Places, infos: Infos, tried: Table, setTried: set<int>, n: int, i: int, id: int)
    requires HasShape(tried, TRIED_BUCKET_COUNT)
  {
    id in setTried <==> id in infos && infos[id].inTried && !Met(places, infos, tried, n, i, id)
  }

  ghost predicate SlotPassed(places: Places, infos: Infos, tried: Table, n: int, i: int, b: int, p: int) {
    Before(b, p, n, i) ==> TriedSlotOk(places, infos, tried, b, p)
  }

  method CheckTried(places: Places, infos: Infos, tried: Table, ids: set<int>) returns (err: int, setTried: set<int>)
    requires HasShape(tried, TRIED_BUCKET_COUNT) && ids == TriedIds(infos) && -1 !in infos
    ensures err != -16
    ensures err == 0 && setTried == {} <==> TriedOk(places, infos, tried)
  {
    err, setTried := 0, ids;
    var n := 0;
    while n < TRIED_BUCKET_COUNT
      invariant 0 <= n <= TRIED_BUCKET_COUNT
      invariant forall b, p :: SlotPassed(places, infos, tried, n, 0, b, p)
      invariant forall id :: TriedLeft(places, infos, tried, setTried, n, 0, id)
    {
      var i := 0;
      while i < BUCKET_SIZE
        invariant 0 <= i <= BUCKET_SIZE
        invariant forall b, p :: SlotPassed(places, infos, tried, n, i, b, p)
        invariant forall id :: TriedLeft(places, infos, tried, setTried, n, i, id)
      {
        var id := tried[n][i];
        ghost var before := setTried;
        assert TriedLeft(places, infos, tried, setTried, n, i, id);
        if id != -1 {
          if id !in setTried {
            assert !TriedSlotOk(places, infos, tried, n, i);
            return -11, setTried;
          }
          if places.TriedBucket(infos[id].Service()) != n {
            assert !TriedSlotOk(places, infos, tried, n, i);
            return -17, setTried;
          }
          if places.Position(false, n, infos[id].Service()) != i {
            assert !TriedSlotOk(places, infos, tried, n, i);
            return -18, setTried;
          }
          setTried := setTried - {id};
        }
        ghost var here := i;
        i := i + 1;
        TriedStep(places, infos, tried, before, setTried, n, here, i);
      }
      ghost var bucket := n;
      n := n + 1;
      TriedRow(places, infos, tried, setTried, bucket, n);
    }
    TriedEnd(places, infos, tried, setTried);
  }

  /** One slot further. */
  lemma TriedStep(places: Places, infos: Infos, tried: Table, setTried: set<int>, setTried': set<int>, n: int, i: int,
                  i': int)
    requires HasShape(tried, TRIED_BUCKET_COUNT) && InTable(tried, n, i) && -1 !in infos && i' == i + 1
    requires forall x :: x in setTried' <==> x in setTried && (x != tried[n][i] || x == -1)
    requires forall b, p :: SlotPassed(places, infos, tried, n, i, b, p)
    requires forall id :: TriedLeft(places, infos, tried, setTried, n, i, id)
    requires TriedSlotOk(places, infos, tried, n, i)
    ensures forall b, p :: SlotPassed(places, infos, tried, n, i', b, p)
    ensures forall id :: TriedLeft(places, infos, tried, setTried', n, i', id)
  {
    forall b, p
      ensures SlotPassed(places, infos, tried, n, i', b, p)
    {
      assert SlotPassed(places, infos, tried, n, i, b, p);
    }
    forall id
      ensures TriedLeft(places, infos, tried, setTried', n, i', id)
    {
      assert TriedLeft(places, infos, tried, setTried, n, i, id);
    }
  }

  /** The end of one bucket is the start of the next. */
  lemma TriedRow(places: Places, infos: Infos, tried: Table, setTried: set<int>, n: int, n': int)
    requires HasShape(tried, TRIED_BUCKET_COUNT) && 0 <= n < TRIED_BUCKET_COUNT && n' == n + 1
    requires forall b, p :: SlotPassed(places, infos, tried, n, BUCKET_SIZE, b, p)
    requires forall id :: TriedLeft(places, infos, tried, setTried, n, BUCKET_SIZE, id)
    ensures forall b, p :: SlotPassed(places, infos, tried, n', 0, b, p)
    ensures forall id :: TriedLeft(places, infos, tried, setTried, n', 0, id)
  {
    forall b, p
      ensures SlotPassed(places, infos, tried, n', 0, b, p)
    {
      assert SlotPassed(places, infos, tried, n, BUCKET_SIZE, b, p);
    }
    forall id
      ensures TriedLeft(places, infos, tried, setTried, n', 0, id)
    {
      assert TriedLeft(places, infos, tried, setTried, n, BUCKET_SIZE, id);
    }
  }

  lemma TriedEnd(places: Places, infos: Infos, tried: Table, setTried: set<int>)
    requires HasShape(tried, TRIED_BUCKET_COUNT)
    requires forall b, p :: SlotPassed(places, infos, tried, TRIED_BUCKET_COUNT, 0, b, p)
    requires forall id :: TriedLeft(places, infos, tried, setTried, TRIED_BUCKET_COUNT, 0, id)
    ensures setTried == {} <==> TriedOk(places, infos, tried)
  {
    forall b, p
      ensures TriedSlotOk(places, infos, tried, b, p)
    {
      assert SlotPassed(places, infos, tried, TRIED_BUCKET_COUNT, 0, b, p);
    }
    forall id
      ensures id in setTried <==> !TriedInfoOk(places, infos, tried, id)
    {
      assert TriedLeft(places, infos, tried, setTried, TRIED_BUCKET_COUNT, 0, id);
    }
    if |setTried| > 0 {
      var id := Sets.Member(setTried);
      assert !TriedInfoOk(places, infos, tried, id);
    }
  }

  // ---------- The loop over the new table ----------

  /** The references that were met. */
  ghost function RefsBefore(places: Places, news: Table, s: Service, id: int, n: int, i: int): set<int>
    requires HasShape(news, NEW_BUCKET_COUNT)
  {
    set b | b in Refs(places, news, s, id) && Before(b, places.Position(true, b, s), n, i)
  }

  /** What is left of a reference count. */
  ghost predicate NewLeft(places: Places, infos: Infos, news: Table, mapNew: map<int, int>, n: int, i: int, id: int)
    requires HasShape(news, NEW_BUCKET_COUNT)
  {
    if id in infos && !infos[id].inTried then
      var met := |RefsBefore(places, news, infos[id].Service(), id, n, i)|;
      && met <= infos[id].refCount
      && (id in mapNew <==> met < infos[id].refCount)
      && (id in mapNew ==> mapNew[id] == infos[id].refCount - met)
    else
      id !in mapNew
  }

  ghost predicate NewPassed(places: Places, infos: Infos, news: Table, n: int, i: int, b: int, p: int) {
    Before(b, p, n, i) ==> NewSlotOk(places, infos, news, b, p)
  }

  method CheckNew(places: Places, infos: Infos, news: Table, counts: map<int, int>)
    returns (err: int, mapNew: map<int, int>)
    requires HasShape(news, NEW_BUCKET_COUNT) && counts.Keys == NewIds(infos) && -1 !in infos
    requires forall id | id in counts :: counts[id] == infos[id].refCount >= 1
    requires forall id | id in TriedIds(infos) :: infos[id].refCount == 0
    ensures err != -16
    ensures err == 0 && mapNew == map[] <==> NewOk(places, infos, news)
  {
    hide RefsBefore;
    err, mapNew := 0, counts;
    NewStart(places, infos, news, counts);
    var n := 0;
    while n < NEW_BUCKET_COUNT
      invariant 0 <= n <= NEW_BUCKET_COUNT
      invariant forall b, p :: NewPassed(places, infos, news, n, 0, b, p)
      invariant forall id :: NewLeft(places, infos, news, mapNew, n, 0, id)
    {
      var i := 0;
      while i < BUCKET_SIZE
        invariant 0 <= i <= BUCKET_SIZE
        invariant forall b, p :: NewPassed(places, infos, news, n, i, b, p)
        invariant forall id :: NewLeft(places, infos, news, mapNew, n, i, id)
      {
        var id := news[n][i];
        ghost var before := mapNew;
        assert NewLeft(places, infos, news, mapNew, n, i, id);
        if id != -1 {
          if id !in mapNew {
            TooMany(places, infos, news, mapNew, n, i);
            return -12, mapNew;
          }
          if places.Position(true, n, infos[id].Service()) != i {
            assert !NewSlotOk(places, infos, news, n, i);
            return -19, mapNew;
          }
          mapNew := mapNew[id := mapNew[id] - 1];
          if mapNew[id] == 0 {
            mapNew := mapNew - {id};
          }
        }
        ghost var here := i;
        i := i + 1;
        NewStep(places, infos, news, before, mapNew, n, here, i);
      }
      ghost var bucket := n;
      n := n + 1;
      NewRow(places, infos, news, mapNew, bucket, n);
    }
    NewEnd(places, infos, news, mapNew);
  }

  lemma NewStart(places: Places, infos: Infos, news: Table, counts: map<int, int>)
    requires HasShape(news, NEW_BUCKET_COUNT) && counts.Keys == NewIds(infos)
    requires forall id | id in counts :: counts[id] == infos[id].refCount >= 1
    ensures forall b, p :: NewPassed(places, infos, news, 0, 0, b, p)
    ensures forall id :: NewLeft(places, infos, news, counts, 0, 0, id)
  {
    forall b, p
      ensures NewPassed(places, infos, news, 0, 0, b, p)
    {
    }
    forall id
      ensures NewLeft(places, infos, news, counts, 0, 0, id)
    {
      assert id in counts <==> id in NewIds(infos);
      if id in counts {
        assert RefsBefore(places, news, infos[id].Service(), id, 0, 0) == {};
      }
    }
  }

  /** A slot whose entry has no count left: the entry is not new, is misplaced, or has more slots than it counts. */
  lemma TooMany(places: Places, infos: Infos, news: Table, mapNew: map<int, int>, n: int, i: int)
    requires HasShape(news, NEW_BUCKET_COUNT) && InTable(news, n, i) && news[n][i] != -1 && news[n][i] !in mapNew
    requires NewLeft(places, infos, news, mapNew, n, i, news[n][i])
    ensures !NewOk(places, infos, news)
  {
    var id := news[n][i];
    if NewSlotOk(places, infos, news, n, i) {
      var s := infos[id].Service();
      var met, all := RefsBefore(places, news, s, id, n, i), Refs(places, news, s, id);
      assert n in all && n !in met && met <= all;
      Sets.SubsetSize(met, all);
      assert !NewInfoOk(places, infos, news, id);
    }
  }

  lemma MetMore(places: Places, news: Table, s: Service, id: int, n: int, i: int, i': int)
    requires HasShape(news, NEW_BUCKET_COUNT) && InTable(news, n, i) && i' == i + 1
    ensures RefsBefore(places, news, s, id, n, i') ==
            RefsBefore(places, news, s, id, n, i) + (if news[n][i] == id && places.Position(true, n, s) == i then {n}
                                                     else {})
    ensures n in RefsBefore(places, news, s, id, n, i) ==> places.Position(true, n, s) < i
  {
  }

  lemma NewStep(places: Places, infos: Infos, news: Table, before: map<int, int>, after: map<int, int>, n: int, i: int,
                i': int)
    requires HasShape(news, NEW_BUCKET_COUNT) && InTable(news, n, i) && -1 !in infos && i' == i + 1
    requires forall b, p :: NewPassed(places, infos, news, n, i, b, p)
    requires forall id :: NewLeft(places, infos, news, before, n, i, id)
    requires NewSlotOk(places, infos, news, n, i)
    requires var id := news[n][i];
             if id == -1 then after == before
             else id in before && after == if before[id] == 1 then before - {id} else before[id := before[id] - 1]
    ensures forall b, p :: NewPassed(places, infos, news, n, i', b, p)
    ensures forall id :: NewLeft(places, infos, news, after, n, i', id)
  {
    hide RefsBefore;
    forall b, p
      ensures NewPassed(places, infos, news, n, i', b, p)
    {
      assert NewPassed(places, infos, news, n, i, b, p);
    }
    forall id
      ensures NewLeft(places, infos, news, after, n, i', id)
    {
      assert NewLeft(places, infos, news, before, n, i, id);
      if id in infos {
        MetMore(places, news, infos[id].Service(), id, n, i, i');
      }
    }
  }

  lemma NewRow(places: Places, infos: Infos, news: Table, mapNew: map<int, int>, n: int, n': int)
    requires HasShape(news, NEW_BUCKET_COUNT) && 0 <= n < NEW_BUCKET_COUNT && n' == n + 1
    requires forall b, p :: NewPassed(places, infos, news, n, BUCKET_SIZE, b, p)
    requires forall id :: NewLeft(places, infos, news, mapNew, n, BUCKET_SIZE, id)
    ensures forall b, p :: NewPassed(places, infos, news, n', 0, b, p)
    ensures forall id :: NewLeft(places, infos, news, mapNew, n', 0, id)
  {
    forall b, p
      ensures NewPassed(places, infos, news, n', 0, b, p)
    {
      assert NewPassed(places, infos, news, n, BUCKET_SIZE, b, p);
    }
    forall id
      ensures NewLeft(places, infos, news, mapNew, n', 0, id)
    {
      assert NewLeft(places, infos, news, mapNew, n, BUCKET_SIZE, id);
      if id in infos {
        var s := infos[id].Service();
        assert RefsBefore(places, news, s, id, n', 0) == RefsBefore(places, news, s, id, n, BUCKET_SIZE);
      }
    }
  }

  lemma NewEnd(places: Places, infos: Infos, news: Table, mapNew: map<int, int>)
    requires HasShape(news, NEW_BUCKET_COUNT) && -1 !in infos
    requires forall b, p :: NewPassed(places, infos, news, NEW_BUCKET_COUNT, 0, b, p)
    requires forall id :: NewLeft(places, infos, news, mapNew, NEW_BUCKET_COUNT, 0, id)
    requires forall id | id in TriedIds(infos) :: infos[id].refCount == 0
    ensures mapNew == map[] <==> NewOk(places, infos, news)
  {
    forall b, p
      ensures NewSlotOk(places, infos, news, b, p)
    {
      assert NewPassed(places, infos, news, NEW_BUCKET_COUNT, 0, b, p);
    }
    forall id
      ensures id in mapNew <==> !NewInfoOk(places, infos, news, id)
    {
      assert NewLeft(places, infos, news, mapNew, NEW_BUCKET_COUNT, 0, id);
      if id in infos {
        var refs := Refs(places, news, infos[id].Service(), id);
        assert RefsBefore(places, news, infos[id].Service(), id, NEW_BUCKET_COUNT, 0) == refs;
        if infos[id].inTried {
          assert id in TriedIds(infos);
          NoRefs(places, infos, news, id);
        }
      }
    }
    if |mapNew.Keys| > 0 {
      var id := Sets.Member(mapNew.Keys);
      assert !NewInfoOk(places, infos, news, id);
    }
  }

  lemma NoRefs(places: Places, infos: Infos, news: Table, id: int)
    requires HasShape(news, NEW_BUCKET_COUNT) && id in infos && infos[id].inTried && id != -1
    requires forall b, p :: NewSlotOk(places, infos, news, b, p)
    ensures Refs(places, news, infos[id].Service(), id) == {}
  {
    forall b: int | 0 <= b < NEW_BUCKET_COUNT
      ensures b !in Refs(places, news, infos[id].Service(), id)
    {
      assert NewSlotOk(places, infos, news, b, places.Position(true, b, infos[id].Service()));
    }
  }

  /** What the first loop hands to the others. */
  lemma Collection(t: Tables, addrs: map<NetAddr, int>, mapNew: map<int, int>)
    requires forall id :: InfoChecked(t.infos, addrs, t.random, id)
    requires mapNew.Keys == NewIds(t.infos) && forall id | id in mapNew :: mapNew[id] == t.infos[id].refCount
    ensures |mapNew| == |NewIds(t.infos)|
    ensures forall id | id in mapNew :: mapNew[id] == t.infos[id].refCount >= 1
    ensures forall id | id in TriedIds(t.infos) :: t.infos[id].refCount == 0
  {
    forall id
      ensures id in mapNew ==> t.infos[id].refCount >= 1
      ensures id in TriedIds(t.infos) ==> t.infos[id].refCount == 0
    {
      assert InfoChecked(t.infos, addrs, t.random, id);
    }
    assert |mapNew| == |mapNew.Keys|;
  }

  lemma BookedIds(t: Tables)
    requires Booked(t)
    ensures forall id | id in t.infos :: t.infos[id].Ip() in t.addrs
    ensures -1 !in t.infos
  {
    forall id | id in t.infos
      ensures t.infos[id].Ip() in t.addrs && id != -1
    {
      assert InfoLinked(t.infos, t.addrs, t.idCount, id);
    }
  }
}
