/**
 Writing a consistent address manager and reading it back restores both tables, up to the renaming of ids by the order
 in which the records are written; nothing is lost and no limit is hit.
 */
module AddrRoundTrip {
  import opened AddrTables
  import opened AddrCheck
  import opened AddrCodec
  import opened Basics
  import Sets

  // ---------- The order in which the records are written ----------

  ghost predicate IsPicked(infos: Infos, tried: bool, k: nat, end: nat, id: int) {
    k <= id < end && id in infos && Picks(infos[id], tried)
  }

  lemma {:induction false} PickedFacts(infos: Infos, tried: bool, k: nat, end: nat) returns (r: seq<int>)
    requires k <= end
    ensures r == Picked(infos, tried, k, end)
    ensures forall i | 0 <= i < |r| :: IsPicked(infos, tried, k, end, r[i])
    ensures forall i, j | 0 <= i < j < |r| :: r[i] < r[j]
    ensures forall id | IsPicked(infos, tried, k, end, id) :: id in r
    decreases end - k
  {
    r := [];
    if k < end {
      var rest := PickedFacts(infos, tried, k + 1, end);
      r := if IsPicked(infos, tried, k, end, k) then [k] + rest else rest;
      forall i | 0 <= i < |rest|
        ensures IsPicked(infos, tried, k, end, rest[i]) && rest[i] > k
      {
        assert IsPicked(infos, tried, k + 1, end, rest[i]);
      }
      forall id | IsPicked(infos, tried, k, end, id)
        ensures id in r
      {
        assert id == k || IsPicked(infos, tried, k + 1, end, id);
      }
    }
  }

  lemma {:induction false} RecordsAre(infos: Infos, tried: bool, k: nat, end: nat)
    requires k <= end
    ensures
      var r, ids := Records(infos, tried, k, end), Picked(infos, tried, k, end);
      && |r| == |ids|
      && forall i | 0 <= i < |r| :: ids[i] in infos && r[i] == Rec(Saved(infos[ids[i]]))
    decreases end - k
  {
    if k < end {
      RecordsAre(infos, tried, k + 1, end);
    }
  }

  ghost predicate Listed(t: Tables, order: seq<int>, x: int) {
    0 <= x < |order| ==> order[x] in t.infos && (t.infos[order[x]].inTried <==> x >= t.nNew)
  }

  ghost predicate Covered(t: Tables, order: seq<int>, id: int) {
    id in t.infos ==> id in order
  }

  ghost predicate Distinct(order: seq<int>, x: int, y: int) {
    0 <= x < y < |order| ==> order[x] != order[y]
  }

  /** Every id once, the new ones first. */
  ghost predicate Lists(t: Tables, order: seq<int>) {
    && t.nNew >= 0 && t.nTried >= 0 && |order| == t.nNew + t.nTried
    && (forall x :: Listed(t, order, x))
    && (forall x, y :: Distinct(order, x, y))
    && (forall id :: Covered(t, order, id))
  }

  /** In a consistent state the records with references are those that are not tried. */
  lemma RefsIffNew(t: Tables, places: Places, id: int)
    requires Inv(t, places, {}, 0) && id in t.infos
    ensures Picks(t.infos[id], false) <==> !t.infos[id].inTried
    ensures 0 <= id < t.idCount
  {
    assert InfoSettled(t.infos, {}, id) && InfoLinked(t.infos, t.addrs, t.idCount, id);
    if t.infos[id].inTried {
      TriedUnreferenced(places, t.infos, t.news, id);
    }
  }

  /** The number of records of a pass is the counter. */
  lemma PickedCount(t: Tables, places: Places, tried: bool)
    requires Inv(t, places, {}, 0)
    ensures |Picked(t.infos, tried, 0, t.idCount)| == if tried then t.nTried else t.nNew
  {
    var r := PickedFacts(t.infos, tried, 0, t.idCount);
    var ids := if tried then TriedIds(t.infos) else NewIds(t.infos);
    assert NewIds(t.infos) - {} == NewIds(t.infos);
    forall id
      ensures id in r <==> id in ids
    {
      if id in t.infos {
        RefsIffNew(t, places, id);
        assert id in ids ==> IsPicked(t.infos, tried, 0, t.idCount, id);
      }
      if id in r {
        var i :| 0 <= i < |r| && r[i] == id;
        assert IsPicked(t.infos, tried, 0, t.idCount, r[i]);
      }
    }
    Sets.SizeOf(r, ids);
  }

  lemma SlotsAreListed(t: Tables, places: Places)
    requires Inv(t, places, {}, 0)
    ensures forall b, i | InTable(t.news, b, i) && t.news[b][i] != -1 ::
              t.news[b][i] in Picked(t.infos, false, 0, t.idCount)
  {
    var news := PickedFacts(t.infos, false, 0, t.idCount);
    forall b, i | InTable(t.news, b, i) && t.news[b][i] != -1
      ensures t.news[b][i] in news
    {
      assert NewSlotOk(places, t.infos, t.news, b, i);
      RefsIffNew(t, places, t.news[b][i]);
      assert IsPicked(t.infos, false, 0, t.idCount, t.news[b][i]);
    }
  }

  lemma OrderLists(t: Tables, places: Places)
    requires Inv(t, places, {}, 0)
    ensures Lists(t, Order(t)) && Order(t)[..t.nNew] == Picked(t.infos, false, 0, t.idCount)
  {
    assert t.idCount >= 0;
    hide Inv;
    PickedCount(t, places, false);
    PickedCount(t, places, true);
    var news := PickedFacts(t.infos, false, 0, t.idCount);
    var tried := PickedFacts(t.infos, true, 0, t.idCount);
    var order := Order(t);
    forall x
      ensures Listed(t, order, x)
    {
      if 0 <= x < |order| {
        assert order[x] == if x < t.nNew then news[x] else tried[x - t.nNew];
        RefsIffNew(t, places, order[x]);
      }
    }
    forall x, y
      ensures Distinct(order, x, y)
    {
      assert Listed(t, order, x) && Listed(t, order, y);
    }
    forall id
      ensures Covered(t, order, id)
    {
      if id in t.infos {
        RefsIffNew(t, places, id);
        assert IsPicked(t.infos, t.infos[id].inTried, 0, t.idCount, id);
      }
    }
  }

  // ---------- The records ----------

  function Stored(t: Tables, order: seq<int>, x: nat): Record
    requires x < |order| && order[x] in t.infos
  {
    Saved(t.infos[order[x]])
  }

  /** Of the first k records each has its place as its id. */
  ghost predicate EntryBuilt(t: Tables, order: seq<int>, infos: Infos, k: int, x: int)
    requires forall y :: Listed(t, order, y)
  {
    && (x in infos <==> 0 <= x < k)
    && (0 <= x < k && x < |order| ==>
          assert Listed(t, order, x);
          infos[x] == Restored(Stored(t, order, x)).(randomPos := x, inTried := x >= t.nNew,
                                                     refCount := infos[x].refCount))
  }

  ghost predicate EntriesBuilt(t: Tables, order: seq<int>, infos: Infos, k: int)
    requires forall y :: Listed(t, order, y)
  {
    forall x :: EntryBuilt(t, order, infos, k, x)
  }

  function Min(a: int, b: int): int {
    if a < b then a else b
  }

  function Over(a: int): int {
    if a < 0 then 0 else a
  }

  /** The tables after k records, with the counters as they should be by then: consistent, but for the new entries,
      which are all still in limbo. */
  ghost predicate Built(t: Tables, order: seq<int>, places: Places, u: Tables, k: nat) {
    && Lists(t, order) && k <= |order| && u.nNew == t.nNew && |u.random| == k
    && EntriesBuilt(t, order, u.infos, k)
    && u.news == EmptyTable(NEW_BUCKET_COUNT)
    && Inv(u.(idCount := k, nTried := Over(k - t.nNew)), places, Sets.Upto(Min(k, t.nNew)), t.nNew)
  }

  lemma SameAddress(t: Tables, order: seq<int>, places: Places, x: nat, y: nat)
    requires Inv(t, places, {}, 0) && Lists(t, order) && x <= y < |order|
    requires order[x] in t.infos && order[y] in t.infos && t.infos[order[x]].Ip() == t.infos[order[y]].Ip()
    ensures x == y
  {
    assert Distinct(order, x, y);
    assert InfoLinked(t.infos, t.addrs, t.idCount, order[x]) && InfoLinked(t.infos, t.addrs, t.idCount, order[y]);
  }

  lemma SameSlot(t: Tables, order: seq<int>, places: Places, x: nat, y: nat)
    requires Inv(t, places, {}, 0) && Lists(t, order) && x <= y < |order|
    requires order[x] in t.infos && order[y] in t.infos && t.infos[order[x]].inTried && t.infos[order[y]].inTried
    requires
      var s, s' := t.infos[order[x]].Service(), t.infos[order[y]].Service();
      var b := places.TriedBucket(s);
      places.TriedBucket(s') == b && places.Position(false, b, s') == places.Position(false, b, s)
    ensures x == y
  {
    assert Distinct(order, x, y);
    assert TriedInfoOk(places, t.infos, t.tried, order[x]) && TriedInfoOk(places, t.infos, t.tried, order[y]);
  }

  /** The address of the next record is not there yet. */
  lemma AddressIsNew(t: Tables, order: seq<int>, places: Places, w: Tables, k: nat, limbo: set<int>, extra: int)
    requires Inv(t, places, {}, 0) && Lists(t, order) && k < |order|
    requires EntriesBuilt(t, order, w.infos, k) && Inv(w, places, limbo, extra)
    ensures order[k] in t.infos && Stored(t, order, k).address.service.ip !in w.addrs
  {
    assert Listed(t, order, k);
    var ip := Stored(t, order, k).address.service.ip;
    if ip in w.addrs {
      var x := w.addrs[ip];
      assert AddrLinked(w.infos, w.addrs, ip);
      assert EntryBuilt(t, order, w.infos, k, x) && Listed(t, order, x);
      SameAddress(t, order, places, x, k);
    }
  }

  lemma EnterBuilt(t: Tables, order: seq<int>, infos: Infos, k: nat, info: Info)
    requires Lists(t, order) && k < |order| && EntriesBuilt(t, order, infos, k)
    requires order[k] in t.infos && info == Restored(Stored(t, order, k)).(randomPos := k, inTried := k >= t.nNew)
    ensures EntriesBuilt(t, order, infos[k := info], k + 1)
  {
    var entered, k' := infos[k := info], k + 1;
    forall x
      ensures EntryBuilt(t, order, entered, k', x)
    {
      assert EntryBuilt(t, order, infos, k, x);
    }
  }

  lemma NewFirst(t: Tables, order: seq<int>, k: nat)
    requires Lists(t, order) && (k < t.nNew || k < |order|)
    ensures 0 <= t.nNew <= |order| && k < |order|
    ensures order[k] in t.infos && (t.infos[order[k]].inTried <==> k >= t.nNew)
  {
    assert Listed(t, order, k);
  }

  lemma UsableNew(u: Tables, places: Places, r: Record, k: nat)
    requires HasShape(u.news, NEW_BUCKET_COUNT)
    ensures LoadNew(u, places, r, k, true) == Enter(u.(idCount := k), Restored(r)).(idCount := u.idCount)
  {
  }

  lemma BuildNew(t: Tables, order: seq<int>, places: Places, u: Tables, k: nat)
    requires Inv(t, places, {}, 0) && Built(t, order, places, u, k) && k < t.nNew
    ensures order[k] in t.infos && Built(t, order, places, LoadNew(u, places, Stored(t, order, k), k, true), k + 1)
  {
    hide Inv, EntriesBuilt, Lists, Sets.Upto, LoadNew, EmptyTable;
    NewFirst(t, order, k);
    var w := u.(idCount := k, nTried := 0);
    AddressIsNew(t, order, places, w, k, Sets.Upto(k), t.nNew);
    SettledTimes(t, places, order[k]);
    var info := Restored(Stored(t, order, k));
    EnterKeeps(w, places, Sets.Upto(k), t.nNew, info);
    EnterBuilt(t, order, u.infos, k, info.(randomPos := k));
    UsableNew(u, places, Stored(t, order, k), k);
    var u' := LoadNew(u, places, Stored(t, order, k), k, true);
    assert u'.(idCount := k + 1, nTried := 0) == Enter(w, info);
    Sets.UptoNext(k);
  }

  /** The slot of the next tried record is free. */
  lemma SlotIsFree(t: Tables, order: seq<int>, places: Places, w: Tables, k: nat, limbo: set<int>, extra: int)
    requires Inv(t, places, {}, 0) && Lists(t, order) && t.nNew <= k < |order|
    requires EntriesBuilt(t, order, w.infos, k) && Inv(w, places, limbo, extra)
    ensures
      order[k] in t.infos &&
      var s := t.infos[order[k]].Service();
      var b := places.TriedBucket(s);
      w.tried[b][places.Position(false, b, s)] == -1
  {
    assert Listed(t, order, k);
    var s := t.infos[order[k]].Service();
    var b := places.TriedBucket(s);
    var p := places.Position(false, b, s);
    var x := w.tried[b][p];
    if x != -1 {
      assert TriedSlotOk(places, w.infos, w.tried, b, p);
      assert EntryBuilt(t, order, w.infos, k, x) && Listed(t, order, x);
      SameSlot(t, order, places, x, k);
    }
  }

  lemma BuildTried(t: Tables, order: seq<int>, places: Places, u: Tables, k: nat)
    requires Inv(t, places, {}, 0) && Built(t, order, places, u, k) && t.nNew <= k < |order| && u.idCount == k
    ensures
      order[k] in t.infos && HasShape(u.tried, TRIED_BUCKET_COUNT) &&
      var u' := LoadTried(u, places, Stored(t, order, k));
      Built(t, order, places, u', k + 1) && u'.idCount == k + 1 && u'.nTried == u.nTried
  {
    hide Inv, EntriesBuilt, Lists, Sets.Upto, EmptyTable;
    NewFirst(t, order, k);
    var w, limbo := u.(nTried := k - t.nNew), Sets.Upto(t.nNew);
    Shapes(w, places, limbo, t.nNew);
    AddressIsNew(t, order, places, w, k, limbo, t.nNew);
    SettledTimes(t, places, order[k]);
    SlotIsFree(t, order, places, w, k, limbo, t.nNew);
    var info := Restored(Stored(t, order, k));
    PlaceNext(w, places, limbo, t.nNew, info);
    EnterBuilt(t, order, u.infos, k, info.(randomPos := k, inTried := true));
    var u' := LoadTried(u, places, Stored(t, order, k));
    assert u'.(idCount := k + 1, nTried := k + 1 - t.nNew) == Placed(w, places, info);
  }

  /** Entering a record and giving it its tried slot. */
  function Placed(w: Tables, places: Places, info: Info): Tables
    requires HasShape(w.tried, TRIED_BUCKET_COUNT)
  {
    var b := places.TriedBucket(info.Service());
    Place(Enter(w, info), b, places.Position(false, b, info.Service()), w.idCount)
  }

  lemma PlaceNext(w: Tables, places: Places, limbo: set<int>, extra: int, info: Info)
    requires Inv(w, places, limbo, extra) && info.Ip() !in w.addrs && w.idCount !in limbo
    requires !info.inTried && info.refCount == 0 && info.lastTry >= 0 && info.lastSuccess > 0
    requires
      var b := places.TriedBucket(info.Service());
      w.tried[b][places.Position(false, b, info.Service())] == -1
    ensures Inv(Placed(w, places, info), places, limbo, extra)
    ensures Placed(w, places, info).infos == w.infos[w.idCount := info.(randomPos := |w.random|, inTried := true)]
  {
    hide Inv;
    Shapes(w, places, limbo, extra);
    EnterKeeps(w, places, limbo, extra, info);
    var e, b := Enter(w, info), places.TriedBucket(info.Service());
    PlaceKeeps(e, places, limbo + {w.idCount}, extra, b, places.Position(false, b, info.Service()), w.idCount);
    assert limbo + {w.idCount} - {w.idCount} == limbo;
  }

  /** The stream goes on with the records from k up to `end`. */
  ghost predicate Continues(t: Tables, order: seq<int>, s: Stream, k: nat, end: nat) {
    && k <= end <= |order| && |s| >= end - k
    && forall x :: RecordAt(t, order, s, k, end, x)
  }

  ghost predicate RecordAt(t: Tables, order: seq<int>, s: Stream, k: nat, end: nat, x: nat) {
    k <= x < end && x - k < |s| && x < |order| && order[x] in t.infos ==> s[x - k] == Rec(Stored(t, order, x))
  }

  lemma ContinuesOn(t: Tables, order: seq<int>, s: Stream, k: nat, end: nat)
    requires Continues(t, order, s, k, end) && k < end && order[k] in t.infos
    ensures s != [] && s[0] == Rec(Stored(t, order, k)) && Continues(t, order, s[1..], k + 1, end)
  {
    assert RecordAt(t, order, s, k, end, k);
    var rest, k' := s[1..], k + 1;
    forall x: nat
      ensures RecordAt(t, order, rest, k', end, x)
    {
      assert RecordAt(t, order, s, k, end, x);
    }
  }

  lemma BuiltTidy(t: Tables, order: seq<int>, places: Places, u: Tables, k: nat)
    requires Built(t, order, places, u, k)
    ensures Tidy(u, k, Min(k, t.nNew))
  {
    var loaded := Min(k, t.nNew);
    forall x
      ensures InRange(u.infos, k, loaded, x)
    {
      assert EntryBuilt(t, order, u.infos, k, x);
    }
  }

  lemma {:induction false} NewPhase(t: Tables, order: seq<int>, places: Places, u: Tables, s: Stream, k: nat)
    returns (u': Tables)
    requires Inv(t, places, {}, 0) && Built(t, order, places, u, k) && k <= t.nNew && Continues(t, order, s, k, t.nNew)
    ensures Tidy(u, k, k) && ReadNew(u, places, s, k, t.nNew, true) == Some((u', s[t.nNew - k..]))
    ensures Built(t, order, places, u', t.nNew) && u'.nTried == u.nTried
    decreases t.nNew - k
  {
    hide Inv, Built, Tidy, Continues, LoadNew;
    BuiltTidy(t, order, places, u, k);
    u' := u;
    ContinuesLength(t, order, s, k, t.nNew);
    if k < t.nNew {
      BuildNew(t, order, places, u, k);
      ContinuesOn(t, order, s, k, t.nNew);
      LoadNewTidy(u, places, s[0].record, k, true);
      KeepsTried(u, places, s[0].record, k);
      u' := NewPhase(t, order, places, LoadNew(u, places, s[0].record, k, true), s[1..], k + 1);
    }
  }

  lemma ContinuesLength(t: Tables, order: seq<int>, s: Stream, k: nat, end: nat)
    requires Continues(t, order, s, k, end)
    ensures |s| >= end - k
  {
  }

  lemma KeepsTried(u: Tables, places: Places, r: Record, k: nat)
    requires HasShape(u.news, NEW_BUCKET_COUNT)
    ensures LoadNew(u, places, r, k, true).nTried == u.nTried
  {
  }

  lemma {:induction false} TriedPhase(t: Tables, order: seq<int>, places: Places, u: Tables, s: Stream, k: nat)
    returns (u': Tables)
    requires Inv(t, places, {}, 0) && Built(t, order, places, u, k) && t.nNew <= k <= |order| && u.idCount == k
    requires t.nNew >= 0 && Continues(t, order, s, k, |order|) && |order| == t.nNew + t.nTried
    ensures Tidy(u, k, t.nNew) && ReadTried(u, places, s, k - t.nNew, t.nTried, t.nNew) == Some((u', s[|order| - k..]))
    ensures Built(t, order, places, u', |order|) && u'.nTried == u.nTried && u'.idCount == |order|
    decreases |order| - k
  {
    hide Inv, Built, Tidy, Continues, LoadTried;
    BuiltTidy(t, order, places, u, k);
    u' := u;
    ContinuesLength(t, order, s, k, |order|);
    if k < |order| {
      BuildTried(t, order, places, u, k);
      ContinuesOn(t, order, s, k, |order|);
      LoadTriedTidy(u, places, s[0].record, t.nNew);
      u' := TriedPhase(t, order, places, LoadTried(u, places, s[0].record), s[1..], k + 1);
    }
  }

  // ---------- The new table ----------

  /** Slot (c, p) after the slots before (b, i) have been read. */
  ghost predicate SlotFilled(t: Tables, order: seq<int>, news: Table, b: int, i: int, c: int, p: int) {
    InTable(t.news, c, p) ==>
      && InTable(news, c, p)
      && if Before(c, p, b, i) && t.news[c][p] != -1 then
           0 <= news[c][p] < t.nNew && news[c][p] < |order| && order[news[c][p]] == t.news[c][p]
         else
           news[c][p] == -1
  }

  ghost predicate SlotsFilled(t: Tables, order: seq<int>, news: Table, b: int, i: int) {
    forall c, p :: SlotFilled(t, order, news, b, i, c, p)
  }

  /** The tables after the slots before (b, i). */
  ghost predicate Filled(t: Tables, order: seq<int>, places: Places, u: Tables, b: int, i: int) {
    && Lists(t, order) && u.nNew == t.nNew && u.idCount == |order| && u.nTried == t.nTried
    && EntriesBuilt(t, order, u.infos, |order|)
    && Inv(u, places, Sets.Upto(t.nNew), t.nNew)
    && SlotsFilled(t, order, u.news, b, i)
  }

  lemma FilledStart(t: Tables, order: seq<int>, places: Places, u: Tables)
    requires Built(t, order, places, u, |order|) && u.idCount == |order| && u.nTried == t.nTried
    requires HasShape(t.news, NEW_BUCKET_COUNT)
    ensures Filled(t, order, places, u, 0, 0)
  {
    hide Inv;
    forall c, p
      ensures SlotFilled(t, order, u.news, 0, 0, c, p)
    {
    }
    assert u.(idCount := |order|, nTried := Over(|order| - t.nNew)) == u;
  }

  /** An entry has fewer references so far than it had before, while one of its slots is still to come. */
  lemma MoreToCome(t: Tables, order: seq<int>, places: Places, u: Tables, b: nat, i: nat, x: nat)
    requires Inv(t, places, {}, 0) && Filled(t, order, places, u, b, i) && InTable(t.news, b, i)
    requires x < t.nNew <= |order| && order[x] == t.news[b][i] && t.news[b][i] != -1
    ensures order[x] in t.infos && x in u.infos && u.infos[x].Service() == t.infos[order[x]].Service()
    ensures places.Position(true, b, u.infos[x].Service()) == i
    ensures u.infos[x].refCount < NEW_BUCKETS_PER_ADDRESS
  {
    var id := order[x];
    assert Listed(t, order, x) && EntryBuilt(t, order, u.infos, |order|, x);
    var s := t.infos[id].Service();
    assert NewSlotOk(places, t.infos, t.news, b, i);
    RefsSoFar(t, order, places, u, b, i, x);
    assert NewInfoOk(places, t.infos, t.news, id) && NewInfoOk(places, u.infos, u.news, x);
    assert InfoSettled(t.infos, {}, id);
    assert SlotFilled(t, order, u.news, b, i, b, i);
    var all, met := Refs(places, t.news, s, id), Refs(places, u.news, s, x);
    assert b in all && b !in met;
    Sets.SubsetSize(met, all - {b});
  }

  lemma RefsSoFar(t: Tables, order: seq<int>, places: Places, u: Tables, b: nat, i: nat, x: nat)
    requires Inv(t, places, {}, 0) && Filled(t, order, places, u, b, i) && x < t.nNew <= |order| && order[x] in t.infos
    ensures
      var s := t.infos[order[x]].Service();
      Refs(places, u.news, s, x) ==
          set c | c in Refs(places, t.news, s, order[x]) && Before(c, places.Position(true, c, s), b, i)
  {
    var s := t.infos[order[x]].Service();
    assert InfoLinked(t.infos, t.addrs, t.idCount, order[x]);
    forall c: int | 0 <= c < NEW_BUCKET_COUNT
      ensures c in Refs(places, u.news, s, x) <==>
              c in Refs(places, t.news, s, order[x]) && Before(c, places.Position(true, c, s), b, i)
    {
      var p := places.Position(true, c, s);
      assert SlotFilled(t, order, u.news, b, i, c, p);
      var y := u.news[c][p];
      assert Distinct(order, x, y) && Distinct(order, y, x);
    }
  }

  lemma FillSlot(t: Tables, order: seq<int>, places: Places, u: Tables, b: nat, i: nat, x: nat)
    requires Inv(t, places, {}, 0) && Filled(t, order, places, u, b, i) && InTable(t.news, b, i)
    requires x < t.nNew <= |order| && order[x] == t.news[b][i] && t.news[b][i] != -1 && b < NEW_BUCKET_COUNT
    ensures
      && HasShape(u.news, NEW_BUCKET_COUNT) && x in u.infos
      && Filled(t, order, places, LoadSlot(u, places, b, x, true), b, i + 1)
      && LoadSlot(u, places, b, x, true).nNew == u.nNew
  {
    hide Inv, Lists, EntriesBuilt, SlotsFilled;
    MoreToCome(t, order, places, u, b, i, x);
    Shapes(u, places, Sets.Upto(t.nNew), t.nNew);
    FreeSlot(t, order, u.news, b, i);
    var r := AddRef(u, b, i, x);
    AddRefKeeps(u, places, Sets.Upto(t.nNew), t.nNew, b, i, x);
    RefCounted(t, order, u.infos, x, u.infos[x].refCount + 1);
    SlotPut(t, order, u.news, b, i, x, i + 1);
  }

  lemma FreeSlot(t: Tables, order: seq<int>, news: Table, b: nat, i: nat)
    requires SlotsFilled(t, order, news, b, i) && InTable(t.news, b, i)
    ensures InTable(news, b, i) && news[b][i] == -1
  {
    assert SlotFilled(t, order, news, b, i, b, i);
  }

  lemma RefCounted(t: Tables, order: seq<int>, infos: Infos, x: int, count: int)
    requires Lists(t, order) && EntriesBuilt(t, order, infos, |order|) && x in infos
    ensures EntriesBuilt(t, order, infos[x := infos[x].(refCount := count)], |order|)
  {
    var counted := infos[x := infos[x].(refCount := count)];
    forall y
      ensures EntryBuilt(t, order, counted, |order|, y)
    {
      assert EntryBuilt(t, order, infos, |order|, y);
    }
  }

  lemma SlotPut(t: Tables, order: seq<int>, news: Table, b: nat, i: nat, x: int, i': nat)
    requires SlotsFilled(t, order, news, b, i) && InTable(news, b, i) && i' == i + 1
    requires 0 <= x < t.nNew <= |order| && InTable(t.news, b, i) && order[x] == t.news[b][i] && t.news[b][i] != -1
    ensures SlotsFilled(t, order, Put(news, b, i, x), b, i')
  {
    var news' := Put(news, b, i, x);
    forall c, p
      ensures SlotFilled(t, order, news', b, i', c, p)
    {
      assert SlotFilled(t, order, news, b, i, c, p);
    }
  }

  lemma SkipSlot(t: Tables, order: seq<int>, places: Places, u: Tables, b: nat, i: nat, i': nat)
    requires Filled(t, order, places, u, b, i) && InTable(t.news, b, i) && t.news[b][i] == -1 && i' == i + 1
    ensures Filled(t, order, places, u, b, i')
  {
    forall c, p
      ensures SlotFilled(t, order, u.news, b, i', c, p)
    {
      assert SlotFilled(t, order, u.news, b, i, c, p);
    }
  }

  lemma NextBucket(t: Tables, order: seq<int>, places: Places, u: Tables, b: nat, b': nat)
    requires Filled(t, order, places, u, b, BUCKET_SIZE) && HasShape(t.news, NEW_BUCKET_COUNT) && b' == b + 1
    ensures Filled(t, order, places, u, b', 0)
  {
    forall c, p
      ensures SlotFilled(t, order, u.news, b', 0, c, p)
    {
      assert SlotFilled(t, order, u.news, b, BUCKET_SIZE, c, p);
    }
  }

  lemma FilledTidy(t: Tables, order: seq<int>, places: Places, u: Tables, b: int, i: int)
    requires Filled(t, order, places, u, b, i)
    ensures Tidy(u, u.idCount, u.nNew)
  {
    forall x
      ensures InRange(u.infos, u.idCount, u.nNew, x)
    {
      assert EntryBuilt(t, order, u.infos, |order|, x);
    }
  }

  /** The index that was written for a slot leads back to its entry. */
  lemma IndexIs(t: Tables, order: seq<int>, places: Places, b: nat, i: nat)
    requires Inv(t, places, {}, 0) && Lists(t, order) && InTable(t.news, b, i) && t.news[b][i] != -1
    ensures 0 <= t.nNew <= |order|
            && var x := Index(order[..t.nNew], t.news[b][i]); x < t.nNew && order[x] == t.news[b][i]
  {
    var id := t.news[b][i];
    assert NewSlotOk(places, t.infos, t.news, b, i) && Covered(t, order, id);
    var x :| 0 <= x < |order| && order[x] == id;
    assert Listed(t, order, x);
    assert order[..t.nNew][x] == id;
  }

  lemma {:induction false} RowPhase(t: Tables, order: seq<int>, places: Places, u: Tables, s: Stream, rest: Stream,
                                    b: nat, i: nat, n: nat, size: nat)
    returns (u': Tables)
    requires Inv(t, places, {}, 0) && Filled(t, order, places, u, b, i) && b < |t.news| == NEW_BUCKET_COUNT
             && i <= |t.news[b]|
    requires 0 <= t.nNew <= |order| && s == Indices(order[..t.nNew], t.news[b], i) + rest
    requires size - n == |Indices(order[..t.nNew], t.news[b], i)|
    ensures Tidy(u, u.idCount, u.nNew) && ReadSlots(u, places, s, b, n, size, true) == Some((u', rest))
    ensures Filled(t, order, places, u', b, |t.news[b]|)
    decreases |t.news[b]| - i
  {
    hide Inv, Filled, Tidy, LoadSlot, Lists;
    FilledTidy(t, order, places, u, b, i);
    u' := u;
    var ids, row := order[..t.nNew], t.news[b];
    if i < |row| {
      if row[i] != -1 {
        ListsOf(t, order, places, u, b, i);
        IndexIs(t, order, places, b, i);
        var x := Index(ids, row[i]);
        assert s == [Num(x)] + (Indices(ids, row, i + 1) + rest);
        assert s[1..] == Indices(ids, row, i + 1) + rest;
        FillSlot(t, order, places, u, b, i, x);
        LoadSlotTidy(u, places, b, x, true, u.idCount);
        u' := RowPhase(t, order, places, LoadSlot(u, places, b, x, true), s[1..], rest, b, i + 1, n + 1, size);
      } else {
        SkipSlot(t, order, places, u, b, i, i + 1);
        u' := RowPhase(t, order, places, u, s, rest, b, i + 1, n, size);
      }
    } else {
      assert s == rest;
    }
  }

  lemma ListsOf(t: Tables, order: seq<int>, places: Places, u: Tables, b: int, i: int)
    requires Filled(t, order, places, u, b, i)
    ensures Lists(t, order)
  {
  }

  lemma {:induction false} BucketPhase(t: Tables, order: seq<int>, places: Places, u: Tables, s: Stream, b: nat)
    returns (u': Tables)
    requires Inv(t, places, {}, 0) && Filled(t, order, places, u, b, 0) && HasShape(t.news, NEW_BUCKET_COUNT)
             && b <= |t.news|
    requires 0 <= t.nNew <= |order| && s == Buckets(order[..t.nNew], t.news, b)
    ensures Tidy(u, u.idCount, u.nNew) && ReadBuckets(u, places, s, b, NEW_BUCKET_COUNT, true) == Some((u', []))
    ensures Filled(t, order, places, u', NEW_BUCKET_COUNT, 0)
    decreases |t.news| - b
  {
    hide Inv, Filled, Tidy, ReadSlots, Indices;
    FilledTidy(t, order, places, u, b, 0);
    u' := u;
    if b < |t.news| {
      var ids := order[..t.nNew];
      var row, rest := Indices(ids, t.news[b], 0), Buckets(ids, t.news, b + 1);
      assert s == [Num(|row|)] + row + rest;
      assert s[1..] == row + rest;
      var v := RowPhase(t, order, places, u, row + rest, rest, b, 0, 0, |row|);
      NextBucket(t, order, places, v, b, b + 1);
      u' := BucketPhase(t, order, places, v, rest, b + 1);
    }
  }

  // ---------- The result ----------

  ghost predicate SlotSame(a: Table, c: Table, order: seq<int>, b: int, p: int) {
    InTable(a, b, p) ==>
      && InTable(c, b, p)
      && if a[b][p] == -1 then c[b][p] == -1 else 0 <= c[b][p] < |order| && order[c[b][p]] == a[b][p]
  }

  ghost predicate EntrySame(t: Tables, r: Tables, order: seq<int>, x: int) {
    && (x in r.infos <==> 0 <= x < |order|)
    && (x in r.infos ==>
          order[x] in t.infos && r.infos[x] == t.infos[order[x]].(lastTry := 0, lastCountAttempt := 0, randomPos := x))
  }

  /** The same tables, with id `order[x]` renamed to x, and but for the fields that are not stored. */
  ghost predicate Same(t: Tables, r: Tables, order: seq<int>) {
    && Lists(t, order) && r.nNew == t.nNew && r.nTried == t.nTried
    && (forall x :: EntrySame(t, r, order, x))
    && (forall b, p :: SlotSame(t.news, r.news, order, b, p))
    && (forall b, p :: SlotSame(t.tried, r.tried, order, b, p))
  }

  lemma SameRefCount(t: Tables, order: seq<int>, places: Places, u: Tables, x: nat)
    requires Inv(t, places, {}, 0) && Filled(t, order, places, u, NEW_BUCKET_COUNT, 0) && x < |order|
    ensures order[x] in t.infos && x in u.infos && u.infos[x].refCount == t.infos[order[x]].refCount
  {
    var id := order[x];
    assert Listed(t, order, x) && EntryBuilt(t, order, u.infos, |order|, x);
    if x < t.nNew {
      RefsSoFar(t, order, places, u, NEW_BUCKET_COUNT, 0, x);
      assert NewInfoOk(places, t.infos, t.news, id) && NewInfoOk(places, u.infos, u.news, x);
      var s := t.infos[id].Service();
      assert Refs(places, u.news, s, x) == Refs(places, t.news, s, id);
    } else {
      assert InfoLinked(t.infos, t.addrs, t.idCount, id);
      TriedUnreferenced(places, t.infos, t.news, id);
      TriedUnreferenced(places, u.infos, u.news, x);
    }
  }

  /** Once all slots are read no entry is in limbo any more. */
  lemma AllSettled(t: Tables, order: seq<int>, places: Places, u: Tables)
    requires Inv(t, places, {}, 0) && Filled(t, order, places, u, NEW_BUCKET_COUNT, 0)
    ensures Inv(u, places, {}, 0)
  {
    var limbo := Sets.Upto(t.nNew);
    forall x
      ensures InfoSettled(u.infos, {}, x)
      ensures x in NewIds(u.infos) <==> x in limbo
    {
      assert InfoSettled(u.infos, limbo, x) && EntryBuilt(t, order, u.infos, |order|, x);
      if x in u.infos {
        SameRefCount(t, order, places, u, x);
        assert Listed(t, order, x) && InfoSettled(t.infos, {}, order[x]);
      }
    }
    assert NewIds(u.infos) - {} == limbo;
  }

  lemma {:induction false} NothingToPrune(u: Tables, n: int)
    requires Ordered(u.infos, u.random) && forall id :: !Unused(u, id)
    ensures Prune(u, n, u.idCount) == u
    decreases u.idCount - n
  {
    if n < u.idCount {
      assert !Unused(u, n);
      NothingToPrune(u, n + 1);
    }
  }

  lemma SettledIsUsed(u: Tables, places: Places)
    requires Inv(u, places, {}, 0)
    ensures Prune(u, 0, u.idCount) == u
  {
    forall id
      ensures !Unused(u, id)
    {
      assert InfoSettled(u.infos, {}, id);
    }
    NothingToPrune(u, 0);
  }

  lemma FilledIsSame(t: Tables, order: seq<int>, places: Places, u: Tables)
    requires Inv(t, places, {}, 0) && Filled(t, order, places, u, NEW_BUCKET_COUNT, 0)
    ensures Same(t, u, order)
  {
    forall x
      ensures EntrySame(t, u, order, x)
    {
      assert EntryBuilt(t, order, u.infos, |order|, x) && Listed(t, order, x);
      if 0 <= x < |order| {
        SameRefCount(t, order, places, u, x);
      }
    }
    forall b, p
      ensures SlotSame(t.news, u.news, order, b, p)
    {
      assert SlotFilled(t, order, u.news, NEW_BUCKET_COUNT, 0, b, p);
    }
    forall b, p
      ensures SlotSame(t.tried, u.tried, order, b, p)
    {
      TriedSame(t, order, places, u, b, p);
    }
  }

  lemma TriedSame(t: Tables, order: seq<int>, places: Places, u: Tables, b: int, p: int)
    requires Inv(t, places, {}, 0) && Filled(t, order, places, u, NEW_BUCKET_COUNT, 0)
    ensures SlotSame(t.tried, u.tried, order, b, p)
  {
    if InTable(t.tried, b, p) {
      var id, x := t.tried[b][p], u.tried[b][p];
      assert TriedSlotOk(places, t.infos, t.tried, b, p) && TriedSlotOk(places, u.infos, u.tried, b, p);
      if x != -1 {
        assert EntryBuilt(t, order, u.infos, |order|, x) && Listed(t, order, x);
        assert TriedInfoOk(places, t.infos, t.tried, order[x]) && InfoLinked(t.infos, t.addrs, t.idCount, order[x]);
        assert id == order[x] >= 0;
      }
      if id != -1 {
        assert Covered(t, order, id);
        var y :| 0 <= y < |order| && order[y] == id;
        assert EntryBuilt(t, order, u.infos, |order|, y) && Listed(t, order, y);
        assert TriedInfoOk(places, u.infos, u.tried, y);
      }
    }
  }

  // ---------- The limits ----------

  /** The contents of the first n slots, bucket after bucket. */
  ghost function Contents(a: Table, n: nat): (r: set<int>)
    requires n <= |a| * BUCKET_SIZE && HasShape(a, |a|)
    ensures |r| <= n
    ensures forall b, p | 0 <= b && 0 <= p < BUCKET_SIZE && b * BUCKET_SIZE + p < n :: a[b][p] in r
  {
    if n == 0 then {} else Contents(a, n - 1) + {a[(n - 1) / BUCKET_SIZE][(n - 1) % BUCKET_SIZE]}
  }

  lemma NoMoreThanSlots(a: Table, ids: set<int>)
    requires HasShape(a, |a|) && forall id | id in ids :: exists b, p :: InTable(a, b, p) && a[b][p] == id
    ensures |ids| <= |a| * BUCKET_SIZE
  {
    var all := Contents(a, |a| * BUCKET_SIZE);
    forall id | id in ids
      ensures id in all
    {
      var b, p :| InTable(a, b, p) && a[b][p] == id;
      assert b * BUCKET_SIZE + p < |a| * BUCKET_SIZE;
    }
    Sets.SubsetSize(ids, all);
  }

  lemma WithinLimits(t: Tables, places: Places)
    requires Inv(t, places, {}, 0)
    ensures 0 <= t.nNew <= NEW_BUCKET_COUNT * BUCKET_SIZE && 0 <= t.nTried <= TRIED_BUCKET_COUNT * BUCKET_SIZE
  {
    assert NewIds(t.infos) - {} == NewIds(t.infos);
    forall id | id in NewIds(t.infos)
      ensures exists b, p :: InTable(t.news, b, p) && t.news[b][p] == id
    {
      var b := SomeBucket(t, places, id);
      assert InTable(t.news, b, places.Position(true, b, t.infos[id].Service()));
    }
    NoMoreThanSlots(t.news, NewIds(t.infos));
    forall id | id in TriedIds(t.infos)
      ensures exists b, p :: InTable(t.tried, b, p) && t.tried[b][p] == id
    {
      assert TriedInfoOk(places, t.infos, t.tried, id);
      var b := places.TriedBucket(t.infos[id].Service());
      assert InTable(t.tried, b, places.Position(false, b, t.infos[id].Service()));
    }
    NoMoreThanSlots(t.tried, TriedIds(t.infos));
  }

  // ---------- The round trip ----------

  lemma BlankIsBuilt(t: Tables, order: seq<int>, places: Places)
    requires Lists(t, order) && t.nNew >= 0
    ensures Built(t, order, places, Blank(t.nNew, t.nTried), 0)
  {
    var u := Blank(t.nNew, t.nTried);
    assert TriedIds(u.infos) == {} && NewIds(u.infos) == {};
    forall x
      ensures EntryBuilt(t, order, u.infos, 0, x)
    {
    }
  }

  /** The record part of the stream is the records in order. */
  lemma RecordsContinue(t: Tables, places: Places, rest: Stream)
    requires Inv(t, places, {}, 0)
    ensures
      var s := Records(t.infos, false, 0, t.idCount) + Records(t.infos, true, 0, t.idCount) + rest;
      && |Records(t.infos, false, 0, t.idCount)| == t.nNew >= 0 && |Records(t.infos, true, 0, t.idCount)| == t.nTried
      && |Order(t)| == t.nNew + t.nTried
      && Continues(t, Order(t), s, 0, t.nNew) && Continues(t, Order(t), s[t.nNew..], t.nNew, |Order(t)|)
      && s[t.nNew..][t.nTried..] == rest
  {
    assert t.idCount >= 0;
    hide Inv, Picked, Records;
    PickedCount(t, places, false);
    PickedCount(t, places, true);
    RecordsAre(t.infos, false, 0, t.idCount);
    RecordsAre(t.infos, true, 0, t.idCount);
    var news, tried := Records(t.infos, false, 0, t.idCount), Records(t.infos, true, 0, t.idCount);
    var s, order := news + tried + rest, Order(t);
    var n := t.nNew;
    var s' := s[n..];
    forall x: nat
      ensures RecordAt(t, order, s, 0, n, x)
    {
    }
    forall x: nat
      ensures RecordAt(t, order, s', n, |order|, x)
    {
      if n <= x < |order| {
        assert s'[x - n] == tried[x - n];
      }
    }
    assert s'[t.nTried..] == rest;
  }

  /** Reading what was written restores the tables; in particular nothing was lost or pruned, since the counters and
      the number of records are the same. */
  lemma BodyRoundTrip(t: Tables, places: Places)
    requires Inv(t, places, {}, 0)
    ensures
      var s := Records(t.infos, false, 0, t.idCount) + Records(t.infos, true, 0, t.idCount)
               + Buckets(Picked(t.infos, false, 0, t.idCount), t.news, 0);
      var r := Body(places, t.nNew, t.nTried, NEW_BUCKET_COUNT, true, s);
      && r.Loaded? && r.key == places.key && r.rest == []
      && Inv(r.t, places, {}, 0) && Same(t, r.t, Order(t))
  {
    hide Inv, Built, Filled, Records, Buckets, Same, Tidy, Order, Continues, Prune, Lists, Picked, ReadNew, ReadTried,
         ReadBuckets;
    Shapes(t, places, {}, 0);
    OrderLists(t, places);
    var order, ids := Order(t), Picked(t.infos, false, 0, t.idCount);
    var buckets := Buckets(ids, t.news, 0);
    RecordsContinue(t, places, buckets);
    var s := Records(t.infos, false, 0, t.idCount) + Records(t.infos, true, 0, t.idCount) + buckets;
    BlankIsBuilt(t, order, places);
    var a := NewPhase(t, order, places, Blank(t.nNew, t.nTried), s, 0);
    Renumbered(t, order, places, a);
    var b := TriedPhase(t, order, places, a.(idCount := t.nNew), s[t.nNew..], t.nNew);
    FilledStart(t, order, places, b);
    var c := BucketPhase(t, order, places, b, buckets, 0);
    AllSettled(t, order, places, c);
    SettledIsUsed(c, places);
    FilledIsSame(t, order, places, c);
  }

  lemma Renumbered(t: Tables, order: seq<int>, places: Places, u: Tables)
    requires t.nNew >= 0 && Built(t, order, places, u, t.nNew)
    ensures Built(t, order, places, u.(idCount := t.nNew), t.nNew)
  {
    hide Inv;
    assert u.(idCount := t.nNew, nTried := 0) == u.(idCount := t.nNew).(idCount := t.nNew, nTried := 0);
  }

  lemma DecodeHeader(hashes: Hashes, key: nat, nNew: int, nTried: int, body: Stream)
    requires nNew <= NEW_BUCKET_COUNT * BUCKET_SIZE && nTried <= TRIED_BUCKET_COUNT * BUCKET_SIZE
    ensures Decode(hashes, Header(key, nNew, nTried) + body) ==
            Body(Places(hashes, key), nNew, nTried, NEW_BUCKET_COUNT, true, body)
  {
    hide Body;
    var s := Header(key, nNew, nTried) + body;
    assert s[6..] == body;
  }

  lemma RoundTrip(t: Tables, hashes: Hashes, key: nat)
    requires Inv(t, Places(hashes, key), {}, 0)
    ensures
      var r := Decode(hashes, Encode(t, key));
      && r.Loaded? && r.key == key && r.rest == []
      && Inv(r.t, Places(hashes, key), {}, 0) && Same(t, r.t, Order(t))
  {
    hide Inv, Body, Same, Order, Records, Buckets, Picked, Header, Decode;
    var places := Places(hashes, key);
    Shapes(t, places, {}, 0);
    WithinLimits(t, places);
    BodyRoundTrip(t, places);
    var news, tried := Records(t.infos, false, 0, t.idCount), Records(t.infos, true, 0, t.idCount);
    var buckets := Buckets(Picked(t.infos, false, 0, t.idCount), t.news, 0);
    assert Encode(t, key) == Header(key, t.nNew, t.nTried) + (news + tried + buckets);
    DecodeHeader(hashes, key, t.nNew, t.nTried, news + tried + buckets);
  }
}
