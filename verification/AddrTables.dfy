/**
 The tables of the address manager (`CAddrMan`) as a value: one record per address with an id, found by address, by
 position in a random order, and by slots of the "new" and "tried" bucket tables. All of these must agree; the
 functions are what the operations do to the tables, and the lemmas say that they keep the agreement.
 */
module AddrTables {

  const TRIED_BUCKET_COUNT: nat := 256
  const NEW_BUCKET_COUNT: nat := 1024
  const BUCKET_SIZE: nat := 64
  const NEW_BUCKETS_PER_ADDRESS := 8
  const HORIZON_DAYS := 30
  const RETRIES := 3
  const MAX_FAILURES := 10
  const MIN_FAIL_DAYS := 7
  const GETADDR_MAX_PCT := 23
  const GETADDR_MAX := 2500

  /** A network address, without a port. */
  type NetAddr = nat

  datatype Service = Service(ip: NetAddr, port: nat)

  /** `CAddress`: a service with its advertised time and the numbers of its service bits. */
  datatype Address = Address(service: Service, time: int, services: set<nat>)

  /** `CAddrInfo`. */
  datatype Info = Info(
    address: Address, source: NetAddr,
    lastTry: int, lastCountAttempt: int, lastSuccess: int, attempts: int,
    refCount: int, inTried: bool, randomPos: int)
  {
    function Service(): Service {
      address.service
    }

    function Ip(): NetAddr {
      address.service.ip
    }

    /** Bad enough to be deleted. */
    predicate IsTerrible(now: int) {
      if lastTry != 0 && lastTry >= now - 60 then
        false
      else
        || address.time > now + 10 * 60
        || address.time == 0
        || now - address.time > HORIZON_DAYS * 24 * 60 * 60
        || (lastSuccess == 0 && attempts >= RETRIES)
        || (now - lastSuccess > MIN_FAIL_DAYS * 24 * 60 * 60 && attempts >= MAX_FAILURES)
    }
  }

  /** The keyed hash functions behind the choice of buckets and positions; nothing is assumed about them. */
  datatype Hashes = Hashes(
    tried: (nat, Service) -> nat,
    newer: (nat, NetAddr, NetAddr) -> nat,
    position: (nat, bool, nat, Service) -> nat)

  /** The hash functions with the secret key: where every address belongs. */
  datatype Places = Places(hashes: Hashes, key: nat) {
    function TriedBucket(s: Service): (b: nat)
      ensures b < TRIED_BUCKET_COUNT
    {
      hashes.tried(key, s) % TRIED_BUCKET_COUNT
    }

    function NewBucket(ip: NetAddr, source: NetAddr): (b: nat)
      ensures b < NEW_BUCKET_COUNT
    {
      hashes.newer(key, ip, source) % NEW_BUCKET_COUNT
    }

    function Position(isNew: bool, bucket: nat, s: Service): (p: nat)
      ensures p < BUCKET_SIZE
    {
      hashes.position(key, isNew, bucket, s) % BUCKET_SIZE
    }
  }

  /** Buckets of slots; a slot holds an id, or -1. */
  type Table = seq<seq<int>>

  predicate HasShape(t: Table, buckets: nat) {
    |t| == buckets && forall b | 0 <= b < |t| :: |t[b]| == BUCKET_SIZE
  }

  function EmptyTable(buckets: nat): (t: Table)
    ensures HasShape(t, buckets)
  {
    seq(buckets, _ => seq(BUCKET_SIZE, _ => -1))
  }

  predicate InTable(t: Table, b: int, p: int) {
    0 <= b < |t| && 0 <= p < |t[b]|
  }

  function Put(t: Table, b: nat, p: nat, id: int): (r: Table)
    requires InTable(t, b, p)
    ensures |r| == |t| && |r[b]| == |t[b]|
    ensures forall k | 0 <= k < |t| && k != b :: r[k] == t[k]
    ensures forall k | 0 <= k < |t[b]| :: r[b][k] == if k == p then id else t[b][k]
  {
    t[b := t[b][p := id]]
  }

  // ---------- The invariant, part by part ----------

  type Infos = map<int, Info>

  // Each part is a statement about one id, address, position or slot; the invariant says them for all.

  /** The address map leads from the record's address back to its id. */
  ghost predicate InfoLinked(infos: Infos, addrs: map<NetAddr, int>, idCount: int, id: int) {
    id in infos ==> 0 <= id < idCount && infos[id].Ip() in addrs && addrs[infos[id].Ip()] == id
  }

  ghost predicate AddrLinked(infos: Infos, addrs: map<NetAddr, int>, a: NetAddr) {
    a in addrs ==> var id := addrs[a]; id in infos && infos[id].Ip() == a
  }

  /** The record knows its place in the random order. */
  ghost predicate PosLinked(infos: Infos, random: seq<int>, id: int) {
    id in infos ==> var i := infos[id].randomPos; 0 <= i < |random| && random[i] == id
  }

  ghost predicate RandomLinked(infos: Infos, random: seq<int>, i: int) {
    0 <= i < |random| ==> var id := random[i]; id in infos && infos[id].randomPos == i
  }

  ghost predicate Linked(infos: Infos, addrs: map<NetAddr, int>, random: seq<int>, idCount: int) {
    && (forall id :: InfoLinked(infos, addrs, idCount, id))
    && (forall a :: AddrLinked(infos, addrs, a))
    && Ordered(infos, random)
  }

  ghost predicate Ordered(infos: Infos, random: seq<int>) {
    && (forall id :: PosLinked(infos, random, id))
    && (forall i :: RandomLinked(infos, random, i))
  }

  /** A tried slot that is in use holds a tried entry that belongs there. */
  ghost predicate TriedSlotOk(places: Places, infos: Infos, tried: Table, b: int, p: int) {
    InTable(tried, b, p) && tried[b][p] != -1 ==>
      var id := tried[b][p];
      && id in infos
      && infos[id].inTried
      && places.TriedBucket(infos[id].Service()) == b
      && places.Position(false, b, infos[id].Service()) == p
  }

  /** A tried entry is in its slot. */
  ghost predicate TriedInfoOk(places: Places, infos: Infos, tried: Table, id: int)
    requires HasShape(tried, TRIED_BUCKET_COUNT)
  {
    id in infos && infos[id].inTried ==>
      var b := places.TriedBucket(infos[id].Service());
      tried[b][places.Position(false, b, infos[id].Service())] == id
  }

  ghost predicate TriedOk(places: Places, infos: Infos, tried: Table) {
    && HasShape(tried, TRIED_BUCKET_COUNT)
    && (forall b, p :: TriedSlotOk(places, infos, tried, b, p))
    && (forall id :: TriedInfoOk(places, infos, tried, id))
  }

  /** The new buckets that hold the id at its own position. */
  ghost function Refs(places: Places, news: Table, s: Service, id: int): set<int>
    requires HasShape(news, NEW_BUCKET_COUNT)
  {
    set b: int | 0 <= b < NEW_BUCKET_COUNT && news[b][places.Position(true, b, s)] == id
  }

  /** A new slot that is in use holds an entry that is not tried and belongs there. */
  ghost predicate NewSlotOk(places: Places, infos: Infos, news: Table, b: int, p: int) {
    InTable(news, b, p) && news[b][p] != -1 ==>
      var id := news[b][p];
      id in infos && !infos[id].inTried && places.Position(true, b, infos[id].Service()) == p
  }

  /** The reference count is the number of slots. */
  ghost predicate NewInfoOk(places: Places, infos: Infos, news: Table, id: int)
    requires HasShape(news, NEW_BUCKET_COUNT)
  {
    id in infos ==> infos[id].refCount == |Refs(places, news, infos[id].Service(), id)|
  }

  ghost predicate NewOk(places: Places, infos: Infos, news: Table) {
    && HasShape(news, NEW_BUCKET_COUNT)
    && (forall b, p :: NewSlotOk(places, infos, news, b, p))
    && (forall id :: NewInfoOk(places, infos, news, id))
  }

  ghost function TriedIds(infos: Infos): set<int> {
    set id | id in infos && infos[id].inTried
  }

  ghost function NewIds(infos: Infos): set<int> {
    set id | id in infos && !infos[id].inTried
  }

  /** An entry is in one table or the other, at most eight times in the new one; the `limbo` entries are on their way
      and only have to be out of the tried table. */
  ghost predicate InfoSettled(infos: Infos, limbo: set<int>, id: int) {
    && (id in limbo ==> id in infos && !infos[id].inTried)
    && (id in infos ==>
          && infos[id].lastTry >= 0 && infos[id].lastSuccess >= 0
          && infos[id].refCount <= NEW_BUCKETS_PER_ADDRESS
          && (infos[id].inTried ==> infos[id].lastSuccess > 0)
          && (id !in limbo && !infos[id].inTried ==> infos[id].refCount >= 1))
  }

  ghost predicate Settled(infos: Infos, limbo: set<int>) {
    forall id :: InfoSettled(infos, limbo, id)
  }

  /** The counters are exact, but for `extra` entries in limbo that are counted as new. */
  ghost predicate Counted(infos: Infos, nTried: int, nNew: int, limbo: set<int>, extra: int) {
    nTried == |TriedIds(infos)| && nNew == |NewIds(infos) - limbo| + extra
  }

  /** The fields of the manager that the invariant is about, as a value. */
  datatype Tables = Tables(
    idCount: int, infos: Infos, addrs: map<NetAddr, int>, random: seq<int>,
    nTried: int, tried: Table, nNew: int, news: Table)

  /** Everything agrees, except that the `limbo` entries are neither settled nor, but for `extra` of them, counted. */
  ghost predicate Inv(t: Tables, places: Places, limbo: set<int>, extra: int) {
    && t.idCount >= 0
    && Linked(t.infos, t.addrs, t.random, t.idCount)
    && TriedOk(places, t.infos, t.tried)
    && NewOk(places, t.infos, t.news)
    && Settled(t.infos, limbo)
    && Counted(t.infos, t.nTried, t.nNew, limbo, extra)
  }

  // ---------- Updating one record ----------

  /** The record changes, but neither its address nor its place in the random order. */
  predicate SameIdentity(a: Info, b: Info) {
    a.Service() == b.Service() && a.randomPos == b.randomPos
  }

  lemma UpdateLinked(t: Tables, id: int, x: Info)
    requires Linked(t.infos, t.addrs, t.random, t.idCount) && id in t.infos && SameIdentity(t.infos[id], x)
    ensures Linked(t.infos[id := x], t.addrs, t.random, t.idCount)
  {
    var infos := t.infos[id := x];
    forall y
      ensures InfoLinked(infos, t.addrs, t.idCount, y) && PosLinked(infos, t.random, y)
              && RandomLinked(infos, t.random, y)
    {
      assert InfoLinked(t.infos, t.addrs, t.idCount, y) && PosLinked(t.infos, t.random, y)
             && RandomLinked(t.infos, t.random, y);
    }
    forall a
      ensures AddrLinked(infos, t.addrs, a)
    {
      assert AddrLinked(t.infos, t.addrs, a);
    }
  }

  lemma UpdateTried(places: Places, infos: Infos, tried: Table, id: int, x: Info)
    requires TriedOk(places, infos, tried) && id in infos
    requires infos[id].Service() == x.Service() && infos[id].inTried == x.inTried
    ensures TriedOk(places, infos[id := x], tried)
  {
    var updated := infos[id := x];
    forall y
      ensures TriedInfoOk(places, updated, tried, y)
    {
      assert TriedInfoOk(places, infos, tried, y);
    }
    forall b, p
      ensures TriedSlotOk(places, updated, tried, b, p)
    {
      assert TriedSlotOk(places, infos, tried, b, p);
    }
  }

  lemma UpdateNew(places: Places, infos: Infos, news: Table, id: int, x: Info)
    requires NewOk(places, infos, news) && id in infos
    requires infos[id].Service() == x.Service() && infos[id].inTried == x.inTried && infos[id].refCount == x.refCount
    ensures NewOk(places, infos[id := x], news)
  {
    var updated := infos[id := x];
    forall y
      ensures NewInfoOk(places, updated, news, y)
    {
      assert NewInfoOk(places, infos, news, y);
    }
    forall b, p
      ensures NewSlotOk(places, updated, news, b, p)
    {
      assert NewSlotOk(places, infos, news, b, p);
    }
  }

  lemma UpdateCounted(infos: Infos, nTried: int, nNew: int, limbo: set<int>, extra: int, id: int, x: Info)
    requires Counted(infos, nTried, nNew, limbo, extra) && id in infos && infos[id].inTried == x.inTried
    ensures Counted(infos[id := x], nTried, nNew, limbo, extra)
  {
    assert TriedIds(infos[id := x]) == TriedIds(infos);
    assert NewIds(infos[id := x]) == NewIds(infos);
  }

  lemma UpdateSettled(infos: Infos, limbo: set<int>, id: int, x: Info)
    requires Settled(infos, limbo) && id in infos && InfoSettled(infos[id := x], limbo, id)
    ensures Settled(infos[id := x], limbo)
  {
    var updated := infos[id := x];
    forall y
      ensures InfoSettled(updated, limbo, y)
    {
      assert InfoSettled(infos, limbo, y);
    }
  }

  /** A change of the other fields of a record, such as its times, keeps everything. */
  lemma UpdateKeeps(t: Tables, places: Places, limbo: set<int>, extra: int, id: int, x: Info)
    requires Inv(t, places, limbo, extra) && id in t.infos && SameIdentity(t.infos[id], x)
    requires x.inTried == t.infos[id].inTried && x.refCount == t.infos[id].refCount
    requires x.lastTry >= 0 && x.lastSuccess >= 0 && (x.inTried ==> x.lastSuccess > 0)
    ensures Inv(t.(infos := t.infos[id := x]), places, limbo, extra)
  {
    UpdateLinked(t, id, x);
    UpdateTried(places, t.infos, t.tried, id, x);
    UpdateNew(places, t.infos, t.news, id, x);
    UpdateCounted(t.infos, t.nTried, t.nNew, limbo, extra, id, x);
    assert InfoSettled(t.infos, limbo, id);
    UpdateSettled(t.infos, limbo, id, x);
  }

  // ---------- The random order ----------

  /** `SwapRandom`. */
  function Swap(t: Tables, p: nat, q: nat): Tables
    requires p < |t.random| && q < |t.random| && t.random[p] in t.infos && t.random[q] in t.infos
  {
    if p == q then t else
      var id1, id2 := t.random[p], t.random[q];
      t.(infos := t.infos[id1 := t.infos[id1].(randomPos := q)][id2 := t.infos[id2].(randomPos := p)],
         random := t.random[p := id2][q := id1])
  }

  /** The records are the same up to their positions in the random order. */
  ghost predicate SameButPos(a: Infos, b: Infos) {
    forall id :: SameEntry(a, b, id)
  }

  ghost predicate SameEntry(a: Infos, b: Infos, id: int) {
    (id in a <==> id in b) && (id in a ==> b[id] == a[id].(randomPos := b[id].randomPos))
  }

  lemma SwapLinked(t: Tables, p: nat, q: nat)
    requires Linked(t.infos, t.addrs, t.random, t.idCount) && p < |t.random| && q < |t.random|
    ensures t.random[p] in t.infos && t.random[q] in t.infos
    ensures var s := Swap(t, p, q); Linked(s.infos, s.addrs, s.random, s.idCount)
    ensures SameButPos(t.infos, Swap(t, p, q).infos)
  {
    assert RandomLinked(t.infos, t.random, p) && RandomLinked(t.infos, t.random, q);
    var s := Swap(t, p, q);
    forall y
      ensures InfoLinked(s.infos, s.addrs, s.idCount, y) && PosLinked(s.infos, s.random, y)
              && RandomLinked(s.infos, s.random, y)
    {
      assert InfoLinked(t.infos, t.addrs, t.idCount, y) && PosLinked(t.infos, t.random, y)
             && RandomLinked(t.infos, t.random, y);
    }
    forall a
      ensures AddrLinked(s.infos, s.addrs, a)
    {
      assert AddrLinked(t.infos, t.addrs, a);
    }
  }

  lemma SameButPosTables(a: Infos, b: Infos, places: Places, tried: Table, news: Table)
    requires SameButPos(a, b) && TriedOk(places, a, tried) && NewOk(places, a, news)
    ensures TriedOk(places, b, tried) && NewOk(places, b, news)
  {
    forall id
      ensures TriedInfoOk(places, b, tried, id) && NewInfoOk(places, b, news, id)
    {
      assert TriedInfoOk(places, a, tried, id) && NewInfoOk(places, a, news, id);
      assert SameEntry(a, b, id);
    }
    forall i, p
      ensures TriedSlotOk(places, b, tried, i, p)
    {
      assert TriedSlotOk(places, a, tried, i, p);
      if InTable(tried, i, p) {
        assert SameEntry(a, b, tried[i][p]);
      }
    }
    forall i, p
      ensures NewSlotOk(places, b, news, i, p)
    {
      assert NewSlotOk(places, a, news, i, p);
      if InTable(news, i, p) {
        assert SameEntry(a, b, news[i][p]);
      }
    }
  }

  lemma SameButPosCounted(a: Infos, b: Infos, nTried: int, nNew: int, limbo: set<int>, extra: int)
    requires SameButPos(a, b) && Settled(a, limbo) && Counted(a, nTried, nNew, limbo, extra)
    ensures Settled(b, limbo) && Counted(b, nTried, nNew, limbo, extra)
  {
    forall id
      ensures InfoSettled(b, limbo, id)
    {
      assert InfoSettled(a, limbo, id);
      assert SameEntry(a, b, id);
    }
    forall id
      ensures id in TriedIds(a) <==> id in TriedIds(b)
      ensures id in NewIds(a) <==> id in NewIds(b)
    {
      assert SameEntry(a, b, id);
    }
    assert TriedIds(a) == TriedIds(b) && NewIds(a) == NewIds(b);
  }

  lemma SwapKeeps(t: Tables, places: Places, limbo: set<int>, extra: int, p: nat, q: nat)
    requires Inv(t, places, limbo, extra) && p < |t.random| && q < |t.random|
    ensures t.random[p] in t.infos && t.random[q] in t.infos
    ensures Inv(Swap(t, p, q), places, limbo, extra) && SameButPos(t.infos, Swap(t, p, q).infos)
  {
    SwapLinked(t, p, q);
    var s := Swap(t, p, q);
    SameButPosTables(t.infos, s.infos, places, t.tried, t.news);
    SameButPosCounted(t.infos, s.infos, t.nTried, t.nNew, limbo, extra);
  }

  // ---------- Delete ----------

  /** What `Delete` needs to index safely. */
  predicate Deletable(t: Tables, id: int) {
    && id in t.infos
    && 0 <= t.infos[id].randomPos < |t.random|
    && t.random[t.infos[id].randomPos] == id
    && t.random[|t.random| - 1] in t.infos
  }

  /** `Delete`: move to the end of the random order, then drop. */
  function Delete(t: Tables, id: int): Tables
    requires Deletable(t, id)
  {
    DropLast(Swap(t, t.infos[id].randomPos, |t.random| - 1), id)
  }

  function DropLast(t: Tables, id: int): Tables
    requires id in t.infos && t.random != []
  {
    t.(infos := t.infos - {id}, addrs := t.addrs - {t.infos[id].Ip()}, random := t.random[..|t.random| - 1],
       nNew := t.nNew - 1)
  }

  lemma DropLinked(t: Tables, id: int)
    requires Linked(t.infos, t.addrs, t.random, t.idCount) && id in t.infos
    requires t.random != [] && t.random[|t.random| - 1] == id
    ensures var d := DropLast(t, id); Linked(d.infos, d.addrs, d.random, d.idCount)
  {
    var d := DropLast(t, id);
    assert RandomLinked(t.infos, t.random, |t.random| - 1) && InfoLinked(t.infos, t.addrs, t.idCount, id);
    forall y
      ensures InfoLinked(d.infos, d.addrs, d.idCount, y) && PosLinked(d.infos, d.random, y)
              && RandomLinked(d.infos, d.random, y)
    {
      assert InfoLinked(t.infos, t.addrs, t.idCount, y) && PosLinked(t.infos, t.random, y)
             && RandomLinked(t.infos, t.random, y);
    }
    forall a
      ensures AddrLinked(d.infos, d.addrs, a)
    {
      assert AddrLinked(t.infos, t.addrs, a);
    }
  }

  /** An entry with reference count zero is in no new slot. */
  lemma UnreferencedIsNowhere(places: Places, infos: Infos, news: Table, id: int)
    requires NewOk(places, infos, news) && id in infos && infos[id].refCount == 0 && id != -1
    ensures forall b, p | InTable(news, b, p) :: news[b][p] != id
    ensures Refs(places, news, infos[id].Service(), id) == {}
  {
    assert NewInfoOk(places, infos, news, id);
    var refs := Refs(places, news, infos[id].Service(), id);
    assert |refs| == 0;
    forall b, p | InTable(news, b, p)
      ensures news[b][p] == id ==> b in refs
    {
      assert NewSlotOk(places, infos, news, b, p);
    }
  }

  lemma DropTables(places: Places, infos: Infos, tried: Table, news: Table, id: int)
    requires TriedOk(places, infos, tried) && NewOk(places, infos, news)
    requires id in infos && !infos[id].inTried && infos[id].refCount == 0 && id != -1
    ensures TriedOk(places, infos - {id}, tried) && NewOk(places, infos - {id}, news)
  {
    UnreferencedIsNowhere(places, infos, news, id);
    forall x
      ensures TriedInfoOk(places, infos - {id}, tried, x) && NewInfoOk(places, infos - {id}, news, x)
    {
      assert TriedInfoOk(places, infos, tried, x) && NewInfoOk(places, infos, news, x);
    }
    forall b, p
      ensures TriedSlotOk(places, infos - {id}, tried, b, p) && NewSlotOk(places, infos - {id}, news, b, p)
    {
      assert TriedSlotOk(places, infos, tried, b, p) && NewSlotOk(places, infos, news, b, p);
    }
  }

  lemma DropCounted(infos: Infos, nTried: int, nNew: int, limbo: set<int>, extra: int, id: int)
    requires Settled(infos, limbo) && Counted(infos, nTried, nNew, limbo, extra) && id in limbo
    ensures Settled(infos - {id}, limbo - {id}) && Counted(infos - {id}, nTried, nNew - 1, limbo - {id}, extra - 1)
  {
    forall x
      ensures InfoSettled(infos - {id}, limbo - {id}, x)
    {
      assert InfoSettled(infos, limbo, x);
    }
    assert InfoSettled(infos, limbo, id);
    assert TriedIds(infos - {id}) == TriedIds(infos);
    assert NewIds(infos - {id}) - (limbo - {id}) == NewIds(infos) - limbo;
  }

  lemma CanDelete(t: Tables, id: int)
    requires Linked(t.infos, t.addrs, t.random, t.idCount) && id in t.infos
    ensures Deletable(t, id)
  {
    assert PosLinked(t.infos, t.random, id) && RandomLinked(t.infos, t.random, |t.random| - 1);
  }

  lemma DropKeeps(t: Tables, places: Places, limbo: set<int>, extra: int, id: int)
    requires Inv(t, places, limbo, extra) && id in limbo && id in t.infos && t.infos[id].refCount == 0
    requires t.random != [] && t.random[|t.random| - 1] == id
    ensures Inv(DropLast(t, id), places, limbo - {id}, extra - 1)
  {
    assert InfoSettled(t.infos, limbo, id) && InfoLinked(t.infos, t.addrs, t.idCount, id);
    DropLinked(t, id);
    DropTables(places, t.infos, t.tried, t.news, id);
    DropCounted(t.infos, t.nTried, t.nNew, limbo, extra, id);
  }

  /** Deleting an unreferenced entry in limbo removes it from everywhere and keeps the rest. */
  lemma DeleteKeeps(t: Tables, places: Places, limbo: set<int>, extra: int, id: int)
    requires Inv(t, places, limbo, extra) && id in limbo && id in t.infos && t.infos[id].refCount == 0
    ensures Deletable(t, id)
    ensures Inv(Delete(t, id), places, limbo - {id}, extra - 1)
    ensures SameButPos(t.infos - {id}, Delete(t, id).infos)
  {
    CanDelete(t, id);
    DeleteEntries(t, id);
    SwapKeeps(t, places, limbo, extra, t.infos[id].randomPos, |t.random| - 1);
    var s := Swap(t, t.infos[id].randomPos, |t.random| - 1);
    assert SameEntry(t.infos, s.infos, id);
    DropKeeps(s, places, limbo, extra, id);
  }

  lemma DeleteEntries(t: Tables, id: int)
    requires Deletable(t, id)
    requires Linked(t.infos, t.addrs, t.random, t.idCount)
    ensures SameButPos(t.infos - {id}, Delete(t, id).infos)
  {
    SwapLinked(t, t.infos[id].randomPos, |t.random| - 1);
    forall x
      ensures SameEntry(t.infos - {id}, Delete(t, id).infos, x)
    {
      assert SameEntry(t.infos, Swap(t, t.infos[id].randomPos, |t.random| - 1).infos, x);
    }
  }

  // ---------- New slots ----------

  /** Overwriting a slot moves that bucket between the reference sets of the old and the new occupant. */
  lemma RefsPut(places: Places, news: Table, b: nat, p: nat, x: int, s: Service, id: int)
    requires HasShape(news, NEW_BUCKET_COUNT) && InTable(news, b, p)
    ensures HasShape(Put(news, b, p, x), NEW_BUCKET_COUNT)
    ensures
      Refs(places, Put(news, b, p, x), s, id) ==
      if places.Position(true, b, s) != p then Refs(places, news, s, id)
      else if x == id then Refs(places, news, s, id) + {b}
      else Refs(places, news, s, id) - {b}
  {
  }

  /** `ClearNew`: free a new slot; its entry loses a reference, and with the last one it is deleted. */
  function ClearNew(t: Tables, b: nat, p: nat): Tables
    requires InTable(t.news, b, p) && (t.news[b][p] != -1 ==> Deletable(t, t.news[b][p]))
  {
    if t.news[b][p] == -1 then t else
      var id := t.news[b][p];
      var c := Unreferenced(t, b, p);
      if c.infos[id].refCount == 0 then Delete(c, id) else c
  }

  function Unreferenced(t: Tables, b: nat, p: nat): Tables
    requires InTable(t.news, b, p) && t.news[b][p] in t.infos
  {
    var id := t.news[b][p];
    t.(infos := t.infos[id := t.infos[id].(refCount := t.infos[id].refCount - 1)], news := Put(t.news, b, p, -1))
  }

  lemma UnreferencedRefs(t: Tables, places: Places, b: nat, p: nat, x: int)
    requires NewOk(places, t.infos, t.news) && InTable(t.news, b, p)
    requires t.news[b][p] != -1 && t.news[b][p] in t.infos && InfoLinked(t.infos, t.addrs, t.idCount, x)
    ensures HasShape(Unreferenced(t, b, p).news, NEW_BUCKET_COUNT)
    ensures NewInfoOk(places, Unreferenced(t, b, p).infos, Unreferenced(t, b, p).news, x)
  {
    assert NewInfoOk(places, t.infos, t.news, x) && NewSlotOk(places, t.infos, t.news, b, p);
    if x in t.infos {
      var s := t.infos[x].Service();
      RefsPut(places, t.news, b, p, -1, s, x);
      assert b in Refs(places, t.news, s, x) <==> t.news[b][places.Position(true, b, s)] == x;
    }
  }

  lemma UnreferencedNew(t: Tables, places: Places, b: nat, p: nat)
    requires NewOk(places, t.infos, t.news) && Linked(t.infos, t.addrs, t.random, t.idCount) && InTable(t.news, b, p)
    requires t.news[b][p] != -1 && t.news[b][p] in t.infos
    ensures NewOk(places, Unreferenced(t, b, p).infos, Unreferenced(t, b, p).news)
  {
    var c := Unreferenced(t, b, p);
    forall x
      ensures HasShape(c.news, NEW_BUCKET_COUNT) && NewInfoOk(places, c.infos, c.news, x)
    {
      assert InfoLinked(t.infos, t.addrs, t.idCount, x);
      UnreferencedRefs(t, places, b, p, x);
    }
    forall k, q
      ensures NewSlotOk(places, c.infos, c.news, k, q)
    {
      assert NewSlotOk(places, t.infos, t.news, k, q);
    }
  }

  /** The entry of the freed slot may have no reference left, so it is in limbo, still counted as new. */
  lemma UnreferencedKeeps(t: Tables, places: Places, limbo: set<int>, extra: int, b: nat, p: nat)
    requires Inv(t, places, limbo, extra) && InTable(t.news, b, p)
    requires t.news[b][p] != -1 && t.news[b][p] in t.infos && t.news[b][p] !in limbo
    ensures t.infos[t.news[b][p]].refCount >= 1
    ensures Inv(Unreferenced(t, b, p), places, limbo + {t.news[b][p]}, extra + 1)
  {
    var id := t.news[b][p];
    var x := t.infos[id].(refCount := t.infos[id].refCount - 1);
    assert NewSlotOk(places, t.infos, t.news, b, p) && InfoSettled(t.infos, limbo, id);
    UnreferencedNew(t, places, b, p);
    UpdateLinked(t, id, x);
    UpdateTried(places, t.infos, t.tried, id, x);
    ToLimbo(t.infos, t.nTried, t.nNew, limbo, extra, id);
    UpdateCounted(t.infos, t.nTried, t.nNew, limbo + {id}, extra + 1, id, x);
    UpdateSettled(t.infos, limbo + {id}, id, x);
  }

  /** An entry that is not tried may be looked upon as in limbo. */
  lemma ToLimbo(infos: Infos, nTried: int, nNew: int, limbo: set<int>, extra: int, id: int)
    requires Settled(infos, limbo) && Counted(infos, nTried, nNew, limbo, extra)
    requires id in infos && id !in limbo && !infos[id].inTried
    ensures Settled(infos, limbo + {id}) && Counted(infos, nTried, nNew, limbo + {id}, extra + 1)
  {
    forall y
      ensures InfoSettled(infos, limbo + {id}, y)
    {
      assert InfoSettled(infos, limbo, y);
    }
    assert NewIds(infos) - limbo == NewIds(infos) - (limbo + {id}) + {id};
  }

  /** A counted entry in limbo that has a reference is settled. */
  lemma FromLimbo(infos: Infos, nTried: int, nNew: int, limbo: set<int>, extra: int, id: int)
    requires Settled(infos, limbo + {id}) && Counted(infos, nTried, nNew, limbo + {id}, extra + 1)
    requires id !in limbo && id in infos && infos[id].refCount >= 1
    ensures Settled(infos, limbo) && Counted(infos, nTried, nNew, limbo, extra)
  {
    forall y
      ensures InfoSettled(infos, limbo, y)
    {
      assert InfoSettled(infos, limbo + {id}, y);
    }
    assert InfoSettled(infos, limbo + {id}, id);
    assert NewIds(infos) - limbo == NewIds(infos) - (limbo + {id}) + {id};
  }

  lemma CanClear(t: Tables, places: Places, limbo: set<int>, extra: int, b: nat, p: nat)
    requires Inv(t, places, limbo, extra) && InTable(t.news, b, p)
    ensures t.news[b][p] != -1 ==> Deletable(t, t.news[b][p])
  {
    assert NewSlotOk(places, t.infos, t.news, b, p);
    if t.news[b][p] != -1 {
      CanDelete(t, t.news[b][p]);
    }
  }

  lemma ClearLastKeeps(t: Tables, places: Places, limbo: set<int>, extra: int, b: nat, p: nat)
    requires Inv(t, places, limbo, extra) && InTable(t.news, b, p) && t.news[b][p] !in limbo
    requires t.news[b][p] != -1 && Deletable(t, t.news[b][p]) && t.infos[t.news[b][p]].refCount == 1
    ensures Inv(ClearNew(t, b, p), places, limbo, extra)
    ensures forall x :: SameEntryUnless(t.news[b][p], t.infos, ClearNew(t, b, p).infos, x)
  {
    var id := t.news[b][p];
    UnreferencedKeeps(t, places, limbo, extra, b, p);
    var c := Unreferenced(t, b, p);
    DeleteKeeps(c, places, limbo + {id}, extra + 1, id);
    assert limbo + {id} - {id} == limbo;
    forall x
      ensures SameEntryUnless(id, t.infos, Delete(c, id).infos, x)
    {
      assert SameEntry(c.infos - {id}, Delete(c, id).infos, x);
    }
  }

  /** Clearing a slot frees it and touches no other slot and no other record. */
  lemma ClearNewKeeps(t: Tables, places: Places, limbo: set<int>, extra: int, b: nat, p: nat)
    requires Inv(t, places, limbo, extra) && InTable(t.news, b, p) && t.news[b][p] !in limbo
    ensures t.news[b][p] != -1 ==> Deletable(t, t.news[b][p])
    ensures Inv(ClearNew(t, b, p), places, limbo, extra)
    ensures ClearNew(t, b, p).news == Put(t.news, b, p, -1) && ClearNew(t, b, p).tried == t.tried
    ensures forall x :: SameEntryUnless(t.news[b][p], t.infos, ClearNew(t, b, p).infos, x)
  {
    hide Inv;
    CanClear(t, places, limbo, extra, b, p);
    var id := t.news[b][p];
    if id == -1 {
      assert Put(t.news, b, p, -1)[b] == t.news[b];
      assert Put(t.news, b, p, -1) == t.news;
    } else if t.infos[id].refCount == 1 {
      ClearLastKeeps(t, places, limbo, extra, b, p);
    } else {
      ClearOneKeeps(t, places, limbo, extra, b, p);
    }
  }

  /** The entry of the slot keeps other references. */
  lemma ClearOneKeeps(t: Tables, places: Places, limbo: set<int>, extra: int, b: nat, p: nat)
    requires Inv(t, places, limbo, extra) && InTable(t.news, b, p) && t.news[b][p] !in limbo && t.news[b][p] != -1
    requires Deletable(t, t.news[b][p]) && t.infos[t.news[b][p]].refCount != 1
    ensures Inv(Unreferenced(t, b, p), places, limbo, extra)
  {
    UnreferencedKeeps(t, places, limbo, extra, b, p);
    FromLimbo(Unreferenced(t, b, p).infos, t.nTried, t.nNew, limbo, extra, t.news[b][p]);
  }

  ghost predicate SameEntryUnless(except: int, a: Infos, b: Infos, x: int) {
    x != except ==> SameEntry(a, b, x)
  }

  /** Enters an id into a free new slot and counts the reference. */
  function AddRef(t: Tables, b: nat, p: nat, id: int): Tables
    requires InTable(t.news, b, p) && id in t.infos
  {
    t.(infos := t.infos[id := t.infos[id].(refCount := t.infos[id].refCount + 1)], news := Put(t.news, b, p, id))
  }

  lemma AddRefNew(t: Tables, places: Places, b: nat, p: nat, id: int)
    requires NewOk(places, t.infos, t.news) && InTable(t.news, b, p) && id in t.infos && !t.infos[id].inTried
    requires t.news[b][p] == -1 && p == places.Position(true, b, t.infos[id].Service())
    requires Linked(t.infos, t.addrs, t.random, t.idCount)
    ensures NewOk(places, AddRef(t, b, p, id).infos, AddRef(t, b, p, id).news)
  {
    var c := AddRef(t, b, p, id);
    forall x
      ensures HasShape(c.news, NEW_BUCKET_COUNT) && NewInfoOk(places, c.infos, c.news, x)
    {
      assert InfoLinked(t.infos, t.addrs, t.idCount, x);
      AddRefRefs(t, places, b, p, id, x);
    }
    forall k, q
      ensures NewSlotOk(places, c.infos, c.news, k, q)
    {
      assert NewSlotOk(places, t.infos, t.news, k, q);
    }
  }

  lemma AddRefRefs(t: Tables, places: Places, b: nat, p: nat, id: int, x: int)
    requires NewOk(places, t.infos, t.news) && InTable(t.news, b, p) && id in t.infos
    requires t.news[b][p] == -1 && p == places.Position(true, b, t.infos[id].Service())
    requires InfoLinked(t.infos, t.addrs, t.idCount, x)
    ensures HasShape(AddRef(t, b, p, id).news, NEW_BUCKET_COUNT)
    ensures NewInfoOk(places, AddRef(t, b, p, id).infos, AddRef(t, b, p, id).news, x)
  {
    assert NewInfoOk(places, t.infos, t.news, x);
    if x in t.infos {
      var s := t.infos[x].Service();
      RefsPut(places, t.news, b, p, id, s, x);
      assert b in Refs(places, t.news, s, x) <==> t.news[b][places.Position(true, b, s)] == x;
    }
  }

  lemma AddRefKeeps(t: Tables, places: Places, limbo: set<int>, extra: int, b: nat, p: nat, id: int)
    requires Inv(t, places, limbo, extra) && InTable(t.news, b, p) && id in limbo && id in t.infos
    requires t.news[b][p] == -1 && p == places.Position(true, b, t.infos[id].Service())
    requires t.infos[id].refCount < NEW_BUCKETS_PER_ADDRESS
    ensures Inv(AddRef(t, b, p, id), places, limbo, extra)
  {
    var x := t.infos[id].(refCount := t.infos[id].refCount + 1);
    assert InfoSettled(t.infos, limbo, id);
    AddRefNew(t, places, b, p, id);
    UpdateLinked(t, id, x);
    UpdateTried(places, t.infos, t.tried, id, x);
    UpdateCounted(t.infos, t.nTried, t.nNew, limbo, extra, id, x);
    UpdateSettled(t.infos, limbo, id, x);
  }

  // ---------- Moving an entry to the tried table ----------

  /** The new table after the loop of `MakeTried` over the first k buckets. */
  function Stripped(places: Places, news: Table, s: Service, id: int, k: nat): (r: Table)
    requires HasShape(news, NEW_BUCKET_COUNT) && k <= NEW_BUCKET_COUNT
    ensures HasShape(r, NEW_BUCKET_COUNT)
  {
    if k == 0 then news else
      var r := Stripped(places, news, s, id, k - 1);
      var p := places.Position(true, k - 1, s);
      if r[k - 1][p] == id then Put(r, k - 1, p, -1) else r
  }

  /** How many references that loop has removed. */
  function Removed(places: Places, news: Table, s: Service, id: int, k: nat): nat
    requires HasShape(news, NEW_BUCKET_COUNT) && k <= NEW_BUCKET_COUNT
  {
    if k == 0 then 0 else
      Removed(places, news, s, id, k - 1) + if news[k - 1][places.Position(true, k - 1, s)] == id then 1 else 0
  }

  lemma {:induction false} StrippedAt(places: Places, news: Table, s: Service, id: int, k: nat, b: nat, p: nat)
    requires HasShape(news, NEW_BUCKET_COUNT) && k <= NEW_BUCKET_COUNT && InTable(news, b, p)
    ensures Stripped(places, news, s, id, k)[b][p] ==
            if b < k && p == places.Position(true, b, s) && news[b][p] == id then -1 else news[b][p]
  {
    if k > 0 {
      StrippedAt(places, news, s, id, k - 1, b, p);
      StrippedAt(places, news, s, id, k - 1, k - 1, places.Position(true, k - 1, s));
    }
  }

  ghost function RefsBelow(places: Places, news: Table, s: Service, id: int, k: nat): set<int>
    requires HasShape(news, NEW_BUCKET_COUNT)
  {
    set b | b in Refs(places, news, s, id) && b < k
  }

  lemma {:induction false} RemovedIsRefs(places: Places, news: Table, s: Service, id: int, k: nat)
    requires HasShape(news, NEW_BUCKET_COUNT) && k <= NEW_BUCKET_COUNT
    ensures Removed(places, news, s, id, k) == |RefsBelow(places, news, s, id, k)|
  {
    hide RefsBelow, Refs;
    NoRefBelow(places, news, s, id);
    if k > 0 {
      RemovedIsRefs(places, news, s, id, k - 1);
      NextRef(places, news, s, id, k - 1);
    }
  }

  lemma NoRefBelow(places: Places, news: Table, s: Service, id: int)
    requires HasShape(news, NEW_BUCKET_COUNT)
    ensures RefsBelow(places, news, s, id, 0) == {}
  {
  }

  lemma NextRef(places: Places, news: Table, s: Service, id: int, k: nat)
    requires HasShape(news, NEW_BUCKET_COUNT) && k < NEW_BUCKET_COUNT
    ensures RefsBelow(places, news, s, id, k + 1) ==
            RefsBelow(places, news, s, id, k) + if news[k][places.Position(true, k, s)] == id then {k} else {}
    ensures k !in RefsBelow(places, news, s, id, k)
  {
    hide Refs;
    assert k in Refs(places, news, s, id) <==> news[k][places.Position(true, k, s)] == id by {
      RefIs(places, news, s, id, k);
    }
  }

  lemma RefIs(places: Places, news: Table, s: Service, id: int, b: nat)
    requires HasShape(news, NEW_BUCKET_COUNT) && b < NEW_BUCKET_COUNT
    ensures b in Refs(places, news, s, id) <==> news[b][places.Position(true, b, s)] == id
  {
  }

  /** The first part of `MakeTried`: out of all new buckets, and not counted as new any more. */
  function Stripping(t: Tables, places: Places, id: int): Tables
    requires HasShape(t.news, NEW_BUCKET_COUNT) && id in t.infos
  {
    var s := t.infos[id].Service();
    t.(news := Stripped(places, t.news, s, id, NEW_BUCKET_COUNT),
       infos := t.infos[id := t.infos[id].(
                  refCount := t.infos[id].refCount - Removed(places, t.news, s, id, NEW_BUCKET_COUNT))],
       nNew := t.nNew - 1)
  }

  lemma StrippingRefs(t: Tables, places: Places, id: int, x: int)
    requires NewOk(places, t.infos, t.news) && id in t.infos && id != -1
    requires InfoLinked(t.infos, t.addrs, t.idCount, x)
    ensures NewInfoOk(places, Stripping(t, places, id).infos, Stripping(t, places, id).news, x)
    ensures Stripping(t, places, id).infos[id].refCount == 0
  {
    var s := t.infos[id].Service();
    RemovedIsRefs(places, t.news, s, id, NEW_BUCKET_COUNT);
    assert NewInfoOk(places, t.infos, t.news, id) && NewInfoOk(places, t.infos, t.news, x);
    assert RefsBelow(places, t.news, s, id, NEW_BUCKET_COUNT) == Refs(places, t.news, s, id);
    assert Removed(places, t.news, s, id, NEW_BUCKET_COUNT) == |Refs(places, t.news, s, id)|;
    if x in t.infos {
      var sx := t.infos[x].Service();
      forall b: int | 0 <= b < NEW_BUCKET_COUNT
        ensures b in Refs(places, Stripping(t, places, id).news, sx, x) <==> x != id && b in Refs(places, t.news, sx, x)
      {
        StrippedAt(places, t.news, s, id, NEW_BUCKET_COUNT, b, places.Position(true, b, sx));
      }
      assert Refs(places, Stripping(t, places, id).news, sx, x) == if x == id then {} else Refs(places, t.news, sx, x);
    }
  }

  lemma StrippingNew(t: Tables, places: Places, id: int)
    requires NewOk(places, t.infos, t.news) && id in t.infos && Linked(t.infos, t.addrs, t.random, t.idCount)
    ensures NewOk(places, Stripping(t, places, id).infos, Stripping(t, places, id).news)
    ensures Stripping(t, places, id).infos[id].refCount == 0
  {
    var c := Stripping(t, places, id);
    assert InfoLinked(t.infos, t.addrs, t.idCount, id);
    forall x
      ensures NewInfoOk(places, c.infos, c.news, x) && c.infos[id].refCount == 0
    {
      assert InfoLinked(t.infos, t.addrs, t.idCount, x);
      StrippingRefs(t, places, id, x);
    }
    StrippingRefs(t, places, id, id);
    forall b, p
      ensures NewSlotOk(places, c.infos, c.news, b, p)
    {
      assert NewSlotOk(places, t.infos, t.news, b, p);
      if InTable(t.news, b, p) {
        StrippedAt(places, t.news, t.infos[id].Service(), id, NEW_BUCKET_COUNT, b, p);
      }
    }
  }

  /** After the loop the assertion `nRefCount == 0` holds; the entry is in limbo. */
  lemma StrippingKeeps(t: Tables, places: Places, id: int)
    requires Inv(t, places, {}, 0) && id in t.infos && !t.infos[id].inTried
    ensures Inv(Stripping(t, places, id), places, {id}, 0)
    ensures Stripping(t, places, id).infos[id].refCount == 0
  {
    var x := Stripping(t, places, id).infos[id];
    StrippingNew(t, places, id);
    UpdateLinked(t, id, x);
    UpdateTried(places, t.infos, t.tried, id, x);
    ToLimbo(t.infos, t.nTried, t.nNew, {}, 0, id);
    assert {} + {id} == {id};
    UpdateCounted(t.infos, t.nTried, t.nNew, {id}, 1, id, x);
    assert InfoSettled(t.infos, {}, id);
    UpdateSettled(t.infos, {id}, id, x);
  }

  /** A tried entry has no reference. */
  lemma TriedUnreferenced(places: Places, infos: Infos, news: Table, id: int)
    requires NewOk(places, infos, news) && id in infos && infos[id].inTried && id != -1
    ensures infos[id].refCount == 0
  {
    assert NewInfoOk(places, infos, news, id);
    var refs := Refs(places, news, infos[id].Service(), id);
    forall b: int | 0 <= b < NEW_BUCKET_COUNT
      ensures b !in refs
    {
      assert NewSlotOk(places, infos, news, b, places.Position(true, b, infos[id].Service()));
    }
    assert refs == {};
  }

  /** Takes the entry of a tried slot out of the tried table. */
  function Untry(t: Tables, b: nat, p: nat): Tables
    requires InTable(t.tried, b, p) && t.tried[b][p] in t.infos
  {
    var id := t.tried[b][p];
    t.(infos := t.infos[id := t.infos[id].(inTried := false)], tried := Put(t.tried, b, p, -1), nTried := t.nTried - 1)
  }

  lemma UntryTables(t: Tables, places: Places, b: nat, p: nat)
    requires TriedOk(places, t.infos, t.tried) && NewOk(places, t.infos, t.news)
    requires InTable(t.tried, b, p) && t.tried[b][p] != -1 && t.tried[b][p] in t.infos
    ensures TriedOk(places, Untry(t, b, p).infos, Untry(t, b, p).tried) && NewOk(places, Untry(t, b, p).infos, t.news)
  {
    var c := Untry(t, b, p);
    assert TriedSlotOk(places, t.infos, t.tried, b, p);
    forall x
      ensures TriedInfoOk(places, c.infos, c.tried, x) && NewInfoOk(places, c.infos, c.news, x)
    {
      assert TriedInfoOk(places, t.infos, t.tried, x) && NewInfoOk(places, t.infos, t.news, x);
    }
    forall k, q
      ensures TriedSlotOk(places, c.infos, c.tried, k, q) && NewSlotOk(places, c.infos, c.news, k, q)
    {
      assert TriedSlotOk(places, t.infos, t.tried, k, q) && NewSlotOk(places, t.infos, t.news, k, q);
    }
  }

  lemma UntryCounted(t: Tables, limbo: set<int>, extra: int, b: nat, p: nat)
    requires Settled(t.infos, limbo) && Counted(t.infos, t.nTried, t.nNew, limbo, extra)
    requires InTable(t.tried, b, p) && t.tried[b][p] in t.infos && t.infos[t.tried[b][p]].inTried
    requires t.infos[t.tried[b][p]].refCount == 0
    ensures
      var c := Untry(t, b, p);
      Settled(c.infos, limbo + {t.tried[b][p]}) && Counted(c.infos, c.nTried, c.nNew, limbo + {t.tried[b][p]}, extra)
  {
    var c := Untry(t, b, p);
    var id := t.tried[b][p];
    forall x
      ensures InfoSettled(c.infos, limbo + {id}, x)
    {
      assert InfoSettled(t.infos, limbo, x);
    }
    assert TriedIds(t.infos) == TriedIds(c.infos) + {id};
    assert NewIds(c.infos) - (limbo + {id}) == NewIds(t.infos) - limbo;
  }

  lemma UntryKeeps(t: Tables, places: Places, limbo: set<int>, extra: int, b: nat, p: nat)
    requires Inv(t, places, limbo, extra) && InTable(t.tried, b, p) && t.tried[b][p] != -1
    ensures t.tried[b][p] in t.infos && t.infos[t.tried[b][p]].inTried && t.tried[b][p] !in limbo
    ensures t.infos[t.tried[b][p]].refCount == 0
    ensures Inv(Untry(t, b, p), places, limbo + {t.tried[b][p]}, extra)
  {
    var id := t.tried[b][p];
    assert TriedSlotOk(places, t.infos, t.tried, b, p) && InfoLinked(t.infos, t.addrs, t.idCount, id);
    assert InfoSettled(t.infos, limbo, id);
    TriedUnreferenced(places, t.infos, t.news, id);
    UpdateLinked(t, id, t.infos[id].(inTried := false));
    UntryTables(t, places, b, p);
    UntryCounted(t, limbo, extra, b, p);
  }

  /** Enters an entry into its tried slot. */
  function Place(t: Tables, b: nat, p: nat, id: int): Tables
    requires InTable(t.tried, b, p) && id in t.infos
  {
    t.(infos := t.infos[id := t.infos[id].(inTried := true)], tried := Put(t.tried, b, p, id), nTried := t.nTried + 1)
  }

  lemma PlaceTables(t: Tables, places: Places, b: nat, p: nat, id: int)
    requires TriedOk(places, t.infos, t.tried) && NewOk(places, t.infos, t.news)
    requires Linked(t.infos, t.addrs, t.random, t.idCount)
    requires InTable(t.tried, b, p) && t.tried[b][p] == -1 && id in t.infos && t.infos[id].refCount == 0
    requires b == places.TriedBucket(t.infos[id].Service()) && p == places.Position(false, b, t.infos[id].Service())
    ensures TriedOk(places, Place(t, b, p, id).infos, Place(t, b, p, id).tried)
            && NewOk(places, Place(t, b, p, id).infos, t.news)
  {
    var c := Place(t, b, p, id);
    assert InfoLinked(t.infos, t.addrs, t.idCount, id);
    UnreferencedIsNowhere(places, t.infos, t.news, id);
    forall x
      ensures TriedInfoOk(places, c.infos, c.tried, x) && NewInfoOk(places, c.infos, c.news, x)
    {
      assert InfoLinked(t.infos, t.addrs, t.idCount, x);
      assert TriedInfoOk(places, t.infos, t.tried, x) && NewInfoOk(places, t.infos, t.news, x);
    }
    forall k, q
      ensures TriedSlotOk(places, c.infos, c.tried, k, q) && NewSlotOk(places, c.infos, c.news, k, q)
    {
      assert TriedSlotOk(places, t.infos, t.tried, k, q) && NewSlotOk(places, t.infos, t.news, k, q);
    }
  }

  lemma PlaceCounted(t: Tables, limbo: set<int>, extra: int, b: nat, p: nat, id: int)
    requires Settled(t.infos, limbo) && Counted(t.infos, t.nTried, t.nNew, limbo, extra)
    requires InTable(t.tried, b, p) && id in limbo && id in t.infos && t.infos[id].lastSuccess > 0
    ensures
      var c := Place(t, b, p, id);
      Settled(c.infos, limbo - {id}) && Counted(c.infos, c.nTried, c.nNew, limbo - {id}, extra)
  {
    var c := Place(t, b, p, id);
    assert InfoSettled(t.infos, limbo, id);
    forall x
      ensures InfoSettled(c.infos, limbo - {id}, x)
    {
      assert InfoSettled(t.infos, limbo, x);
    }
    assert TriedIds(c.infos) == TriedIds(t.infos) + {id};
    assert NewIds(c.infos) - (limbo - {id}) == NewIds(t.infos) - limbo;
  }

  lemma PlaceKeeps(t: Tables, places: Places, limbo: set<int>, extra: int, b: nat, p: nat, id: int)
    requires Inv(t, places, limbo, extra) && id in limbo && id in t.infos
    requires InTable(t.tried, b, p) && t.tried[b][p] == -1 && t.infos[id].refCount == 0 && t.infos[id].lastSuccess > 0
    requires b == places.TriedBucket(t.infos[id].Service()) && p == places.Position(false, b, t.infos[id].Service())
    ensures Inv(Place(t, b, p, id), places, limbo - {id}, extra)
  {
    assert InfoLinked(t.infos, t.addrs, t.idCount, id);
    UpdateLinked(t, id, t.infos[id].(inTried := true));
    PlaceTables(t, places, b, p, id);
    PlaceCounted(t, limbo, extra, b, p, id);
  }

  /** An entry in limbo without references goes back into the new slot of its source, whatever was there before. */
  ghost function Refile(t: Tables, places: Places, limbo: set<int>, id: int): (r: Tables)
    requires Inv(t, places, limbo, 0) && id in limbo && id in t.infos && t.infos[id].refCount == 0
    requires forall x | x in limbo :: x in t.infos && t.infos[x].refCount == 0
    ensures Inv(r, places, limbo - {id}, 0) && r.tried == t.tried
    ensures forall x | x in limbo :: x == id || SameEntry(t.infos, r.infos, x)
  {
    var b := places.NewBucket(t.infos[id].Ip(), t.infos[id].source);
    var p := places.Position(true, b, t.infos[id].Service());
    LimboIsNowhere(t, places, limbo, b, p);
    ClearNewKeeps(t, places, limbo, 0, b, p);
    var c := ClearNew(t, b, p);
    RefileKeeps(t, c, places, limbo, b, p, id);
    c.(infos := c.infos[id := c.infos[id].(refCount := 1)], news := Put(c.news, b, p, id), nNew := c.nNew + 1)
  }

  lemma LimboIsNowhere(t: Tables, places: Places, limbo: set<int>, b: nat, p: nat)
    requires Inv(t, places, limbo, 0) && InTable(t.news, b, p)
    requires forall x | x in limbo :: x in t.infos && t.infos[x].refCount == 0
    ensures t.news[b][p] !in limbo
  {
    var x := t.news[b][p];
    if x in limbo {
      assert InfoLinked(t.infos, t.addrs, t.idCount, x);
      UnreferencedIsNowhere(places, t.infos, t.news, x);
    }
  }

  /** An entry in limbo that gets its first reference in a free slot is counted as new again. */
  lemma RefileInv(c: Tables, places: Places, limbo: set<int>, b: nat, p: nat, id: int)
    requires Inv(c, places, limbo, 0) && id in limbo && id in c.infos && c.infos[id].refCount == 0
    requires InTable(c.news, b, p) && c.news[b][p] == -1 && p == places.Position(true, b, c.infos[id].Service())
    ensures
      var r := c.(infos := c.infos[id := c.infos[id].(refCount := 1)], news := Put(c.news, b, p, id),
                  nNew := c.nNew + 1);
      Inv(r, places, limbo - {id}, 0)
  {
    AddRefKeeps(c, places, limbo, 0, b, p, id);
    var a := AddRef(c, b, p, id);
    assert limbo == limbo - {id} + {id};
    FromLimbo(a.infos, a.nTried, a.nNew + 1, limbo - {id}, 0, id);
  }

  lemma RefileKeeps(t: Tables, c: Tables, places: Places, limbo: set<int>, b: nat, p: nat, id: int)
    requires Inv(c, places, limbo, 0) && id in limbo && id in t.infos && t.infos[id].refCount == 0
    requires InTable(t.news, b, p) && c.news == Put(t.news, b, p, -1) && t.news[b][p] !in limbo
    requires p == places.Position(true, b, t.infos[id].Service())
    requires forall x :: SameEntryUnless(t.news[b][p], t.infos, c.infos, x)
    ensures id in c.infos && InTable(c.news, b, p)
    ensures
      var r := c.(infos := c.infos[id := c.infos[id].(refCount := 1)], news := Put(c.news, b, p, id),
                  nNew := c.nNew + 1);
      && Inv(r, places, limbo - {id}, 0)
      && forall x | x in limbo :: x == id || SameEntry(t.infos, r.infos, x)
  {
    hide Inv, AddRef;
    assert SameEntryUnless(t.news[b][p], t.infos, c.infos, id);
    RefileInv(c, places, limbo, b, p, id);
    forall x | x in limbo
      ensures x == id || SameEntry(t.infos, c.infos, x)
    {
      assert SameEntryUnless(t.news[b][p], t.infos, c.infos, x);
    }
  }

  /** `MakeTried`: out of the new table, and into the tried slot; the entry found there goes back to the new table. */
  ghost function MakeTried(t: Tables, places: Places, id: int): (r: Tables)
    requires Inv(t, places, {}, 0) && id in t.infos && !t.infos[id].inTried && t.infos[id].lastSuccess > 0
    ensures Inv(r, places, {}, 0)
    ensures id in r.infos && r.infos[id] ==
            t.infos[id].(inTried := true, refCount := 0, randomPos := r.infos[id].randomPos)
    ensures
      var b := places.TriedBucket(t.infos[id].Service());
      r.tried == Put(t.tried, b, places.Position(false, b, t.infos[id].Service()), id)
  {
    StrippingKeeps(t, places, id);
    var b := places.TriedBucket(t.infos[id].Service());
    var p := places.Position(false, b, t.infos[id].Service());
    var d := Evict(Stripping(t, places, id), places, b, p, id);
    assert {id} - {id} == {};
    PlaceKeeps(d, places, {id}, 0, b, p, id);
    Place(d, b, p, id)
  }

  /** The entry of a tried slot, if any, goes back to the new table, while the entry `id` waits to take the slot. */
  ghost function Evict(t: Tables, places: Places, b: nat, p: nat, id: int): (r: Tables)
    requires Inv(t, places, {id}, 0) && id in t.infos && t.infos[id].refCount == 0
    requires InTable(t.tried, b, p)
    ensures Inv(r, places, {id}, 0) && SameEntry(t.infos, r.infos, id)
    ensures HasShape(r.tried, TRIED_BUCKET_COUNT) && r.tried[b][p] == -1
            && Put(r.tried, b, p, id) == Put(t.tried, b, p, id)
  {
    if t.tried[b][p] == -1 then t else
      var e := t.tried[b][p];
      UntryKeeps(t, places, {id}, 0, b, p);
      EvictSets(id, e);
      var u := Untry(t, b, p);
      var r := Refile(u, places, {id, e}, e);
      assert SameEntry(u.infos, r.infos, id);
      assert Put(r.tried, b, p, id)[b] == Put(t.tried, b, p, id)[b];
      r
  }

  lemma EvictSets(a: int, b: int)
    requires a != b
    ensures {a} + {b} == {a, b} && {a, b} - {b} == {a}
  {
  }

  // ---------- Operations ----------

  function Max0(x: int): int {
    if x > 0 then x else 0
  }

  /** A new record under the next id, at the end of the random order; not counted yet. */
  function Enter(t: Tables, info: Info): Tables {
    t.(idCount := t.idCount + 1,
       infos := t.infos[t.idCount := info.(randomPos := |t.random|)],
       addrs := t.addrs[info.Ip() := t.idCount],
       random := t.random + [t.idCount])
  }

  /** `Create`, and the time penalty and the counter update that `Add_` applies right after it. */
  function Create(t: Tables, address: Address, source: NetAddr, penalty: int): Tables {
    var info := Info(address.(time := Max0(address.time - penalty)), source, 0, 0, 0, 0, 0, false, -1);
    Enter(t, info).(nNew := t.nNew + 1)
  }

  lemma EnterLinked(t: Tables, info: Info)
    requires Linked(t.infos, t.addrs, t.random, t.idCount) && t.idCount >= 0 && info.Ip() !in t.addrs
    ensures t.idCount !in t.infos
    ensures var c := Enter(t, info); Linked(c.infos, c.addrs, c.random, c.idCount)
  {
    var c := Enter(t, info);
    assert InfoLinked(t.infos, t.addrs, t.idCount, t.idCount);
    forall y
      ensures InfoLinked(c.infos, c.addrs, c.idCount, y) && PosLinked(c.infos, c.random, y)
              && RandomLinked(c.infos, c.random, y)
    {
      assert InfoLinked(t.infos, t.addrs, t.idCount, y) && PosLinked(t.infos, t.random, y)
             && RandomLinked(t.infos, t.random, y);
    }
    forall a
      ensures AddrLinked(c.infos, c.addrs, a)
    {
      assert AddrLinked(t.infos, t.addrs, a);
    }
  }

  lemma CreateTables(t: Tables, places: Places, id: int, info: Info)
    requires TriedOk(places, t.infos, t.tried) && NewOk(places, t.infos, t.news)
    requires id !in t.infos && id != -1 && !info.inTried && info.refCount == 0
    ensures TriedOk(places, t.infos[id := info], t.tried) && NewOk(places, t.infos[id := info], t.news)
  {
    var infos := t.infos[id := info];
    forall b, p
      ensures TriedSlotOk(places, infos, t.tried, b, p) && NewSlotOk(places, infos, t.news, b, p)
    {
      assert TriedSlotOk(places, t.infos, t.tried, b, p) && NewSlotOk(places, t.infos, t.news, b, p);
    }
    var refs := Refs(places, t.news, info.Service(), id);
    forall b: int | 0 <= b < NEW_BUCKET_COUNT
      ensures b !in refs
    {
      assert NewSlotOk(places, t.infos, t.news, b, places.Position(true, b, info.Service()));
    }
    assert refs == {};
    forall x
      ensures TriedInfoOk(places, infos, t.tried, x) && NewInfoOk(places, infos, t.news, x)
    {
      assert TriedInfoOk(places, t.infos, t.tried, x) && NewInfoOk(places, t.infos, t.news, x);
    }
  }

  lemma CreateCounted(t: Tables, limbo: set<int>, extra: int, id: int, info: Info)
    requires Settled(t.infos, limbo) && Counted(t.infos, t.nTried, t.nNew, limbo, extra)
    requires id !in t.infos && !info.inTried && info.refCount == 0 && info.lastTry >= 0 && info.lastSuccess >= 0
    ensures Settled(t.infos[id := info], limbo + {id})
            && Counted(t.infos[id := info], t.nTried, t.nNew, limbo + {id}, extra)
  {
    var infos, limbo' := t.infos[id := info], limbo + {id};
    forall x
      ensures InfoSettled(infos, limbo', x)
    {
      assert InfoSettled(t.infos, limbo, x);
    }
    assert InfoSettled(t.infos, limbo, id);
    AddedIds(t.infos, id, info, limbo);
  }

  lemma AddedIds(infos: Infos, id: int, info: Info, limbo: set<int>)
    requires id !in infos && id !in limbo && !info.inTried
    ensures TriedIds(infos[id := info]) == TriedIds(infos)
    ensures NewIds(infos[id := info]) - (limbo + {id}) == NewIds(infos) - limbo
  {
    assert NewIds(infos[id := info]) == NewIds(infos) + {id};
  }

  /** An entered record is in limbo. */
  lemma EnterKeeps(t: Tables, places: Places, limbo: set<int>, extra: int, info: Info)
    requires Inv(t, places, limbo, extra) && info.Ip() !in t.addrs
    requires !info.inTried && info.refCount == 0 && info.lastTry >= 0 && info.lastSuccess >= 0
    ensures t.idCount !in t.infos && Inv(Enter(t, info), places, limbo + {t.idCount}, extra)
  {
    EnterLinked(t, info);
    CreateTables(t, places, t.idCount, info.(randomPos := |t.random|));
    CreateCounted(t, limbo, extra, t.idCount, info.(randomPos := |t.random|));
  }

  /** A created entry is in limbo, already counted as new. */
  lemma CreateKeeps(t: Tables, places: Places, address: Address, source: NetAddr, penalty: int)
    requires Inv(t, places, {}, 0) && address.service.ip !in t.addrs
    ensures t.idCount !in t.infos && Inv(Create(t, address, source, penalty), places, {t.idCount}, 1)
  {
    var info := Info(address.(time := Max0(address.time - penalty)), source, 0, 0, 0, 0, 0, false, -1);
    EnterKeeps(t, places, {}, 0, info);
    assert {} + {t.idCount} == {t.idCount};
  }

  /** The slot that `Add_` wants is free, or its entry may be overwritten. */
  predicate MayInsert(t: Tables, b: nat, p: nat, id: int, now: int)
    requires InTable(t.news, b, p) && id in t.infos && (t.news[b][p] == -1 || t.news[b][p] in t.infos)
  {
    || t.news[b][p] == -1
    || t.infos[t.news[b][p]].IsTerrible(now)
    || (t.infos[t.news[b][p]].refCount > 1 && t.infos[id].refCount == 0)
  }

  /** The last part of `Add_`: give the entry a reference in slot (b, p), or drop it if it has none. */
  ghost function FileAt(t: Tables, places: Places, b: nat, p: nat, id: int, now: int): (r: Tables)
    requires Inv(t, places, {id}, 1) && id in t.infos && t.infos[id].refCount < NEW_BUCKETS_PER_ADDRESS
    requires InTable(t.news, b, p) && p == places.Position(true, b, t.infos[id].Service())
    ensures Inv(r, places, {}, 0)
  {
    assert NewSlotOk(places, t.infos, t.news, b, p);
    if t.news[b][p] == id then
      SlotIsRef(t, places, b, p, id);
      ReferencedIsSettled(t, places, id);
      t
    else if MayInsert(t, b, p, id, now) then
      ClearNewKeeps(t, places, {id}, 1, b, p);
      FileKeeps(t, ClearNew(t, b, p), places, b, p, id);
      AddRef(ClearNew(t, b, p), b, p, id)
    else if t.infos[id].refCount == 0 then
      DeleteKeeps(t, places, {id}, 1, id);
      assert {id} - {id} == {};
      Delete(t, id)
    else
      ReferencedIsSettled(t, places, id);
      t
  }

  /** Filing touches at most the one slot, and no record but the entry's own and that of the slot's old occupant. */
  lemma FileFrame(t: Tables, places: Places, b: nat, p: nat, id: int, now: int)
    requires Inv(t, places, {id}, 1) && id in t.infos && t.infos[id].refCount < NEW_BUCKETS_PER_ADDRESS
    requires InTable(t.news, b, p) && p == places.Position(true, b, t.infos[id].Service())
    ensures
      var r := FileAt(t, places, b, p, id, now);
      && r.tried == t.tried
      && (r.news == t.news || r.news == Put(t.news, b, p, id))
      && forall x :: x == id || SameEntryUnless(t.news[b][p], t.infos, r.infos, x)
  {
    assert NewSlotOk(places, t.infos, t.news, b, p);
    if t.news[b][p] != id {
      if MayInsert(t, b, p, id, now) {
        ClearNewKeeps(t, places, {id}, 1, b, p);
        FileKeeps(t, ClearNew(t, b, p), places, b, p, id);
      } else if t.infos[id].refCount == 0 {
        DeleteKeeps(t, places, {id}, 1, id);
        FileDrops(t, b, p, id);
      }
    }
  }

  lemma SlotIsRef(t: Tables, places: Places, b: nat, p: nat, id: int)
    requires NewOk(places, t.infos, t.news) && id in t.infos && InTable(t.news, b, p) && t.news[b][p] == id
    requires p == places.Position(true, b, t.infos[id].Service())
    ensures t.infos[id].refCount > 0
  {
    assert NewInfoOk(places, t.infos, t.news, id);
    assert b in Refs(places, t.news, t.infos[id].Service(), id);
  }

  lemma ReferencedIsSettled(t: Tables, places: Places, id: int)
    requires Inv(t, places, {id}, 1) && id in t.infos && t.infos[id].refCount != 0
    ensures Inv(t, places, {}, 0)
  {
    assert NewInfoOk(places, t.infos, t.news, id);
    assert {} + {id} == {id};
    FromLimbo(t.infos, t.nTried, t.nNew, {}, 0, id);
  }

  lemma FileKeeps(t: Tables, c: Tables, places: Places, b: nat, p: nat, id: int)
    requires Inv(c, places, {id}, 1) && id in t.infos && t.infos[id].refCount < NEW_BUCKETS_PER_ADDRESS
    requires InTable(t.news, b, p) && c.news == Put(t.news, b, p, -1) && t.news[b][p] != id
    requires p == places.Position(true, b, t.infos[id].Service())
    requires forall x :: SameEntryUnless(t.news[b][p], t.infos, c.infos, x)
    ensures id in c.infos && InTable(c.news, b, p)
    ensures
      var r := AddRef(c, b, p, id);
      && Inv(r, places, {}, 0)
      && r.news == Put(t.news, b, p, id)
      && forall x :: x == id || SameEntryUnless(t.news[b][p], t.infos, r.infos, x)
  {
    hide Inv;
    assert SameEntryUnless(t.news[b][p], t.infos, c.infos, id);
    FileSettles(c, places, b, p, id);
    var r := AddRef(c, b, p, id);
    assert r.news[b] == Put(t.news, b, p, id)[b];
    forall x
      ensures x == id || SameEntryUnless(t.news[b][p], t.infos, r.infos, x)
    {
      assert SameEntryUnless(t.news[b][p], t.infos, c.infos, x);
    }
  }

  lemma FileSettles(c: Tables, places: Places, b: nat, p: nat, id: int)
    requires Inv(c, places, {id}, 1) && id in c.infos && c.infos[id].refCount < NEW_BUCKETS_PER_ADDRESS
    requires InTable(c.news, b, p) && c.news[b][p] == -1 && p == places.Position(true, b, c.infos[id].Service())
    ensures Inv(AddRef(c, b, p, id), places, {}, 0)
  {
    AddRefKeeps(c, places, {id}, 1, b, p, id);
    var r := AddRef(c, b, p, id);
    assert InfoSettled(c.infos, {id}, id) && NewInfoOk(places, c.infos, c.news, id);
    assert {} + {id} == {id};
    FromLimbo(r.infos, r.nTried, r.nNew, {}, 0, id);
  }

  lemma FileDrops(t: Tables, b: nat, p: nat, id: int)
    requires Deletable(t, id) && InTable(t.news, b, p)
    requires SameButPos(t.infos - {id}, Delete(t, id).infos)
    ensures forall x :: x == id || SameEntryUnless(t.news[b][p], t.infos, Delete(t, id).infos, x)
  {
    forall x
      ensures x == id || SameEntryUnless(t.news[b][p], t.infos, Delete(t, id).infos, x)
    {
      assert SameEntry(t.infos - {id}, Delete(t, id).infos, x);
    }
  }

  /** How old a time must be to be refreshed: an hour for addresses that are online, a day for others. */
  function UpdateInterval(address: Address, now: int): int {
    var online := now - address.time < 24 * 60 * 60;
    if online then 60 * 60 else 24 * 60 * 60
  }

  /** The record after an advertisement: a fresher time, less the penalty, and more service bits. */
  function Refreshed(info: Info, address: Address, penalty: int, now: int): Info {
    var known := info.address.time;
    var time :=
      if address.time != 0 && (known == 0 || known < address.time - UpdateInterval(address, now) - penalty) then
        Max0(address.time - penalty)
      else
        info.address.time;
    info.(address := info.address.(time := time, services := info.address.services + address.services))
  }

  /** An advertisement never moves a time back, moves it on only by more than the interval (or from nothing), and
      loses no service; nothing else changes. */
  lemma RefreshedMeans(info: Info, address: Address, penalty: int, now: int)
    requires penalty >= 0 && info.address.time >= 0
    ensures
      var r := Refreshed(info, address, penalty, now);
      && r == info.(address := r.address) && r.Service() == info.Service()
      && r.address.services == info.address.services + address.services
      && r.address.time >= info.address.time
      && (r.address.time != info.address.time ==>
            && r.address.time == Max0(address.time - penalty)
            && (info.address.time == 0 || r.address.time > info.address.time + UpdateInterval(address, now)))
  {
  }

  /** `Add_` stops here for a known address: nothing new, already tried, referenced often enough, or the coin says
      no. */
  predicate AddStops(info: Info, address: Address, lucky: bool) {
    || address.time == 0
    || (info.address.time != 0 && address.time <= info.address.time)
    || info.inTried
    || info.refCount == NEW_BUCKETS_PER_ADDRESS
    || (info.refCount > 0 && !lucky)
  }

  /** The id that the manager knows an address by. */
  predicate Knows(t: Tables, ip: NetAddr, id: int) {
    ip in t.addrs && t.addrs[ip] == id && id in t.infos && t.infos[id].Ip() == ip
  }

  lemma KnownId(t: Tables, places: Places, ip: NetAddr)
    requires Inv(t, places, {}, 0) && ip in t.addrs
    ensures Knows(t, ip, t.addrs[ip])
  {
    assert AddrLinked(t.infos, t.addrs, ip);
  }

  /** `Add_` for a routable address; `lucky` is whether its stochastic test would let it through. */
  ghost function Add(t: Tables, places: Places, address: Address, source: NetAddr, penalty: int, now: int,
                     lucky: bool): (r: Tables)
    requires Inv(t, places, {}, 0)
    ensures Inv(r, places, {}, 0)
  {
    var penalty := if address.service.ip == source then 0 else penalty;
    if address.service.ip in t.addrs then
      KnownId(t, places, address.service.ip);
      var id := t.addrs[address.service.ip];
      var info := Refreshed(t.infos[id], address, penalty, now);
      assert InfoSettled(t.infos, {}, id);
      UpdateKeeps(t, places, {}, 0, id, info);
      var u := t.(infos := t.infos[id := info]);
      if AddStops(info, address, lucky) then u else
        KnownToLimbo(u, places, id);
        File(u, places, source, id, now)
    else
      CreateKeeps(t, places, address, source, penalty);
      File(Create(t, address, source, penalty), places, source, t.idCount, now)
  }

  lemma KnownToLimbo(t: Tables, places: Places, id: int)
    requires Inv(t, places, {}, 0) && id in t.infos && !t.infos[id].inTried
    ensures Inv(t, places, {id}, 1) && t.infos[id].refCount <= NEW_BUCKETS_PER_ADDRESS
  {
    assert {} + {id} == {id};
    ToLimbo(t.infos, t.nTried, t.nNew, {}, 0, id);
    assert InfoSettled(t.infos, {}, id);
  }

  /** Filing in the bucket that the source leads to. */
  ghost function File(t: Tables, places: Places, source: NetAddr, id: int, now: int): (r: Tables)
    requires Inv(t, places, {id}, 1) && id in t.infos && t.infos[id].refCount < NEW_BUCKETS_PER_ADDRESS
    ensures Inv(r, places, {}, 0)
  {
    var b := places.NewBucket(t.infos[id].Ip(), source);
    FileAt(t, places, b, places.Position(true, b, t.infos[id].Service()), id, now)
  }

  /** `Good_`: a successful connection moves an exactly matching new entry to the tried table. */
  ghost function Good(t: Tables, places: Places, service: Service, time: int): (r: Tables)
    requires Inv(t, places, {}, 0) && time > 0
    ensures Inv(r, places, {}, 0)
  {
    if service.ip !in t.addrs then t else
      KnownId(t, places, service.ip);
      var id := t.addrs[service.ip];
      if t.infos[id].Service() != service then t else MarkedGood(t, places, id, time)
  }

  ghost function MarkedGood(t: Tables, places: Places, id: int, time: int): (r: Tables)
    requires Inv(t, places, {}, 0) && time > 0 && id in t.infos
    ensures Inv(r, places, {}, 0)
  {
    var info := t.infos[id].(lastSuccess := time, lastTry := time, attempts := 0);
    UpdateKeeps(t, places, {}, 0, id, info);
    var u := t.(infos := t.infos[id := info]);
    if info.inTried then u else MakeTried(u, places, id)
  }

  /** After `Good_` a known service is in the tried table, in the slot that its address leads to; of the other tried
      slots none has changed. */
  lemma GoodIsTried(t: Tables, places: Places, service: Service, time: int)
    requires Inv(t, places, {}, 0) && time > 0
    requires service.ip in t.addrs && t.addrs[service.ip] in t.infos
             && t.infos[t.addrs[service.ip]].Service() == service
    ensures
      var r := Good(t, places, service, time);
      var id := t.addrs[service.ip];
      var b := places.TriedBucket(service);
      && id in r.infos && r.infos[id].inTried && r.infos[id].lastSuccess == time
      && r.tried == Put(t.tried, b, places.Position(false, b, service), id)
  {
    var id := t.addrs[service.ip];
    var b := places.TriedBucket(service);
    var p := places.Position(false, b, service);
    assert TriedInfoOk(places, t.infos, t.tried, id);
    if t.infos[id].inTried {
      assert Put(t.tried, b, p, id)[b] == t.tried[b];
      assert Put(t.tried, b, p, id) == t.tried;
    }
  }

  /** `Add_` never touches the tried table, and of the new table at most the slot that address and source lead to; a
      record can only disappear if it was in that slot. */
  lemma AddFrame(t: Tables, places: Places, address: Address, source: NetAddr, penalty: int, now: int, lucky: bool)
    requires Inv(t, places, {}, 0)
    ensures
      var r := Add(t, places, address, source, penalty, now, lucky);
      var s := if address.service.ip in t.addrs && t.addrs[address.service.ip] in t.infos
          then t.infos[t.addrs[address.service.ip]].Service() else address.service;
      var b := places.NewBucket(address.service.ip, source);
      var p := places.Position(true, b, s);
      && r.tried == t.tried
      && (r.news == t.news || exists id :: r.news == Put(t.news, b, p, id))
      && forall x | x in t.infos :: x in r.infos || x == t.news[b][p]
  {
    hide Inv, File;
    var ip := address.service.ip;
    var r := Add(t, places, address, source, penalty, now, lucky);
    var pen := if ip == source then 0 else penalty;
    if ip in t.addrs {
      KnownId(t, places, ip);
      var id := t.addrs[ip];
      var info := Refreshed(t.infos[id], address, pen, now);
      var u := t.(infos := t.infos[id := info]);
      if !AddStops(info, address, lucky) {
        SettledTimes(t, places, id);
        UpdateKeeps(t, places, {}, 0, id, info);
        KnownToLimbo(u, places, id);
        AddFrameFile(t, u, places, source, id, now);
      }
    } else {
      CreateKeeps(t, places, address, source, pen);
      AddFrameFile(t, Create(t, address, source, pen), places, source, t.idCount, now);
    }
  }

  /** Adding an unknown address lists it, with the penalised time, exactly if its slot is free or held by a terrible
      entry or by one with another reference; otherwise it stays unknown. */
  lemma AddLists(t: Tables, places: Places, address: Address, source: NetAddr, penalty: int, now: int, lucky: bool)
    requires Inv(t, places, {}, 0) && address.service.ip !in t.addrs
    ensures
      var r := Add(t, places, address, source, penalty, now, lucky);
      var b := places.NewBucket(address.service.ip, source);
      var p := places.Position(true, b, address.service);
      && (t.news[b][p] == -1 || t.news[b][p] in t.infos)
      && (address.service.ip in r.addrs <==>
          t.news[b][p] == -1 || t.infos[t.news[b][p]].IsTerrible(now) || t.infos[t.news[b][p]].refCount > 1)
      && (address.service.ip in r.addrs ==>
            && r.news[b][p] in r.infos
            && var info := r.infos[r.news[b][p]];
               && info.Service() == address.service && info.source == source && info.refCount == 1 && !info.inTried
               && info.address.time == Max0(address.time - if address.service.ip == source then 0 else penalty))
  {
    var ip := address.service.ip;
    var pen := if ip == source then 0 else penalty;
    var c := Create(t, address, source, pen);
    CreateKeeps(t, places, address, source, pen);
    var b := places.NewBucket(ip, source);
    var p := places.Position(true, b, address.service);
    FileLists(t, c, places, b, p, t.idCount, now);
  }

  lemma FileLists(t: Tables, c: Tables, places: Places, b: nat, p: nat, id: int, now: int)
    requires Inv(t, places, {}, 0) && Inv(c, places, {id}, 1)
    requires b < NEW_BUCKET_COUNT && id >= 0
    requires id !in t.infos && id in c.infos && c.infos == t.infos[id := c.infos[id]] && c.news == t.news
    requires c.infos[id].refCount == 0 && InTable(t.news, b, p) && p == places.Position(true, b, c.infos[id].Service())
    ensures t.news[b][p] == -1 || t.news[b][p] in t.infos
    ensures
      var r := FileAt(c, places, b, p, id, now);
      && (c.infos[id].Ip() in r.addrs <==>
          t.news[b][p] == -1 || t.infos[t.news[b][p]].IsTerrible(now) || t.infos[t.news[b][p]].refCount > 1)
      && (c.infos[id].Ip() in r.addrs ==>
            r.news[b][p] == id && id in r.infos
                && r.infos[id] == c.infos[id].(refCount := 1, randomPos := r.infos[id].randomPos))
  {
    hide Inv, ClearNew;
    SlotHolds(t, places, b, p);
    SlotFacts(c, places, b, p, id);
    if MayInsert(c, b, p, id, now) {
      ClearNewKeeps(c, places, {id}, 1, b, p);
      assert SameEntryUnless(c.news[b][p], c.infos, ClearNew(c, b, p).infos, id);
      FileKeeps(c, ClearNew(c, b, p), places, b, p, id);
      InfoIsLinked(AddRef(ClearNew(c, b, p), b, p, id), places, id);
    }
  }

  /** Filing an entry that has references never drops it: it gains the slot, and one reference, or nothing happens. */
  lemma FileKnown(t: Tables, places: Places, b: nat, p: nat, id: int, now: int)
    requires Inv(t, places, {id}, 1) && id in t.infos && 0 < t.infos[id].refCount < NEW_BUCKETS_PER_ADDRESS
    requires b < NEW_BUCKET_COUNT && InTable(t.news, b, p) && p == places.Position(true, b, t.infos[id].Service())
    ensures t.news[b][p] == -1 || t.news[b][p] in t.infos
    ensures
      var r := FileAt(t, places, b, p, id, now);
      if t.news[b][p] != id && MayInsert(t, b, p, id, now) then
        && r.news == Put(t.news, b, p, id) && id in r.infos
        && r.infos[id] == t.infos[id].(refCount := t.infos[id].refCount + 1, randomPos := r.infos[id].randomPos)
      else r == t
  {
    hide Inv, ClearNew;
    SlotFacts(t, places, b, p, id);
    if t.news[b][p] != id && MayInsert(t, b, p, id, now) {
      ClearNewKeeps(t, places, {id}, 1, b, p);
      assert SameEntryUnless(t.news[b][p], t.infos, ClearNew(t, b, p).infos, id);
      FileKeeps(t, ClearNew(t, b, p), places, b, p, id);
    }
  }

  /** Adding a known address keeps it under its id, with the refreshed record; it gains at most one reference, and
      none if the advertisement is not newer, or the entry is tried, has eight references or loses the draw. */
  lemma AddKnown(t: Tables, places: Places, address: Address, source: NetAddr, penalty: int, now: int, lucky: bool)
    requires Inv(t, places, {}, 0) && address.service.ip in t.addrs
    ensures
      var r := Add(t, places, address, source, penalty, now, lucky);
      var id := t.addrs[address.service.ip];
      && id in t.infos && id in r.infos
      && var info := Refreshed(t.infos[id], address, if address.service.ip == source then 0 else penalty, now);
         && r.infos[id] == info.(refCount := r.infos[id].refCount, randomPos := r.infos[id].randomPos)
         && info.refCount <= r.infos[id].refCount <= info.refCount + 1
         && (AddStops(info, address, lucky) ==> r == t.(infos := t.infos[id := info]))
  {
    hide File;
    var ip := address.service.ip;
    KnownId(t, places, ip);
    var id := t.addrs[ip];
    var info := Refreshed(t.infos[id], address, if ip == source then 0 else penalty, now);
    assert InfoSettled(t.infos, {}, id);
    UpdateKeeps(t, places, {}, 0, id, info);
    var u := t.(infos := t.infos[id := info]);
    if !AddStops(info, address, lucky) {
      KnownToLimbo(u, places, id);
      KnownFiled(u, places, source, id, now);
    }
  }

  lemma KnownFiled(u: Tables, places: Places, source: NetAddr, id: int, now: int)
    requires Inv(u, places, {id}, 1) && id in u.infos && 0 < u.infos[id].refCount < NEW_BUCKETS_PER_ADDRESS
    ensures
      var r := File(u, places, source, id, now);
      && id in r.infos && u.infos[id].refCount <= r.infos[id].refCount <= u.infos[id].refCount + 1
      && r.infos[id] == u.infos[id].(refCount := r.infos[id].refCount, randomPos := r.infos[id].randomPos)
  {
    hide Inv, FileAt;
    var b := places.NewBucket(u.infos[id].Ip(), source);
    Shapes(u, places, {id}, 1);
    FileKnown(u, places, b, places.Position(true, b, u.infos[id].Service()), id, now);
  }

  lemma SlotHolds(t: Tables, places: Places, b: nat, p: nat)
    requires Inv(t, places, {}, 0) && InTable(t.news, b, p)
    ensures t.news[b][p] == -1 || t.news[b][p] in t.infos
  {
    assert NewSlotOk(places, t.infos, t.news, b, p);
  }

  lemma InfoIsLinked(t: Tables, places: Places, id: int)
    requires Inv(t, places, {}, 0) && id in t.infos
    ensures t.infos[id].Ip() in t.addrs && t.addrs[t.infos[id].Ip()] == id
  {
    assert InfoLinked(t.infos, t.addrs, t.idCount, id);
  }

  lemma AddFrameFile(t: Tables, u: Tables, places: Places, source: NetAddr, id: int, now: int)
    requires Inv(u, places, {id}, 1) && id in u.infos && u.infos[id].refCount < NEW_BUCKETS_PER_ADDRESS
    requires u.news == t.news && u.tried == t.tried && forall x | x in t.infos :: x in u.infos
    ensures
      var r := File(u, places, source, id, now);
      var b := places.NewBucket(u.infos[id].Ip(), source);
      var p := places.Position(true, b, u.infos[id].Service());
      && r.tried == t.tried
      && (r.news == t.news || r.news == Put(t.news, b, p, id))
      && (u.infos[id].refCount > 0 ==> id in r.infos)
      && forall x | x in t.infos && x != id :: x in r.infos || x == t.news[b][p]
  {
    var b := places.NewBucket(u.infos[id].Ip(), source);
    var p := places.Position(true, b, u.infos[id].Service());
    FileFrame(u, places, b, p, id, now);
    var r := File(u, places, source, id, now);
    forall x | x in t.infos && x != id
      ensures x in r.infos || x == t.news[b][p]
    {
      assert x == id || SameEntryUnless(u.news[b][p], u.infos, r.infos, x);
    }
  }

  /** The assertion of `ClearNew`: the occupant of a slot has a reference. */
  lemma SlotCounts(t: Tables, places: Places, limbo: set<int>, b: nat, p: nat)
    requires Inv(t, places, limbo, 0) && InTable(t.news, b, p)
    ensures t.news[b][p] != -1 ==>
              t.news[b][p] in t.infos && !t.infos[t.news[b][p]].inTried && t.infos[t.news[b][p]].refCount > 0
  {
    assert NewSlotOk(places, t.infos, t.news, b, p);
    if t.news[b][p] != -1 {
      SlotIsRef(t, places, b, p, t.news[b][p]);
    }
  }

  /** A settled new entry is in some bucket. */
  lemma SomeBucket(t: Tables, places: Places, id: int) returns (b: nat)
    requires Inv(t, places, {}, 0) && id in t.infos && !t.infos[id].inTried
    ensures b < NEW_BUCKET_COUNT && t.news[b][places.Position(true, b, t.infos[id].Service())] == id
  {
    assert InfoSettled(t.infos, {}, id) && NewInfoOk(places, t.infos, t.news, id);
    var x :| x in Refs(places, t.news, t.infos[id].Service(), id);
    b := x;
  }

  // ---------- What the assertions of the code ask for ----------

  lemma SettledTimes(t: Tables, places: Places, id: int)
    requires Inv(t, places, {}, 0) && id in t.infos
    ensures t.infos[id].lastTry >= 0 && t.infos[id].lastSuccess >= 0 && t.infos[id].refCount >= 0
    ensures if t.infos[id].inTried then t.infos[id].lastSuccess > 0 else t.infos[id].refCount > 0
  {
    assert InfoSettled(t.infos, {}, id) && NewInfoOk(places, t.infos, t.news, id);
  }

  lemma CreatedEntry(t: Tables, address: Address, source: NetAddr, penalty: int)
    ensures
      var c := Create(t, address, source, penalty);
      t.idCount in c.infos && c.infos[t.idCount].refCount == 0 && !c.infos[t.idCount].inTried
  {
  }

  /** The slot that an entry in limbo is to be filed in, and the entry itself, can be handled by `ClearNew` and
      `Delete` without failing their assertions; the entry survives the former. */
  lemma SlotFacts(t: Tables, places: Places, b: nat, p: nat, id: int)
    requires Inv(t, places, {id}, 1) && id in t.infos
    requires b < NEW_BUCKET_COUNT && p < BUCKET_SIZE
    ensures InTable(t.news, b, p) && Deletable(t, id) && !t.infos[id].inTried
    ensures t.news[b][p] != -1 ==>
              && Deletable(t, t.news[b][p])
              && !t.infos[t.news[b][p]].inTried && t.infos[t.news[b][p]].refCount > 0
    ensures t.news[b][p] != id ==>
              && id in ClearNew(t, b, p).infos
              && InTable(ClearNew(t, b, p).news, b, p)
  {
    CanDelete(t, id);
    assert InfoSettled(t.infos, {id}, id) && NewSlotOk(places, t.infos, t.news, b, p);
    CanClear(t, places, {id}, 1, b, p);
    if t.news[b][p] != -1 {
      SlotIsRef(t, places, b, p, t.news[b][p]);
    }
    if t.news[b][p] != id {
      ClearNewKeeps(t, places, {id}, 1, b, p);
      assert SameEntryUnless(t.news[b][p], t.infos, ClearNew(t, b, p).infos, id);
    }
  }

  lemma Shapes(t: Tables, places: Places, limbo: set<int>, extra: int)
    requires Inv(t, places, limbo, extra)
    ensures t.idCount >= 0
    ensures HasShape(t.tried, TRIED_BUCKET_COUNT) && HasShape(t.news, NEW_BUCKET_COUNT)
  {
  }

  /** The new slot that an evicted entry goes back to can be cleared without failing the assertions of `ClearNew`; the
      entry survives that. */
  lemma RefileFacts(t: Tables, places: Places, limbo: set<int>, b: nat, p: nat, id: int)
    requires Inv(t, places, limbo, 0) && id in limbo && id in t.infos
    requires forall x | x in limbo :: x in t.infos && t.infos[x].refCount == 0
    requires b < NEW_BUCKET_COUNT && p < BUCKET_SIZE
    ensures InTable(t.news, b, p)
    ensures t.news[b][p] != -1 ==>
              && Deletable(t, t.news[b][p])
              && !t.infos[t.news[b][p]].inTried && t.infos[t.news[b][p]].refCount > 0
    ensures var c := ClearNew(t, b, p); id in c.infos && InTable(c.news, b, p) && c.news[b][p] == -1
  {
    LimboIsNowhere(t, places, limbo, b, p);
    ClearNewKeeps(t, places, limbo, 0, b, p);
    SlotCounts(t, places, limbo, b, p);
    assert SameEntryUnless(t.news[b][p], t.infos, ClearNew(t, b, p).infos, id);
  }

  // ---------- Operations on single records ----------

  /** The record of exactly this service. */
  predicate KnowsExactly(t: Tables, service: Service) {
    service.ip in t.addrs && t.addrs[service.ip] in t.infos && t.infos[t.addrs[service.ip]].Service() == service
  }

  /** An address is known exactly if some record has it, and then that is the only one. */
  lemma KnownIff(t: Tables, places: Places, ip: NetAddr)
    requires Inv(t, places, {}, 0)
    ensures ip in t.addrs <==> exists id :: id in t.infos && t.infos[id].Ip() == ip
    ensures forall id | id in t.infos && t.infos[id].Ip() == ip :: ip in t.addrs && t.addrs[ip] == id
  {
    if ip in t.addrs {
      KnownId(t, places, ip);
    }
    forall id | id in t.infos && t.infos[id].Ip() == ip
      ensures ip in t.addrs && t.addrs[ip] == id
    {
      InfoIsLinked(t, places, id);
    }
  }

  /** A service is matched exactly if some record has it, port included. */
  lemma ExactIff(t: Tables, places: Places, service: Service)
    requires Inv(t, places, {}, 0)
    ensures KnowsExactly(t, service) <==> exists id :: id in t.infos && t.infos[id].Service() == service
  {
    hide Inv;
    KnownIff(t, places, service.ip);
    forall id | id in t.infos && t.infos[id].Service() == service
      ensures KnowsExactly(t, service)
    {
      assert t.infos[id].Ip() == service.ip;
    }
  }

  /** A failed attempt is only counted if some connection succeeded since the last one that was. */
  function WithAttempt(info: Info, countFailure: bool, time: int, lastGood: int): Info {
    var counts := countFailure && info.lastCountAttempt < lastGood;
    info.(lastTry := time,
          lastCountAttempt := if counts then time else info.lastCountAttempt,
          attempts := if counts then info.attempts + 1 else info.attempts)
  }

  /** The time is refreshed at most every twenty minutes. */
  function WithTime(info: Info, time: int): Info {
    if time - info.address.time <= 20 * 60 then info else info.(address := info.address.(time := time))
  }

  function WithBits(info: Info, services: set<nat>): Info {
    info.(address := info.address.(services := services))
  }

  /** `Attempt_`. */
  function Attempted(t: Tables, service: Service, countFailure: bool, time: int, lastGood: int): Tables {
    if !KnowsExactly(t, service) then t else
      var id := t.addrs[service.ip];
      t.(infos := t.infos[id := WithAttempt(t.infos[id], countFailure, time, lastGood)])
  }

  /** `Connected_`. */
  function Connected(t: Tables, service: Service, time: int): Tables {
    if !KnowsExactly(t, service) then t else
      var id := t.addrs[service.ip];
      t.(infos := t.infos[id := WithTime(t.infos[id], time)])
  }

  /** `SetServices_`. */
  function WithServices(t: Tables, service: Service, services: set<nat>): Tables {
    if !KnowsExactly(t, service) then t else
      var id := t.addrs[service.ip];
      t.(infos := t.infos[id := WithBits(t.infos[id], services)])
  }

  /** A change of all records of a service, whatever the lookup by address says. */
  ghost predicate ChangedTo(t: Tables, r: Tables, service: Service, x: int, info: Info) {
    x in t.infos ==> x in r.infos && r.infos[x] == if t.infos[x].Service() == service then info else t.infos[x]
  }

  lemma FoundByAddress(t: Tables, places: Places, service: Service, x: int)
    requires Inv(t, places, {}, 0) && x in t.infos
    ensures t.infos[x].Service() == service <==> KnowsExactly(t, service) && t.addrs[service.ip] == x
  {
    hide Inv;
    KnownIff(t, places, service.ip);
  }

  /** Looking the record up by its address reaches every record of exactly this service, and no other. */
  lemma AttemptedMeans(t: Tables, places: Places, service: Service, countFailure: bool, time: int, lastGood: int)
    requires Inv(t, places, {}, 0)
    ensures
      var r := Attempted(t, service, countFailure, time, lastGood);
      && r == t.(infos := r.infos) && r.infos.Keys == t.infos.Keys
      && forall x | x in t.infos :: ChangedTo(t, r, service, x, WithAttempt(t.infos[x], countFailure, time, lastGood))
  {
    hide Inv, WithAttempt;
    forall x | x in t.infos
      ensures ChangedTo(t, Attempted(t, service, countFailure, time, lastGood), service, x,
                        WithAttempt(t.infos[x], countFailure, time, lastGood))
    {
      FoundByAddress(t, places, service, x);
    }
  }

  lemma ConnectedMeans(t: Tables, places: Places, service: Service, time: int)
    requires Inv(t, places, {}, 0)
    ensures
      var r := Connected(t, service, time);
      && r == t.(infos := r.infos) && r.infos.Keys == t.infos.Keys
      && forall x | x in t.infos :: ChangedTo(t, r, service, x, WithTime(t.infos[x], time))
  {
    hide Inv, WithTime;
    forall x | x in t.infos
      ensures ChangedTo(t, Connected(t, service, time), service, x, WithTime(t.infos[x], time))
    {
      FoundByAddress(t, places, service, x);
    }
  }

  lemma ServicesMeans(t: Tables, places: Places, service: Service, services: set<nat>)
    requires Inv(t, places, {}, 0)
    ensures
      var r := WithServices(t, service, services);
      && r == t.(infos := r.infos) && r.infos.Keys == t.infos.Keys
      && forall x | x in t.infos :: ChangedTo(t, r, service, x, WithBits(t.infos[x], services))
  {
    hide Inv, WithBits;
    forall x | x in t.infos
      ensures ChangedTo(t, WithServices(t, service, services), service, x, WithBits(t.infos[x], services))
    {
      FoundByAddress(t, places, service, x);
    }
  }

  /** Failures at any times after a success count once until the next one. */
  lemma {:induction false} CountsOnce(info: Info, times: seq<int>, lastGood: int)
    requires forall i | 0 <= i < |times| :: times[i] >= lastGood
    ensures
      var r := AttemptedAt(info, times, lastGood);
      && r.attempts == info.attempts + (if times != [] && info.lastCountAttempt < lastGood then 1 else 0)
      && (times != [] ==> r.lastCountAttempt >= lastGood)
    decreases |times|
  {
    if times != [] {
      CountsOnce(info, times[..|times| - 1], lastGood);
    }
  }

  function AttemptedAt(info: Info, times: seq<int>, lastGood: int): Info {
    if times == [] then info
    else WithAttempt(AttemptedAt(info, times[..|times| - 1], lastGood), true, times[|times| - 1], lastGood)
  }

  // ---------- Sampling ----------

  lemma SameRefl(a: Infos)
    ensures SameButPos(a, a)
  {
  }

  lemma SameTrans(a: Infos, b: Infos, c: Infos)
    requires SameButPos(a, b) && SameButPos(b, c)
    ensures SameButPos(a, c)
  {
    forall id
      ensures SameEntry(a, c, id)
    {
      assert SameEntry(a, b, id) && SameEntry(b, c, id);
    }
  }

  lemma EntryAt(t: Tables, places: Places, i: nat)
    requires Inv(t, places, {}, 0) && i < |t.random|
    ensures t.random[i] in t.infos && forall j | 0 <= j < i :: t.random[j] != t.random[i]
  {
    assert RandomLinked(t.infos, t.random, i);
    forall j | 0 <= j < i
      ensures t.random[j] != t.random[i]
    {
      assert RandomLinked(t.infos, t.random, j);
    }
  }

  /** The i-th sampled id is among the first n of the random order, and its record is as sampled. */
  ghost predicate SampleOk(infos: Infos, random: seq<int>, n: nat, ids: seq<int>, addresses: seq<Address>, now: int,
                           i: int)
    requires n <= |random| && |ids| == |addresses|
  {
    0 <= i < |ids| ==>
      var id := ids[i];
      && id in random[..n]
      && id in infos && infos[id].address == addresses[i] && !infos[id].IsTerrible(now)
      && forall j | 0 <= j < i :: ids[j] != id
  }

  ghost predicate Sampled(infos: Infos, random: seq<int>, n: nat, ids: seq<int>, addresses: seq<Address>, now: int)
    requires n <= |random| && |ids| == |addresses|
  {
    forall i :: SampleOk(infos, random, n, ids, addresses, now, i)
  }

  lemma NothingSampled(infos: Infos, random: seq<int>, now: int)
    ensures Sampled(infos, random, 0, [], [], now)
  {
  }

  /** Swapping two later places keeps the sample. */
  lemma SampledSwap(infos: Infos, random: seq<int>, infos': Infos, random': seq<int>, p: nat, q: nat,
                    ids: seq<int>, addresses: seq<Address>, now: int)
    requires p <= q < |random| == |random'| && |ids| == |addresses|
    requires Sampled(infos, random, p, ids, addresses, now) && SameButPos(infos, infos')
    requires random'[..p] == random[..p]
    ensures Sampled(infos', random', p, ids, addresses, now)
  {
    forall i
      ensures SampleOk(infos', random', p, ids, addresses, now, i)
    {
      assert SampleOk(infos, random, p, ids, addresses, now, i);
      if 0 <= i < |ids| {
        assert SameEntry(infos, infos', ids[i]);
      }
    }
  }

  /** Looking at one more place, and taking its entry or not. */
  lemma SampledNext(infos: Infos, random: seq<int>, n: nat, ids: seq<int>, addresses: seq<Address>, now: int,
                    take: bool)
    requires n < |random| && |ids| == |addresses| && Sampled(infos, random, n, ids, addresses, now)
    requires random[n] in infos && forall j | 0 <= j < n :: random[j] != random[n]
    requires take ==> !infos[random[n]].IsTerrible(now)
    ensures
      var ids' := if take then ids + [random[n]] else ids;
      var addresses' := if take then addresses + [infos[random[n]].address] else addresses;
      Sampled(infos, random, n + 1, ids', addresses', now)
  {
    var ids' := if take then ids + [random[n]] else ids;
    var addresses' := if take then addresses + [infos[random[n]].address] else addresses;
    assert random[..n + 1] == random[..n] + [random[n]];
    var n' := n + 1;
    forall i
      ensures SampleOk(infos, random, n', ids', addresses', now, i)
    {
      assert SampleOk(infos, random, n, ids, addresses, now, i);
      forall j | 0 <= j < |ids|
        ensures ids[j] != random[n]
      {
        assert SampleOk(infos, random, n, ids, addresses, now, j);
      }
    }
  }

  /** Of the first n entries of the random order, those that are not terrible have been sampled. */
  ghost predicate Skipped(infos: Infos, random: seq<int>, n: nat, ids: seq<int>, now: int)
    requires n <= |random|
  {
    forall k | 0 <= k < n :: random[k] in infos && (random[k] in ids || infos[random[k]].IsTerrible(now))
  }

  lemma NothingSkipped(infos: Infos, random: seq<int>, now: int)
    ensures Skipped(infos, random, 0, [], now)
  {
  }

  lemma SkippedNext(infos: Infos, random: seq<int>, n: nat, ids: seq<int>, now: int)
    requires n < |random| && random[n] in infos && Skipped(infos, random, n, ids, now)
    ensures
      Skipped(infos, random, n + 1, if infos[random[n]].IsTerrible(now) then ids else ids + [random[n]], now)
  {
  }

  lemma SkippedSwap(infos: Infos, random: seq<int>, infos': Infos, random': seq<int>, n: nat, ids: seq<int>, now: int)
    requires n <= |random| == |random'| && Skipped(infos, random, n, ids, now) && SameButPos(infos, infos')
    requires random'[..n] == random[..n]
    ensures Skipped(infos', random', n, ids, now)
  {
    forall k | 0 <= k < n
      ensures random'[k] in infos' && (random'[k] in ids || infos'[random'[k]].IsTerrible(now))
    {
      assert random'[k] == random'[..n][k] == random[k];
      assert SameEntry(infos, infos', random[k]);
    }
  }

  lemma SkippedAll(t: Tables, places: Places, ids: seq<int>, now: int)
    requires Inv(t, places, {}, 0) && Skipped(t.infos, t.random, |t.random|, ids, now)
    ensures forall id | id in t.infos :: id in ids || t.infos[id].IsTerrible(now)
  {
    forall id | id in t.infos
      ensures id in ids || t.infos[id].IsTerrible(now)
    {
      assert PosLinked(t.infos, t.random, id);
      assert t.random[t.infos[id].randomPos] == id;
    }
  }

  lemma SampledMeans(infos: Infos, random: seq<int>, n: nat, ids: seq<int>, addresses: seq<Address>, now: int)
    requires n <= |random| && |ids| == |addresses| && Sampled(infos, random, n, ids, addresses, now)
    ensures forall i, j | 0 <= i < j < |ids| :: ids[i] != ids[j]
    ensures forall i | 0 <= i < |ids| ::
              ids[i] in infos && infos[ids[i]].address == addresses[i] && !infos[ids[i]].IsTerrible(now)
  {
    forall j | 0 <= j < |ids|
      ensures ids[j] in infos && infos[ids[j]].address == addresses[j] && !infos[ids[j]].IsTerrible(now)
      ensures forall i | 0 <= i < j :: ids[i] != ids[j]
    {
      assert SampleOk(infos, random, n, ids, addresses, now, j);
    }
  }
}
