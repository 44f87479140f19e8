/**
 The address manager object (`CAddrMan`). Its methods update the tables step by step; each is proved to do what the
 corresponding function of `AddrTables` does to them, and so to keep them consistent.
 */
module AddrMan {
  import opened AddrTables
  import opened AddrCheck
  import opened AddrCodec
  import opened AddrRoundTrip

  class AddrMan {
    const hashes: Hashes
    const routable: NetAddr -> bool
    var nIdCount: int
    var mapInfo: Infos
    var mapAddr: map<NetAddr, int>
    var vRandom: seq<int>
    var nTried: int
    var vvTried: Table
    var nNew: int
    var vvNew: Table
    var nLastGood: int
    var nKey: nat

    function Where(): Places
      reads this`nKey
    {
      Places(hashes, nKey)
    }

    function Value(): Tables
      reads this`nIdCount, this`mapInfo, this`mapAddr, this`vRandom, this`nTried, this`vvTried, this`nNew, this`vvNew
    {
      Tables(nIdCount, mapInfo, mapAddr, vRandom, nTried, vvTried, nNew, vvNew)
    }

    ghost predicate Valid()
      reads this`nKey, this`nIdCount, this`mapInfo, this`mapAddr, this`vRandom, this`nTried, this`vvTried, this`nNew,
            this`vvNew
    {
      Inv(Value(), Where(), {}, 0)
    }

    constructor (hashes: Hashes, routable: NetAddr -> bool, key: nat)
      ensures Valid() && this.hashes == hashes && this.routable == routable && nKey == key
      ensures mapInfo == map[] && mapAddr == map[] && nLastGood == 1
    {
      this.hashes, this.routable := hashes, routable;
      nKey := key;
      nIdCount, nTried, nNew, nLastGood := 0, 0, 0, 1;
      mapInfo, mapAddr, vRandom := map[], map[], [];
      vvNew := EmptyTable(NEW_BUCKET_COUNT);
      vvTried := EmptyTable(TRIED_BUCKET_COUNT);
      new;
      assert TriedIds(mapInfo) == {} && NewIds(mapInfo) == {};
    }

    method Find(ip: NetAddr) returns (found: bool, id: int)
      ensures found <==> ip in mapAddr && mapAddr[ip] in mapInfo
      ensures found ==> id == mapAddr[ip]
    {
      id := 0;
      if ip !in mapAddr {
        return false, id;
      }
      id := mapAddr[ip];
      found := id in mapInfo;
    }

    method SwapRandom(pos1: nat, pos2: nat)
      requires pos1 < |vRandom| && pos2 < |vRandom| && vRandom[pos1] in mapInfo && vRandom[pos2] in mapInfo
      modifies this`mapInfo, this`vRandom
      ensures Value() == Swap(old(Value()), pos1, pos2)
    {
      if pos1 == pos2 {
        return;
      }
      var id1 := vRandom[pos1];
      var id2 := vRandom[pos2];
      mapInfo := mapInfo[id1 := mapInfo[id1].(randomPos := pos2)];
      mapInfo := mapInfo[id2 := mapInfo[id2].(randomPos := pos1)];
      vRandom := vRandom[pos1 := id2];
      vRandom := vRandom[pos2 := id1];
    }

    method Delete(id: int)
      requires Deletable(Value(), id) && !mapInfo[id].inTried && mapInfo[id].refCount == 0
      modifies this`mapInfo, this`mapAddr, this`vRandom, this`nNew
      ensures Value() == AddrTables.Delete(old(Value()), id)
    {
      SwapRandom(mapInfo[id].randomPos, |vRandom| - 1);
      vRandom := vRandom[..|vRandom| - 1];
      mapAddr := mapAddr - {mapInfo[id].Ip()};
      mapInfo := mapInfo - {id};
      nNew := nNew - 1;
    }

    method ClearNew(b: nat, p: nat)
      requires InTable(vvNew, b, p)
      requires vvNew[b][p] != -1 ==>
                 Deletable(Value(), vvNew[b][p]) && !mapInfo[vvNew[b][p]].inTried && mapInfo[vvNew[b][p]].refCount > 0
      modifies this`mapInfo, this`mapAddr, this`vRandom, this`nNew, this`vvNew
      ensures Value() == AddrTables.ClearNew(old(Value()), b, p)
    {
      if vvNew[b][p] != -1 {
        var id := vvNew[b][p];
        mapInfo := mapInfo[id := mapInfo[id].(refCount := mapInfo[id].refCount - 1)];
        vvNew := Put(vvNew, b, p, -1);
        if mapInfo[id].refCount == 0 {
          Delete(id);
        }
      }
    }

    /** The loop of `MakeTried`: takes the entry out of all new buckets. */
    method StripNew(id: int)
      requires Valid() && id in mapInfo && !mapInfo[id].inTried
      modifies this`mapInfo, this`vvNew, this`nNew
      ensures Value() == Stripping(old(Value()), old(Where()), id)
    {
      hide Inv;
      Shapes(Value(), Where(), {}, 0);
      ghost var s := mapInfo[id].Service();
      var bucket := 0;
      while bucket < NEW_BUCKET_COUNT
        invariant 0 <= bucket <= NEW_BUCKET_COUNT
        invariant vvNew == Stripped(Where(), old(vvNew), s, id, bucket)
        invariant mapInfo == old(mapInfo)[id := old(mapInfo[id]).(
                    refCount := old(mapInfo[id].refCount) - Removed(Where(), old(vvNew), s, id, bucket))]
        invariant nNew == old(nNew)
      {
        var pos := Where().Position(true, bucket, mapInfo[id].Service());
        StrippedAt(Where(), old(vvNew), s, id, bucket, bucket, pos);
        if vvNew[bucket][pos] == id {
          vvNew := Put(vvNew, bucket, pos, -1);
          mapInfo := mapInfo[id := mapInfo[id].(refCount := mapInfo[id].refCount - 1)];
        }
        bucket := bucket + 1;
      }
      nNew := nNew - 1;
    }

    method MakeTried(id: int)
      requires Valid() && id in mapInfo && !mapInfo[id].inTried && mapInfo[id].lastSuccess > 0
      modifies this`mapInfo, this`mapAddr, this`vRandom, this`nTried, this`vvTried, this`nNew, this`vvNew
      ensures Value() == AddrTables.MakeTried(old(Value()), old(Where()), id)
    {
      hide Inv;
      StripNew(id);
      StrippingKeeps(old(Value()), Where(), id);
      assert mapInfo[id].refCount == 0;
      Shapes(Value(), Where(), {id}, 0);
      var nKBucket := Where().TriedBucket(mapInfo[id].Service());
      var nKBucketPos := Where().Position(false, nKBucket, mapInfo[id].Service());
      MakeRoom(nKBucket, nKBucketPos, id);
      EnterTried(nKBucket, nKBucketPos, id);
    }

    /** The last part of `MakeTried`; the slot is free. */
    method EnterTried(b: nat, p: nat, id: int)
      requires InTable(vvTried, b, p) && vvTried[b][p] == -1 && id in mapInfo
      modifies this`mapInfo, this`nTried, this`vvTried
      ensures Value() == Place(old(Value()), b, p, id)
    {
      vvTried := Put(vvTried, b, p, id);
      nTried := nTried + 1;
      mapInfo := mapInfo[id := mapInfo[id].(inTried := true)];
    }

    /** The middle part of `MakeTried`: evicts the occupant of the tried slot, back into a new slot. */
    method MakeRoom(b: nat, p: nat, id: int)
      requires Inv(Value(), Where(), {id}, 0) && id in mapInfo && mapInfo[id].refCount == 0 && InTable(vvTried, b, p)
      modifies this`mapInfo, this`mapAddr, this`vRandom, this`nTried, this`vvTried, this`nNew, this`vvNew
      ensures Value() == Evict(old(Value()), old(Where()), b, p, id)
    {
      if vvTried[b][p] == -1 {
        return;
      }
      var evict := vvTried[b][p];
      UntryKeeps(Value(), Where(), {id}, 0, b, p);
      EvictSets(id, evict);
      mapInfo := mapInfo[evict := mapInfo[evict].(inTried := false)];
      vvTried := Put(vvTried, b, p, -1);
      nTried := nTried - 1;
      PutBack(evict, {id, evict});
    }

    /** Enters an evicted entry into the new table again. */
    method PutBack(id: int, ghost limbo: set<int>)
      requires Inv(Value(), Where(), limbo, 0) && id in limbo && id in mapInfo && mapInfo[id].refCount == 0
      requires forall x | x in limbo :: x in mapInfo && mapInfo[x].refCount == 0
      modifies this`mapInfo, this`mapAddr, this`vRandom, this`nNew, this`vvNew
      ensures Value() == Refile(old(Value()), old(Where()), limbo, id)
    {
      hide Inv, Put, AddrTables.ClearNew;
      var nUBucket := Where().NewBucket(mapInfo[id].Ip(), mapInfo[id].source);
      var nUBucketPos := Where().Position(true, nUBucket, mapInfo[id].Service());
      RefileFacts(Value(), Where(), limbo, nUBucket, nUBucketPos, id);
      ClearNew(nUBucket, nUBucketPos);
      assert vvNew[nUBucket][nUBucketPos] == -1;
      mapInfo := mapInfo[id := mapInfo[id].(refCount := 1)];
      vvNew := Put(vvNew, nUBucket, nUBucketPos, id);
      nNew := nNew + 1;
    }

    method Good_(service: Service, time: int)
      requires Valid() && time > 0
      modifies this
      ensures Valid()
      ensures Value() == Good(old(Value()), old(Where()), service, time)
      ensures nKey == old(nKey) && nLastGood == time
    {
      hide AddrTables.MarkedGood, Inv;
      nLastGood := time;
      var found, id := FindExact(service);
      if found {
        MarkGood(id, time);
      }
    }

    /** Finds the entry of exactly this service, port included. */
    method FindExact(service: Service) returns (found: bool, id: int)
      requires Valid()
      ensures service.ip in mapAddr ==> mapAddr[service.ip] in mapInfo
      ensures found <==> service.ip in mapAddr && mapInfo[mapAddr[service.ip]].Service() == service
      ensures found ==> id == mapAddr[service.ip]
    {
      found, id := Find(service.ip);
      if service.ip in mapAddr {
        KnownId(Value(), Where(), service.ip);
      }
      found := found && mapInfo[id].Service() == service;
    }

    /** The part of `Good_` for an entry that was found. */
    method MarkGood(id: int, time: int)
      requires Valid() && time > 0 && id in mapInfo
      modifies this`mapInfo, this`mapAddr, this`vRandom, this`nTried, this`vvTried, this`nNew, this`vvNew
      ensures Value() == MarkedGood(old(Value()), old(Where()), id, time)
    {
      mapInfo := mapInfo[id := mapInfo[id].(lastSuccess := time, lastTry := time, attempts := 0)];
      UpdateKeeps(old(Value()), Where(), {}, 0, id, mapInfo[id]);
      if mapInfo[id].inTried {
        return;
      }
      var inBucket := FindBucket(id);
      if inBucket {
        MakeTried(id);
      }
    }

    /** The search of `Good_` for a bucket that holds the entry, from a random one on; it always finds one. */
    method FindBucket(id: int) returns (found: bool)
      requires Valid() && id in mapInfo && !mapInfo[id].inTried
      ensures found
    {
      var places, news, s := Where(), vvNew, mapInfo[id].Service();
      ghost var there := SomeBucket(Value(), places, id);
      var nRnd: nat :| nRnd < NEW_BUCKET_COUNT;
      found := false;
      var n := 0;
      while n < NEW_BUCKET_COUNT && !found
        invariant 0 <= n <= NEW_BUCKET_COUNT
        invariant found || (there - nRnd) % NEW_BUCKET_COUNT >= n
      {
        var nB := (n + nRnd) % NEW_BUCKET_COUNT;
        if news[nB][places.Position(true, nB, s)] == id {
          found := true;
        }
        n := n + 1;
      }
    }

    /** `Create`, with what `Add_` does right after it. */
    method Create(address: Address, source: NetAddr, penalty: int) returns (id: int)
      modifies this`nIdCount, this`mapInfo, this`mapAddr, this`vRandom, this`nNew
      ensures Value() == AddrTables.Create(old(Value()), address, source, penalty) && id == old(nIdCount)
    {
      id := nIdCount;
      nIdCount := nIdCount + 1;
      mapInfo := mapInfo[id := Info(address, source, 0, 0, 0, 0, 0, false, -1)];
      mapAddr := mapAddr[address.service.ip := id];
      mapInfo := mapInfo[id := mapInfo[id].(randomPos := |vRandom|)];
      vRandom := vRandom + [id];
      mapInfo := mapInfo[id := mapInfo[id].(address := address.(time := Max0(address.time - penalty)))];
      nNew := nNew + 1;
    }

    /** `lucky` says whether the random draw of the stochastic test is zero, `now` is the adjusted time. */
    method Add_(address: Address, source: NetAddr, timePenalty: int, now: int, lucky: bool) returns (fNew: bool)
      requires Valid()
      modifies this`nIdCount, this`mapInfo, this`mapAddr, this`vRandom, this`nNew, this`vvNew
      ensures Valid()
      ensures !routable(address.service.ip) ==> !fNew && Value() == old(Value())
      ensures routable(address.service.ip) ==>
                && fNew == (address.service.ip !in old(mapAddr))
                && Value() == Add(old(Value()), old(Where()), address, source, timePenalty, now, lucky)
    {
      hide Inv, AddrTables.File, AddrTables.Create;
      if !routable(address.service.ip) {
        return false;
      }
      fNew := false;
      var found, id := Find(address.service.ip);
      if address.service.ip in mapAddr {
        KnownId(Value(), Where(), address.service.ip);
      }
      var penalty := if address.service.ip == source then 0 else timePenalty;
      if found {
        var info := Refresh(mapInfo[id], address, penalty, now);
        SettledTimes(Value(), Where(), id);
        UpdateKeeps(Value(), Where(), {}, 0, id, info);
        mapInfo := mapInfo[id := info];
        var stops := StopsAdd(info, address, lucky);
        if stops {
          return false;
        }
        KnownToLimbo(Value(), Where(), id);
      } else {
        CreateKeeps(Value(), Where(), address, source, penalty);
        id := Create(address, source, penalty);
        CreatedEntry(old(Value()), address, source, penalty);
        fNew := true;
      }
      FileEntry(id, source, now);
    }

    method Refresh(info: Info, address: Address, penalty: int, now: int) returns (r: Info)
      ensures r == Refreshed(info, address, penalty, now)
    {
      r := info;
      var fCurrentlyOnline := now - address.time < 24 * 60 * 60;
      var nUpdateInterval := if fCurrentlyOnline then 60 * 60 else 24 * 60 * 60;
      if address.time != 0 && (r.address.time == 0 || r.address.time < address.time - nUpdateInterval - penalty) {
        r := r.(address := r.address.(time := Max0(address.time - penalty)));
      }
      r := r.(address := r.address.(services := r.address.services + address.services));
    }

    /** The early returns of `Add_`; the factor doubles with every reference. */
    method StopsAdd(info: Info, address: Address, lucky: bool) returns (stops: bool)
      requires 0 <= info.refCount
      ensures stops == AddStops(info, address, lucky)
    {
      if address.time == 0 || (info.address.time != 0 && address.time <= info.address.time) {
        return true;
      }
      if info.inTried || info.refCount == NEW_BUCKETS_PER_ADDRESS {
        return true;
      }
      var nFactor := 1;
      for n := 0 to info.refCount
        invariant nFactor >= 1 && (nFactor > 1 <==> n > 0)
      {
        nFactor := nFactor * 2;
      }
      stops := nFactor > 1 && !lucky;
    }

    /** The end of `Add_`. */
    method FileEntry(id: int, source: NetAddr, now: int)
      requires Inv(Value(), Where(), {id}, 1) && id in mapInfo && mapInfo[id].refCount < NEW_BUCKETS_PER_ADDRESS
      modifies this`mapInfo, this`mapAddr, this`vRandom, this`nNew, this`vvNew
      ensures Value() == File(old(Value()), old(Where()), source, id, now)
    {
      hide Inv;
      var nUBucket := Where().NewBucket(mapInfo[id].Ip(), source);
      var nUBucketPos := Where().Position(true, nUBucket, mapInfo[id].Service());
      SlotFacts(Value(), Where(), nUBucket, nUBucketPos, id);
      if vvNew[nUBucket][nUBucketPos] != id {
        var fInsert := vvNew[nUBucket][nUBucketPos] == -1;
        if !fInsert {
          var existing := mapInfo[vvNew[nUBucket][nUBucketPos]];
          if existing.IsTerrible(now) || (existing.refCount > 1 && mapInfo[id].refCount == 0) {
            fInsert := true;
          }
        }
        if fInsert {
          ClearNew(nUBucket, nUBucketPos);
          mapInfo := mapInfo[id := mapInfo[id].(refCount := mapInfo[id].refCount + 1)];
          vvNew := Put(vvNew, nUBucket, nUBucketPos, id);
        } else if mapInfo[id].refCount == 0 {
          Delete(id);
        }
      }
    }

    method Attempt_(service: Service, fCountFailure: bool, time: int)
      requires Valid() && time > 0
      modifies this`mapInfo
      ensures Valid()
      ensures Value() == Attempted(old(Value()), service, fCountFailure, time, nLastGood)
    {
      hide Inv;
      var found, id := FindExact(service);
      if found {
        SettledTimes(Value(), Where(), id);
        var info := mapInfo[id].(lastTry := time);
        if fCountFailure && info.lastCountAttempt < nLastGood {
          info := info.(lastCountAttempt := time, attempts := info.attempts + 1);
        }
        UpdateKeeps(Value(), Where(), {}, 0, id, info);
        mapInfo := mapInfo[id := info];
      }
    }

    method Connected_(service: Service, time: int)
      requires Valid() && time > 0
      modifies this`mapInfo
      ensures Valid()
      ensures Value() == Connected(old(Value()), service, time)
    {
      hide Inv;
      var found, id := FindExact(service);
      if found {
        SettledTimes(Value(), Where(), id);
        var nUpdateInterval := 20 * 60;
        if time - mapInfo[id].address.time > nUpdateInterval {
          var info := mapInfo[id].(address := mapInfo[id].address.(time := time));
          UpdateKeeps(Value(), Where(), {}, 0, id, info);
          mapInfo := mapInfo[id := info];
        }
      }
    }

    method SetServices_(service: Service, services: set<nat>)
      requires Valid()
      modifies this`mapInfo
      ensures Valid()
      ensures Value() == WithServices(old(Value()), service, services)
    {
      hide Inv;
      var found, id := FindExact(service);
      if found {
        SettledTimes(Value(), Where(), id);
        var info := mapInfo[id].(address := mapInfo[id].address.(services := services));
        UpdateKeeps(Value(), Where(), {}, 0, id, info);
        mapInfo := mapInfo[id := info];
      }
    }

    /** A random sample of the records that are not terrible: each at most once, at most 23 percent of all and at most
        2500, and all of them if they are fewer than that. Only the random order changes. */
    method GetAddr_(now: int) returns (vAddr: seq<Address>, ghost ids: seq<int>)
      requires Valid()
      modifies this`mapInfo, this`vRandom
      ensures Valid() && SameButPos(old(mapInfo), mapInfo)
      ensures |vAddr| <= GETADDR_MAX && |vAddr| * 100 <= GETADDR_MAX_PCT * |vRandom|
      ensures |ids| == |vAddr| && forall i, j | 0 <= i < j < |ids| :: ids[i] != ids[j]
      ensures forall i | 0 <= i < |ids| ::
                ids[i] in mapInfo && mapInfo[ids[i]].address == vAddr[i] && !mapInfo[ids[i]].IsTerrible(now)
      ensures
        || |vAddr| == GETADDR_MAX
        || (|vAddr| + 1) * 100 > GETADDR_MAX_PCT * |vRandom|
        || forall id | id in mapInfo :: id in ids || mapInfo[id].IsTerrible(now)
    {
      hide Inv, Sampled, Skipped;
      var nNodes := GETADDR_MAX_PCT * |vRandom| / 100;
      if nNodes > GETADDR_MAX {
        nNodes := GETADDR_MAX;
      }
      vAddr, ids := [], [];
      var n := 0;
      SameRefl(mapInfo);
      NothingSampled(mapInfo, vRandom, now);
      NothingSkipped(mapInfo, vRandom, now);
      while n < |vRandom| && |vAddr| < nNodes
        invariant Valid() && SameButPos(old(mapInfo), mapInfo)
        invariant 0 <= n <= |vRandom| == |old(vRandom)|
        invariant |vAddr| <= nNodes && |ids| == |vAddr| <= n
        invariant Sampled(mapInfo, vRandom, n, ids, vAddr, now)
        invariant Skipped(mapInfo, vRandom, n, ids, now)
      {
        var nRndPos: nat :| n <= nRndPos < |vRandom|;
        SwapKeeps(Value(), Where(), {}, 0, n, nRndPos);
        ghost var before, order := mapInfo, vRandom;
        SwapRandom(n, nRndPos);
        assert vRandom[..n] == order[..n];
        SampledSwap(before, order, mapInfo, vRandom, n, nRndPos, ids, vAddr, now);
        SkippedSwap(before, order, mapInfo, vRandom, n, ids, now);
        SameTrans(old(mapInfo), before, mapInfo);
        EntryAt(Value(), Where(), n);
        var ai := mapInfo[vRandom[n]];
        SampledNext(mapInfo, vRandom, n, ids, vAddr, now, !ai.IsTerrible(now));
        SkippedNext(mapInfo, vRandom, n, ids, now);
        if !ai.IsTerrible(now) {
          vAddr := vAddr + [ai.address];
          ids := ids + [vRandom[n]];
        }
        n := n + 1;
      }
      SampledMeans(mapInfo, vRandom, n, ids, vAddr, now);
      if n == |vRandom| {
        SkippedAll(Value(), Where(), ids, now);
      }
    }

    /** Zero exactly when the tables are as the check wants them and the key is set; on a consistent manager the check
        changes nothing and only a null key can fail it. */
    method Check_() returns (err: int)
      requires HasShape(vvTried, TRIED_BUCKET_COUNT) && HasShape(vvNew, NEW_BUCKET_COUNT) && -1 !in mapInfo
      modifies this`mapAddr
      ensures err == 0 <==> nKey != 0 && Checked(old(Value()), old(Where()))
      ensures err == -16 <==> nKey == 0 && Checked(old(Value()), old(Where()))
      ensures old(Valid()) ==> Value() == old(Value()) && err == if nKey == 0 then -16 else 0
    {
      hide TriedOk, NewOk, Inv;
      InvIsChecked(Value(), Where());
      if Booked(Value()) {
        BookedIds(Value());
      }
      if |vRandom| != nTried + nNew {
        return -7;
      }
      var setTried, mapNew;
      ghost var addrs := mapAddr;
      err, mapAddr, setTried, mapNew := CheckInfos(mapInfo, mapAddr, vRandom);
      if err != 0 {
        return;
      }
      if |setTried| != nTried {
        return -9;
      }
      if |mapNew| != nNew {
        return -10;
      }
      Collection(Value(), addrs, mapNew);
      err, setTried := CheckTried(Where(), mapInfo, vvTried, setTried);
      if err != 0 {
        return;
      }
      err, mapNew := CheckNew(Where(), mapInfo, vvNew, mapNew);
      if err != 0 {
        return;
      }
      if |setTried| != 0 {
        return -13;
      }
      if |mapNew| != 0 {
        return -15;
      }
      if nKey == 0 {
        return -16;
      }
    }

    method Serialize() returns (s: Stream)
      requires Valid()
      ensures s == Encode(Value(), nKey)
    {
      hide Inv, Records, Picked, Buckets;
      Shapes(Value(), Where(), {}, 0);
      PickedCount(Value(), Where(), false);
      PickedCount(Value(), Where(), true);
      s := Header(nKey, nNew, nTried);
      var records, mapUnkIds := WriteRecords(mapInfo, false, nIdCount, nNew);
      s := s + records;
      var triedRecords, _ := WriteRecords(mapInfo, true, nIdCount, nTried);
      s := s + triedRecords;
      SlotsAreListed(Value(), Where());
      var buckets := WriteBuckets(vvNew, mapUnkIds, Picked(mapInfo, false, 0, nIdCount));
      s := s + buckets;
    }

    /** Reading into a manager without records. */
    method Unserialize(s: Stream) returns (ok: bool)
      requires mapInfo == map[] && mapAddr == map[]
      modifies this
      ensures ok <==> Decode(hashes, s).Loaded?
      ensures ok ==> Value() == Decode(hashes, s).t && nKey == Decode(hashes, s).key
    {
      hide Decode;
      var r := AddrCodec.Unserialize(hashes, s);
      if !r.Loaded? {
        return false;
      }
      nKey, nIdCount, mapInfo, mapAddr := r.key, r.t.idCount, r.t.infos, r.t.addrs;
      vRandom, nTried, vvTried, nNew, vvNew := r.t.random, r.t.nTried, r.t.tried, r.t.nNew, r.t.news;
      nLastGood := 1;
      ok := true;
    }

    method Step(op: Op)
      requires Valid() && op.Timely()
      modifies this
      ensures Valid() && nKey == old(nKey)
    {
      match op {
        case AddOne(address, source, timePenalty, now, lucky) =>
          var _ := Add_(address, source, timePenalty, now, lucky);
        case MarkGood(service, time) =>
          Good_(service, time);
        case MarkAttempt(service, countFailure, time) =>
          Attempt_(service, countFailure, time);
        case MarkConnected(service, time) =>
          Connected_(service, time);
        case UpdateServices(service, services) =>
          SetServices_(service, services);
        case Sample(now) =>
          var _, _ := GetAddr_(now);
      }
    }
  }

  /** A call into the address manager, with the clock and the random draws as arguments. */
  datatype Op =
    | AddOne(address: Address, source: NetAddr, timePenalty: int, now: int, lucky: bool)
    | MarkGood(service: Service, time: int)
    | MarkAttempt(service: Service, countFailure: bool, time: int)
    | MarkConnected(service: Service, time: int)
    | UpdateServices(service: Service, services: set<nat>)
    | Sample(now: int)
  {
    predicate Timely() {
      (MarkGood? || MarkAttempt? || MarkConnected?) ==> time > 0
    }
  }

  /** A saved manager, loaded into a fresh one, has the same tables up to the renaming of ids. */
  method SaveAndLoad(manager: AddrMan, key: nat) returns (loaded: AddrMan)
    requires manager.Valid()
    ensures loaded.Valid() && loaded.nKey == manager.nKey && loaded.hashes == manager.hashes
    ensures Same(manager.Value(), loaded.Value(), Order(manager.Value()))
  {
    hide Inv, Encode, Decode, Same, Order;
    var s := manager.Serialize();
    loaded := new AddrMan(manager.hashes, manager.routable, key);
    var ok := loaded.Unserialize(s);
    RoundTrip(manager.Value(), manager.hashes, manager.nKey);
  }

  /** Any run from construction ends in a manager that passes the check. */
  method Run(hashes: Hashes, routable: NetAddr -> bool, key: nat, ops: seq<Op>) returns (manager: AddrMan, err: int)
    requires key != 0 && forall op | op in ops :: op.Timely()
    ensures manager.Valid() && manager.nKey == key && err == 0
  {
    manager := new AddrMan(hashes, routable, key);
    for i := 0 to |ops|
      invariant manager.Valid() && manager.nKey == key && fresh(manager)
    {
      manager.Step(ops[i]);
    }
    Shapes(manager.Value(), manager.Where(), {}, 0);
    InvIsChecked(manager.Value(), manager.Where());
    BookedIds(manager.Value());
    err := manager.Check_();
  }
}
