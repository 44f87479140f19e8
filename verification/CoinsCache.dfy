/**
 The stack of UTXO caches: `CCoinsViewCache` objects on top of the database view, with DIRTY and FRESH entries.
 What a stack shows is one plain map (`Lookup`); every method says how that map changes.
 */
module CoinsCache {
  import opened Basics
  import opened Coins

  /** `CCoinsCacheEntry` with its two flag bits. */
  datatype CacheEntry = CacheEntry(coins: Coins, isDirty: bool, isFresh: bool)

  type CoinsMap = map<Hash256, CacheEntry>

  /** The plain map that a stack of caches stands for: unspent entries only. */
  type PlainMap = map<Hash256, Coins>

  /** How a batch write ends: normally, or with the "FRESH flag misapplied" logic error. */
  datatype WriteStatus = Written | FreshMisapplied

  // ---------- Merging one child entry into its parent ----------

  /** The parent's entry for a txid after a batch write of the child's entry; `None` for no entry. */
  function Merged(parent: Option<CacheEntry>, child: CacheEntry): Option<CacheEntry> {
    if !child.isDirty then
      parent
    else if parent.None? then
      if child.isFresh && child.coins.IsPruned() then None else Some(child)
    else if parent.value.isFresh && child.coins.IsPruned() then
      None
    else
      Some(CacheEntry(child.coins, true, parent.value.isFresh))
  }

  /** The write of this entry throws. */
  predicate Misapplied(parent: Option<CacheEntry>, child: CacheEntry) {
    child.isDirty && child.isFresh && parent.Some? && !parent.value.coins.IsPruned()
  }

  /** Merging tidy entries gives a tidy one. */
  lemma MergedIsTidy(parent: Option<CacheEntry>, child: CacheEntry)
    requires (parent.Some? ==> parent.value.coins.IsTidy()) && child.coins.IsTidy()
    ensures Merged(parent, child).Some? ==> Merged(parent, child).value.coins.IsTidy()
  {
  }

  /** The meaning of the two flags, given what the view below shows for the txid. */
  ghost predicate EntryOk(e: CacheEntry, below: Option<Coins>) {
    && (!e.isDirty ==> Seen(e.coins) == below)
    && (e.isFresh ==> below.None?)
  }

  /** What a level shows for a txid: its own entry, or what is below. */
  ghost function Shown(e: Option<CacheEntry>, below: Option<Coins>): Option<Coins> {
    if e.Some? then Seen(e.value.coins) else below
  }

  /** Merging two entries that are right about the levels below them gives an entry that is right about the level
      below and shows what the child showed; the write does not throw. */
  lemma MergedIsRight(parent: Option<CacheEntry>, child: CacheEntry, below: Option<Coins>)
    requires parent.Some? ==> EntryOk(parent.value, below)
    requires EntryOk(child, Shown(parent, below))
    ensures !Misapplied(parent, child)
    ensures Merged(parent, child).Some? ==> EntryOk(Merged(parent, child).value, below)
    ensures Shown(Merged(parent, child), below) == Seen(child.coins)
  {
  }

  function Get(m: CoinsMap, t: Hash256): Option<CacheEntry> {
    if t in m then Some(m[t]) else None
  }

  function AfterWrite(m: CoinsMap, child: CoinsMap, t: Hash256): Option<CacheEntry> {
    if t in child then Merged(Get(m, t), child[t]) else Get(m, t)
  }

  // ---------- The database at the bottom ----------

  class CoinsViewDB {
    var coins: map<Hash256, Coins>
    var best: Hash256

    constructor (coins: map<Hash256, Coins>, best: Hash256)
      ensures this.coins == coins && this.best == best
    {
      this.coins, this.best := coins, best;
    }

    ghost function Lookup(t: Hash256): Option<Coins>
      reads this
    {
      if t in coins then Seen(coins[t]) else None
    }

    /** No stored record is fully spent. */
    ghost predicate Clean()
      reads this
    {
      forall t | t in coins :: !coins[t].IsPruned()
    }

    /** Writes or erases the dirty entries; a null best block is not stored. */
    method BatchWrite(child: CoinsMap, hashBlock: Hash256)
      modifies this
      ensures forall t :: Lookup(t) == if t in child && child[t].isDirty then Seen(child[t].coins) else old(Lookup(t))
      ensures old(Clean()) ==> Clean()
      ensures best == if hashBlock != 0 then hashBlock else old(best)
    {
      hide Coins.IsPruned;
      var rest := child;
      while rest != map[]
        invariant forall t | t in rest :: t in child && rest[t] == child[t]
        invariant forall t :: Lookup(t) == if t in child && t !in rest && child[t].isDirty then Seen(child[t].coins)
                  else old(Lookup(t))
        invariant old(Clean()) ==> Clean()
        invariant best == old(best)
        decreases |rest|
      {
        var t :| t in rest;
        if rest[t].isDirty {
          if rest[t].coins.IsPruned() {
            coins := coins - {t};
          } else {
            coins := coins[t := rest[t].coins];
          }
        }
        rest := rest - {t};
      }
      if hashBlock != 0 {
        best := hashBlock;
      }
    }
  }

  // ---------- A cache level ----------

  /** What a cache is backed by. */
  datatype View = Disk(db: CoinsViewDB) | Cache(cache: CoinsViewCache)

  class CoinsViewCache {
    const base: View
    var cacheCoins: CoinsMap
    var hashBlock: Hash256
    var hasModifier: bool

    /** The txid being edited while `hasModifier`. */
    ghost var editing: Hash256
    /** All objects of the stack from this level down. */
    ghost const Repr: set<object>

    /** The levels below are distinct objects down to a database. */
    ghost predicate Shape()
      decreases Repr
    {
      && this in Repr
      && match base
         case Disk(d) => Repr == {this, d}
         case Cache(c) => this !in c.Repr && Repr == c.Repr + {this} && c.Repr < Repr && c.Shape()
    }

    /** What the level below shows. */
    ghost function Below(t: Hash256): Option<Coins>
      requires Shape()
      reads Repr
      decreases Repr, 0
    {
      match base
      case Disk(d) => d.Lookup(t)
      case Cache(c) => c.Lookup(t)
    }

    /** What this view shows: the coins of a txid, absent when there are none or they are all spent. */
    ghost function Lookup(t: Hash256): Option<Coins>
      requires Shape()
      reads Repr
      decreases Repr, 1
    {
      Shown(Get(cacheCoins, t), Below(t))
    }

    /** The nearest entry, pruned or not: what a lookup reaches. */
    ghost function Raw(t: Hash256): Option<Coins>
      requires Shape()
      reads Repr
      decreases Repr, 1
    {
      if t in cacheCoins then Some(cacheCoins[t].coins) else RawBelow(t)
    }

    ghost function RawBelow(t: Hash256): Option<Coins>
      requires Shape()
      reads Repr
      decreases Repr, 0
    {
      match base
      case Disk(d) => if t in d.coins then Some(d.coins[t]) else None
      case Cache(c) => c.Raw(t)
    }

    /** Every entry of every level is right about the view below it. */
    ghost predicate Valid()
      reads Repr
      decreases Repr
    {
      && Shape()
      && (forall t | t in cacheCoins :: EntryOk(cacheCoins[t], Below(t)))
      && (hasModifier ==> editing in cacheCoins && cacheCoins[editing].isDirty)
      && (base.Cache? ==> base.cache.Valid())
    }

    /** No level lists coins that are all spent, and the database has no spent record. */
    ghost predicate Tidy()
      requires Shape()
      reads Repr
      decreases Repr, 1
    {
      TidyBelow() && forall t | t in cacheCoins :: cacheCoins[t].coins.IsTidy()
    }

    ghost predicate TidyBelow()
      requires Shape()
      reads Repr
      decreases Repr, 0
    {
      match base
      case Disk(d) => d.Clean()
      case Cache(c) => c.Tidy()
    }

    /** The same but for one entry of this level. */
    ghost predicate TidyBut(t: Hash256)
      requires Shape()
      reads Repr
    {
      TidyBelow() && forall x | x in cacheCoins && x != t :: cacheCoins[x].coins.IsTidy()
    }

    /** In a tidy stack, a lookup never reaches coins that are listed and all spent. */
    lemma RawIsTidy(t: Hash256)
      requires Shape() && TidyBelow()
      ensures RawBelow(t).Some? ==> RawBelow(t).value.IsTidy()
      decreases Repr
    {
      if base.Cache? {
        base.cache.RawIsTidy(t);
      }
    }

    /** No level has an open modifier. */
    ghost predicate Quiet()
      requires Shape()
      reads Repr
      decreases Repr
    {
      && !hasModifier
      && (base.Cache? ==> base.cache.Quiet())
    }

    /** The view shows exactly the plain map `m`. */
    ghost predicate Shows(m: PlainMap)
      requires Shape()
      reads Repr
    {
      forall t :: Lookup(t) == if t in m then Some(m[t]) else None
    }

    ghost function Database(): (d: CoinsViewDB)
      requires Shape()
      ensures d in Repr
      decreases Repr
    {
      match base
      case Disk(d) => d
      case Cache(c) => c.Database()
    }

    /** The best block that `GetBestBlock` reports: the nearest non-null one. */
    ghost function BestBlock(): Hash256
      requires Shape()
      reads Repr
      decreases Repr, 1
    {
      if hashBlock != 0 then hashBlock else BestBelow()
    }

    ghost function BestBelow(): Hash256
      requires Shape()
      reads Repr
      decreases Repr, 0
    {
      match base
      case Disk(d) => d.best
      case Cache(c) => c.BestBlock()
    }

    constructor OverDatabase(d: CoinsViewDB)
      ensures Valid() && Quiet() && base == Disk(d) && cacheCoins == map[] && hashBlock == 0
      ensures fresh(Repr - {d})
      ensures (forall t :: Lookup(t) == d.Lookup(t)) && (d.Clean() ==> Tidy())
    {
      base := Disk(d);
      cacheCoins, hashBlock, hasModifier := map[], 0, false;
      Repr := {this, d};
    }

    constructor OverCache(c: CoinsViewCache)
      requires c.Valid()
      ensures Valid() && base == Cache(c) && !hasModifier && cacheCoins == map[] && hashBlock == 0
      ensures fresh(Repr - c.Repr)
      ensures (forall t :: Lookup(t) == c.Lookup(t)) && (c.Tidy() ==> Tidy())
    {
      base := Cache(c);
      cacheCoins, hashBlock, hasModifier := map[], 0, false;
      Repr := c.Repr + {this};
    }

    /** A read may fill caches, at this level and below, but changes nothing that any level shows. Dirty entries and
        open modifiers stay as they are. */
    method FetchCoins(t: Hash256) returns (found: bool, coins: Coins)
      requires Valid()
      modifies Repr
      ensures Valid()
      ensures forall x :: Lookup(x) == old(Lookup(x))
      ensures forall o: CoinsViewCache | o in Repr ::
                o.hasModifier == old(o.hasModifier) && o.hashBlock == old(o.hashBlock) && o.editing == old(o.editing)
      ensures forall o: CoinsViewDB | o in Repr :: o.coins == old(o.coins) && o.best == old(o.best)
      ensures forall x | x in old(cacheCoins) :: x in cacheCoins && cacheCoins[x] == old(cacheCoins[x])
      ensures found ==> Seen(coins) == Lookup(t) && t in cacheCoins && cacheCoins[t].coins == coins
      ensures !found ==> Lookup(t).None? && t !in cacheCoins
      ensures (if found then Some(coins) else None) == old(Raw(t))
      ensures old(Tidy()) ==> Tidy()
      decreases Repr
    {
      hide Coins.IsPruned, Coins.IsTidy;
      if t in cacheCoins {
        return true, cacheCoins[t].coins;
      }
      if Tidy() {
        RawIsTidy(t);
      }
      found, coins := GetFromBase(t);
      if found {
        Remember(t, coins, coins.IsPruned());
      }
    }

    /** The copy that a lookup leaves in this level. */
    method Remember(t: Hash256, coins: Coins, isFresh: bool)
      requires Valid() && t !in cacheCoins && Seen(coins) == Below(t) && (isFresh ==> coins.IsPruned())
      modifies this`cacheCoins
      ensures Valid() && cacheCoins == old(cacheCoins)[t := CacheEntry(coins, false, isFresh)]
      ensures forall x :: Lookup(x) == old(Lookup(x))
      ensures old(Tidy()) && coins.IsTidy() ==> Tidy()
    {
      hide Coins.IsPruned, Coins.IsTidy;
      cacheCoins := cacheCoins[t := CacheEntry(coins, false, isFresh)];
      assert forall x :: Below(x) == old(Below(x));
      assert TidyBelow() == old(TidyBelow());
    }

    /** `base->GetCoins`. */
    method GetFromBase(t: Hash256) returns (found: bool, coins: Coins)
      requires Valid()
      modifies Repr - {this}
      ensures Valid()
      ensures forall x :: Below(x) == old(Below(x))
      ensures forall o: CoinsViewCache | o in Repr ::
                o.hasModifier == old(o.hasModifier) && o.hashBlock == old(o.hashBlock) && o.editing == old(o.editing)
      ensures forall o: CoinsViewDB | o in Repr :: o.coins == old(o.coins) && o.best == old(o.best)
      ensures found ==> Seen(coins) == Below(t)
      ensures !found ==> Below(t).None? && coins == EMPTY_COINS
      ensures (if found then Some(coins) else None) == old(RawBelow(t))
      ensures old(TidyBelow()) ==> TidyBelow()
      decreases Repr, 0
    {
      found, coins := false, EMPTY_COINS;
      match base {
        case Disk(d) =>
          if t in d.coins {
            found, coins := true, d.coins[t];
          }
        case Cache(c) =>
          var inBase, baseCoins := c.FetchCoins(t);
          if inBase {
            found, coins := true, baseCoins;
          }
      }
    }

    method GetCoins(t: Hash256) returns (found: bool, coins: Coins)
      requires Valid()
      modifies Repr
      ensures Valid() && (old(Quiet()) ==> Quiet()) && (old(Tidy()) ==> Tidy())
      ensures forall x :: Lookup(x) == old(Lookup(x))
      ensures forall o: CoinsViewDB | o in Repr :: o.coins == old(o.coins)
      ensures if found then Seen(coins) == Lookup(t) else Lookup(t).None?
    {
      found, coins := FetchCoins(t);
      QuietFrom();
    }

    /** `HaveCoins` tests for an empty output list instead of a pruned one. It never misses coins that are there, and is
        wrong exactly if the nearest entry lists only spent outputs; in a tidy stack it is always right. */
    method HaveCoins(t: Hash256) returns (have: bool)
      requires Valid()
      modifies Repr
      ensures Valid() && (old(Quiet()) ==> Quiet()) && (old(Tidy()) ==> Tidy())
      ensures forall x :: Lookup(x) == old(Lookup(x))
      ensures forall o: CoinsViewDB | o in Repr :: o.coins == old(o.coins)
      ensures hasModifier == old(hasModifier) && editing == old(editing)
      ensures Lookup(t).Some? ==> have
      ensures (have <==> Lookup(t).Some?) <==>
              !(old(Raw(t)).Some? && old(Raw(t)).value.IsPruned() && old(Raw(t)).value.vout != [])
      ensures old(Tidy()) ==> (have <==> Lookup(t).Some?)
    {
      if Tidy() {
        RawIsTidy(t);
      }
      var found, coins := FetchCoins(t);
      have := found && coins.vout != [];
      QuietFrom();
    }

    twostate lemma QuietFrom()
      requires Shape()
      requires forall o: CoinsViewCache | o in Repr :: old(allocated(o)) && o.hasModifier == old(o.hasModifier)
      ensures old(Quiet()) <==> Quiet()
      decreases Repr
    {
      if base.Cache? {
        base.cache.QuietFrom();
      }
    }

    /** The child's entries are right about what this view shows. */
    ghost predicate Fits(child: CoinsMap)
      requires Shape()
      reads Repr
    {
      forall t | t in child :: EntryOk(child[t], Lookup(t))
    }

    /** Takes over a child's entries. It throws exactly when an entry marked FRESH meets unspent coins; entries that
        fit this view never do that, and then this view shows what the child showed. */
    method BatchWrite(child: CoinsMap, hashBlockIn: Hash256) returns (status: WriteStatus)
      requires Valid() && !hasModifier
      modifies this
      ensures status == FreshMisapplied <==>
                exists t :: t in child && Misapplied(Get(old(cacheCoins), t), child[t])
      ensures status == Written ==>
                hashBlock == hashBlockIn && forall t :: Get(cacheCoins, t) == AfterWrite(old(cacheCoins), child, t)
      ensures old(Fits(child)) ==>
                && status == Written
                && Valid()
                && forall t :: Lookup(t) == if t in child then Seen(child[t].coins) else old(Lookup(t))
      ensures status == Written && old(Tidy()) && (forall t | t in child :: child[t].coins.IsTidy()) ==> Tidy()
      ensures !hasModifier
    {
      status := WriteEntries(child);
      if status == Written {
        hashBlock := hashBlockIn;
        if old(Fits(child)) {
          WrittenIsRight(child);
        }
        if old(Tidy()) && (forall t | t in child :: child[t].coins.IsTidy()) {
          WrittenIsTidy(child);
        }
      }
    }

    twostate lemma WrittenIsTidy(child: CoinsMap)
      requires Shape() && old(Tidy()) && forall t | t in child :: child[t].coins.IsTidy()
      requires forall o | o in Repr && o != this :: old(allocated(o)) && unchanged(o)
      requires forall t :: Get(cacheCoins, t) == AfterWrite(old(cacheCoins), child, t)
      ensures Tidy()
    {
      hide Coins.IsTidy, Merged;
      assert TidyBelow() == old(TidyBelow());
      forall t | t in cacheCoins
        ensures cacheCoins[t].coins.IsTidy()
      {
        assert Get(cacheCoins, t) == AfterWrite(old(cacheCoins), child, t);
        if t in child {
          MergedIsTidy(Get(old(cacheCoins), t), child[t]);
        }
      }
    }

    /** The loop of `BatchWrite`, over the child's entries in any order. */
    method WriteEntries(child: CoinsMap) returns (status: WriteStatus)
      modifies this`cacheCoins
      ensures status == FreshMisapplied <==>
                exists t :: t in child && Misapplied(Get(old(cacheCoins), t), child[t])
      ensures status == Written ==>
                forall t :: Get(cacheCoins, t) == AfterWrite(old(cacheCoins), child, t)
    {
      hide Coins.IsPruned, Merged, Misapplied;
      var rest := child;
      while rest != map[]
        invariant forall t | t in rest :: t in child && rest[t] == child[t]
        invariant forall t :: Get(cacheCoins, t) == if t in rest then Get(old(cacheCoins), t)
                  else AfterWrite(old(cacheCoins), child, t)
        invariant forall t | t in child && t !in rest :: !Misapplied(Get(old(cacheCoins), t), child[t])
        decreases |rest|
      {
        var t :| t in rest;
        var ok := WriteEntry(t, rest[t]);
        if !ok {
          return FreshMisapplied;
        }
        rest := rest - {t};
      }
      return Written;
    }

    /** One entry of the child. */
    method WriteEntry(t: Hash256, entry: CacheEntry) returns (ok: bool)
      modifies this`cacheCoins
      ensures ok == !Misapplied(Get(old(cacheCoins), t), entry)
      ensures ok ==> forall x :: Get(cacheCoins, x) == if x == t then Merged(Get(old(cacheCoins), t), entry)
              else Get(old(cacheCoins), x)
      ensures !ok ==> cacheCoins == old(cacheCoins)
    {
      hide Coins.IsPruned;
      if entry.isDirty {
        if t !in cacheCoins {
          if !(entry.isFresh && entry.coins.IsPruned()) {
            cacheCoins := cacheCoins[t := CacheEntry(entry.coins, true, entry.isFresh)];
          }
        } else {
          var us := cacheCoins[t];
          if entry.isFresh && !us.coins.IsPruned() {
            return false;
          }
          if us.isFresh && entry.coins.IsPruned() {
            cacheCoins := cacheCoins - {t};
          } else {
            cacheCoins := cacheCoins[t := us.(coins := entry.coins, isDirty := true)];
          }
        }
      }
      ok := true;
    }

    twostate lemma WrittenIsRight(child: CoinsMap)
      requires old(Valid()) && old(Fits(child)) && !hasModifier
      requires forall o | o in Repr && o != this :: old(allocated(o)) && unchanged(o)
      requires forall t :: Get(cacheCoins, t) == AfterWrite(old(cacheCoins), child, t)
      ensures Valid()
      ensures forall t :: Lookup(t) == if t in child then Seen(child[t].coins) else old(Lookup(t))
    {
      forall t
        ensures t in cacheCoins ==> EntryOk(cacheCoins[t], Below(t))
        ensures Lookup(t) == if t in child then Seen(child[t].coins) else old(Lookup(t))
      {
        assert Below(t) == old(Below(t));
        assert Get(cacheCoins, t) == AfterWrite(old(cacheCoins), child, t);
        if t in child {
          MergedIsRight(Get(old(cacheCoins), t), child[t], Below(t));
        }
      }
    }

    /** Pushing the changes down and clearing this level changes nothing that this view shows, and the level below
        then shows the same; the FRESH error cannot happen. The best block goes down too, even when it was never set
        here: a null one wipes that of the cache below, so the reported best block survives exactly under the last
        condition. */
    method Flush() returns (ok: bool)
      requires Valid() && Quiet()
      modifies Repr
      ensures ok && Valid() && Quiet()
      ensures cacheCoins == map[] && hashBlock == old(hashBlock)
      ensures forall t :: Lookup(t) == old(Lookup(t)) && Below(t) == old(Lookup(t))
      ensures old(Database().Clean()) ==> Database().Clean()
      ensures old(Tidy()) ==> Tidy()
      ensures BestBlock() == old(BestBlock()) <==>
                || old(hashBlock) != 0
                || base.Disk?
                || old(base.cache.BestBlock()) == old(base.cache.BestBelow())
      ensures base.Cache? && old(hashBlock) == 0 ==> BestBlock() == old(base.cache.BestBelow())
    {
      hide Coins.IsPruned, Coins.IsTidy;
      match base {
        case Disk(d) =>
          d.BatchWrite(cacheCoins, hashBlock);
          assert old(TidyBelow()) ==> TidyBelow();
        case Cache(c) =>
          var status := c.BatchWrite(cacheCoins, hashBlock);
          assert status == Written;
          assert old(TidyBelow()) && old(Tidy()) ==> TidyBelow();
      }
      label written:
      cacheCoins := map[];
      assert TidyBelow() == old@written(TidyBelow());
      ok := true;
      if base.Cache? {
        assert base.cache.BestBlock() == if hashBlock != 0 then hashBlock else base.cache.BestBelow();
        assert base.cache.BestBelow() == old(base.cache.BestBelow());
        assert old(BestBelow()) == old(base.cache.BestBlock());
      }
    }

    method Uncache(t: Hash256)
      requires Valid()
      modifies this
      ensures Valid() && hasModifier == old(hasModifier) && (old(Tidy()) ==> Tidy())
      ensures forall x :: Lookup(x) == old(Lookup(x))
      ensures t !in cacheCoins || cacheCoins[t].isDirty || cacheCoins[t].isFresh
    {
      if t in cacheCoins && !cacheCoins[t].isDirty && !cacheCoins[t].isFresh {
        cacheCoins := cacheCoins - {t};
      }
      assert TidyBelow() == old(TidyBelow());
    }

    /** Opens an edit of `t`. The editor sees what the view shows; nothing changes yet. */
    method ModifyCoins(t: Hash256) returns (modifier: CoinsModifier)
      requires Valid() && !hasModifier
      modifies Repr
      ensures Valid() && fresh(modifier) && modifier.cache == this && modifier.txid == t && modifier.Open()
      ensures forall x :: Lookup(x) == old(Lookup(x))
      ensures Seen(cacheCoins[t].coins) == Lookup(t)
      ensures old(Tidy()) ==> Tidy()
      ensures base.Cache? && old(base.cache.Quiet()) ==> base.cache.Quiet()
      ensures forall o: CoinsViewDB | o in Repr :: o.coins == old(o.coins)
    {
      hide Coins.IsPruned, Coins.IsTidy;
      EnsureEntry(t);
      label entered:
      cacheCoins := cacheCoins[t := cacheCoins[t].(isDirty := true)];
      modifier := new CoinsModifier(this, t);
      assert forall x :: Below(x) == old@entered(Below(x));
      assert forall x :: Lookup(x) == old@entered(Lookup(x));
      assert TidyBelow() == old@entered(TidyBelow());
    }

    /** The first part of `ModifyCoins`: an entry for `t`, fresh if there are no coins below. */
    method EnsureEntry(t: Hash256)
      requires Valid() && !hasModifier
      modifies Repr
      ensures Valid() && !hasModifier && t in cacheCoins && (old(Tidy()) ==> Tidy())
      ensures forall x :: Lookup(x) == old(Lookup(x))
      ensures base.Cache? && old(base.cache.Quiet()) ==> base.cache.Quiet()
      ensures forall o: CoinsViewDB | o in Repr :: o.coins == old(o.coins)
    {
      hide Coins.IsPruned, Coins.IsTidy;
      EmptyIsPruned();
      if t !in cacheCoins {
        if Tidy() {
          RawIsTidy(t);
        }
        var found, coins := GetFromBase(t);
        if base.Cache? {
          base.cache.QuietFrom();
        }
        Remember(t, coins, !found || coins.IsPruned());
      }
    }

    /** Opens an edit of new coins, starting from nothing. For a non-coinbase it throws (`null`) on cached unspent
        coins, and otherwise marks the entry FRESH unless it is already DIRTY. That is right exactly when the view
        shows no coins for the txid, the assumption of BIP 30. */
    method ModifyNewCoins(t: Hash256, coinbase: bool) returns (modifier: CoinsModifier?)
      requires Valid() && !hasModifier
      modifies this
      ensures modifier == null <==> !coinbase && t in old(cacheCoins) && !old(cacheCoins[t].coins.IsPruned())
      ensures modifier == null ==> unchanged(this)
      ensures modifier != null ==>
                && fresh(modifier) && modifier.cache == this && modifier.txid == t
                && (Valid() <==> coinbase || old(Lookup(t)).None?)
                && (Valid() ==> modifier.Open())
                && Lookup(t).None? && t in cacheCoins && cacheCoins[t].coins == EMPTY_COINS
                && forall x | x != t :: Lookup(x) == old(Lookup(x))
      ensures modifier != null && old(Tidy()) ==> Tidy()
      ensures hashBlock == old(hashBlock)
    {
      hide Coins.IsPruned, Coins.IsTidy;
      EmptyIsPruned();
      var entry := if t in cacheCoins then cacheCoins[t] else CacheEntry(EMPTY_COINS, false, false);
      if !coinbase {
        if !entry.coins.IsPruned() {
          return null;
        }
        if !entry.isDirty {
          entry := entry.(isFresh := true);
        }
      }
      cacheCoins := cacheCoins[t := entry.(coins := EMPTY_COINS, isDirty := true)];
      assert forall x :: Below(x) == old(Below(x));
      modifier := new CoinsModifier(this, t);
      assert TidyBelow() == old(TidyBelow());
    }

    /** Reports the nearest non-null best block below and remembers it on the way. */
    method GetBestBlock() returns (h: Hash256)
      requires Valid()
      modifies Repr
      ensures Valid() && h == old(BestBlock()) == BestBlock() && (h != 0 ==> hashBlock == h)
      ensures (old(Quiet()) ==> Quiet()) && (old(Tidy()) ==> Tidy())
      ensures forall x :: Lookup(x) == old(Lookup(x))
      ensures forall o: CoinsViewDB | o in Repr :: o.coins == old(o.coins) && o.best == old(o.best)
      ensures cacheCoins == old(cacheCoins)
      decreases Repr
    {
      if hashBlock == 0 {
        match base {
          case Disk(d) =>
            hashBlock := d.best;
            assert TidyBelow() == old(TidyBelow());
          case Cache(c) =>
            var below := c.GetBestBlock();
            assert forall x :: Below(x) == old(Below(x));
            assert old(TidyBelow()) ==> TidyBelow();
            ghost var tidy := TidyBelow();
            hashBlock := below;
            assert TidyBelow() == tidy;
        }
      }
      h := hashBlock;
    }

    method SetBestBlock(h: Hash256)
      requires Valid()
      modifies this`hashBlock
      ensures Valid() && hashBlock == h && hasModifier == old(hasModifier) && (old(Tidy()) ==> Tidy())
      ensures forall x :: Lookup(x) == old(Lookup(x))
    {
      hashBlock := h;
      assert TidyBelow() == old(TidyBelow());
    }

    /** Flushes the level `depth` steps down; no view in the stack changes. */
    method FlushAt(depth: nat)
      requires Valid() && Quiet()
      modifies Repr
      ensures Valid() && Quiet() && (old(Tidy()) ==> Tidy())
      ensures forall t :: Lookup(t) == old(Lookup(t))
      ensures old(Database().Clean()) ==> Database().Clean()
      decreases Repr
    {
      if depth == 0 || base.Disk? {
        var _ := Flush();
      } else {
        base.cache.FlushAt(depth - 1);
        assert forall t :: Below(t) == old(Below(t));
        assert old(TidyBelow()) ==> TidyBelow();
      }
    }

    /** Evicts a clean entry from the level `depth` steps down; no view in the stack changes. */
    method UncacheAt(depth: nat, t: Hash256)
      requires Valid() && Quiet()
      modifies Repr
      ensures Valid() && Quiet() && (old(Tidy()) ==> Tidy())
      ensures forall x :: Lookup(x) == old(Lookup(x))
      ensures forall o: CoinsViewDB | o in Repr :: o.coins == old(o.coins)
      decreases Repr
    {
      if depth == 0 || base.Disk? {
        Uncache(t);
      } else {
        base.cache.UncacheAt(depth - 1, t);
        assert forall x :: Below(x) == old(Below(x));
        assert old(TidyBelow()) ==> TidyBelow();
      }
    }

    /** Flushing every level, top first, leaves in the database exactly what the view shows. */
    method Sync()
      requires Valid() && Quiet()
      modifies Repr
      ensures Valid() && Quiet() && (old(Tidy()) ==> Tidy())
      ensures forall t :: Lookup(t) == old(Lookup(t)) && Database().Lookup(t) == old(Lookup(t))
      ensures old(Database().Clean()) ==> Database().Clean()
      decreases Repr
    {
      var _ := Flush();
      if base.Cache? {
        base.cache.Sync();
        assert forall t :: Below(t) == old(Lookup(t));
      }
    }
  }

  /** `CCoinsModifier`: a reference to one cache entry while it is edited. */
  class CoinsModifier {
    const cache: CoinsViewCache
    const txid: Hash256

    ghost predicate Open()
      reads cache
    {
      cache.hasModifier && cache.editing == txid && txid in cache.cacheCoins && cache.cacheCoins[txid].isDirty
    }

    constructor (cache: CoinsViewCache, txid: Hash256)
      requires !cache.hasModifier
      modifies cache`hasModifier, cache`editing
      ensures this.cache == cache && this.txid == txid && cache.hasModifier && cache.editing == txid
    {
      this.cache, this.txid := cache, txid;
      new;
      cache.hasModifier := true;
      cache.editing := txid;
    }

    /** Any edit through the reference shows at once. */
    method Write(coins: Coins)
      requires Open() && cache.Valid()
      modifies cache`cacheCoins
      ensures Open() && cache.Valid() && cache.cacheCoins[txid].coins == coins
      ensures forall x :: cache.Lookup(x) == if x == txid then Seen(coins) else old(cache.Lookup(x))
      ensures old(cache.TidyBut(txid)) ==> cache.TidyBut(txid)
    {
      cache.cacheCoins := cache.cacheCoins[txid := cache.cacheCoins[txid].(coins := coins)];
      assert forall x :: cache.Below(x) == old(cache.Below(x));
      assert cache.TidyBelow() == old(cache.TidyBelow());
    }

    /** The destructor cleans up the coins, and erases the entry if it is FRESH and pruned. */
    method Close()
      requires Open() && cache.Valid()
      modifies cache`cacheCoins, cache`hasModifier
      ensures cache.Valid() && !cache.hasModifier
      ensures forall x :: cache.Lookup(x) ==
                          if x == txid then Seen(Cleaned(old(cache.cacheCoins[txid].coins))) else old(cache.Lookup(x))
      ensures old(cache.TidyBut(txid)) ==> cache.Tidy()
    {
      hide Coins.IsPruned, Coins.IsTidy, Trimmed;
      CleanedIsStable(cache.cacheCoins[txid].coins);
      cache.hasModifier := false;
      var coins := Cleanup(cache.cacheCoins[txid].coins);
      cache.cacheCoins := cache.cacheCoins[txid := cache.cacheCoins[txid].(coins := coins)];
      if cache.cacheCoins[txid].isFresh && coins.IsPruned() {
        cache.cacheCoins := cache.cacheCoins - {txid};
      }
      assert forall x :: cache.Below(x) == old(cache.Below(x));
      assert cache.TidyBelow() == old(cache.TidyBelow());
    }
  }

  // ---------- Runs ----------

  /** One operation of a run on a stack: reads, complete edit sessions on the top view that leave the coins `c`, and
      evictions and flushes at any level. */
  datatype Op =
    | Read(t: Hash256)
    | Have(t: Hash256)
    | Modify(t: Hash256, c: Coins)
    | ModifyNew(t: Hash256, coinbase: bool, c: Coins)
    | Uncache(depth: nat, t: Hash256)
    | Flush(depth: nat)
    | SetBest(h: Hash256)
    | GetBest

  function Put(m: PlainMap, t: Hash256, c: Coins): PlainMap {
    if c.IsPruned() then m - {t} else m[t := Cleaned(c)]
  }

  /** The same operation on one plain map. */
  function Apply(m: PlainMap, op: Op): PlainMap {
    match op
    case Modify(t, c) => Put(m, t, c)
    case ModifyNew(t, _, c) => Put(m, t, c)
    case _ => m
  }

  function ApplyAll(m: PlainMap, ops: seq<Op>): PlainMap
    decreases |ops|
  {
    if ops == [] then m else ApplyAll(Apply(m, ops[0]), ops[1..])
  }

  /** What a query replies. */
  datatype Reply = Nothing | Got(coins: Option<Coins>) | Had(have: bool)

  /** What the plain map says to a query. */
  function Answer(m: PlainMap, op: Op): Reply {
    match op
    case Read(t) => Got(if t in m then Some(m[t]) else None)
    case Have(t) => Had(t in m)
    case _ => Nothing
  }

  function Answers(m: PlainMap, ops: seq<Op>): seq<Reply>
    decreases |ops|
  {
    if ops == [] then [] else [Answer(m, ops[0])] + Answers(Apply(m, ops[0]), ops[1..])
  }

  /** BIP 30: new non-coinbase coins are only created where none exist. */
  predicate Allowed(m: PlainMap, ops: seq<Op>)
    decreases |ops|
  {
    ops == [] || ((ops[0].ModifyNew? && !ops[0].coinbase ==> ops[0].t !in m) && Allowed(Apply(m, ops[0]), ops[1..]))
  }

  /** While an edit is open that has left one spent output, `HaveCoins` says yes where there is nothing to spend. */
  method HaveSpentCoins(t: Hash256) returns (view: CoinsViewCache, have: bool)
    ensures view.Valid() && view.hasModifier && view.editing == t
    ensures view.Lookup(t).None? && have
  {
    var coins := Coins(false, [NULL_TXOUT], 0, 0);
    assert coins.IsPruned();
    var db := new CoinsViewDB(map[], 0);
    view := new CoinsViewCache.OverDatabase(db);
    var modifier := view.ModifyCoins(t);
    modifier.Write(coins);
    assert view.Raw(t) == Some(coins);
    have := view.HaveCoins(t);
  }

  /** A cache with a best block over a database with another one, and a cache over it that never asked for it: flushing
      that cache hides the best block. */
  method FlushHidesBest(stored: Hash256, set_: Hash256)
    returns (top: CoinsViewCache, ghost before: Hash256, after: Hash256)
    requires set_ != 0 && stored != set_
    ensures top.Valid() && before == set_ && after == stored
  {
    var db := new CoinsViewDB(map[], stored);
    var middle := new CoinsViewCache.OverDatabase(db);
    middle.SetBestBlock(set_);
    top := new CoinsViewCache.OverCache(middle);
    assert middle.BestBlock() == set_ && middle.BestBelow() == db.best == stored;
    before := top.BestBelow();
    assert before == top.BestBlock();
    after := FlushAndAsk(top);
  }

  method FlushAndAsk(top: CoinsViewCache) returns (best: Hash256)
    requires top.Valid() && top.Quiet() && top.hashBlock == 0 && top.base.Cache?
    modifies top.Repr
    ensures top.Valid() && best == old(top.base.cache.BestBelow())
  {
    var ok := top.Flush();
    best := top.GetBestBlock();
  }

  /** The rest of an edit session that leaves the coins `c`. */
  method Finish(modifier: CoinsModifier, c: Coins)
    requires modifier.Open() && modifier.cache.Valid()
    modifies modifier.cache`cacheCoins, modifier.cache`hasModifier
    ensures modifier.cache.Valid() && !modifier.cache.hasModifier
    ensures forall x :: modifier.cache.Lookup(x) == if x == modifier.txid then Seen(Cleaned(c))
            else old(modifier.cache.Lookup(x))
    ensures old(modifier.cache.Tidy()) ==> modifier.cache.Tidy()
  {
    hide Coins.IsTidy, Coins.IsPruned;
    modifier.Write(c);
    modifier.Close();
  }

  /** A whole edit session that leaves the coins `c` is a write to the plain map. */
  method EditSession(top: CoinsViewCache, t: Hash256, c: Coins, ghost m: PlainMap)
    requires top.Valid() && top.Quiet() && top.Shows(m)
    modifies top.Repr
    ensures top.Valid() && top.Quiet() && top.Shows(Put(m, t, c))
    ensures top.Database().coins == old(top.Database().coins) && (old(top.Tidy()) ==> top.Tidy())
  {
    hide Trimmed, Coins.IsPruned, Coins.IsTidy;
    var modifier := top.ModifyCoins(t);
    Finish(modifier, c);
    CleanedIsStable(c);
  }

  method EditNewSession(top: CoinsViewCache, t: Hash256, coinbase: bool, c: Coins, ghost m: PlainMap)
    requires top.Valid() && top.Quiet() && top.Shows(m) && (!coinbase ==> t !in m)
    modifies top.Repr
    ensures top.Valid() && top.Quiet() && top.Shows(Put(m, t, c))
    ensures top.Database().coins == old(top.Database().coins) && (old(top.Tidy()) ==> top.Tidy())
  {
    hide Trimmed, Coins.IsPruned, Coins.IsTidy;
    assert top.Lookup(t) == if t in m then Some(m[t]) else None;
    var modifier := top.ModifyNewCoins(t, coinbase);
    Finish(modifier, c);
    CleanedIsStable(c);
  }

  /** One operation keeps a stack equal to a plain map, and in a tidy stack it replies what the plain map says. */
  method Step(top: CoinsViewCache, op: Op, ghost m: PlainMap) returns (reply: Reply)
    requires top.Valid() && top.Quiet() && top.Shows(m) && Allowed(m, [op])
    modifies top.Repr
    ensures top.Valid() && top.Quiet() && top.Shows(Apply(m, op))
    ensures old(top.Database().Clean()) ==> top.Database().Clean()
    ensures old(top.Tidy()) ==> top.Tidy() && reply == Answer(m, op)
  {
    reply := Nothing;
    match op {
      case Read(t) =>
        var found, coins := top.GetCoins(t);
        reply := Got(if found then Seen(coins) else None);
      case Have(t) =>
        var have := top.HaveCoins(t);
        reply := Had(have);
      case Modify(t, c) =>
        EditSession(top, t, c, m);
      case ModifyNew(t, coinbase, c) =>
        EditNewSession(top, t, coinbase, c, m);
      case Uncache(depth, t) =>
        top.UncacheAt(depth, t);
      case Flush(depth) =>
        top.FlushAt(depth);
      case SetBest(h) =>
        top.SetBestBlock(h);
      case GetBest =>
        var _ := top.GetBestBlock();
    }
  }

  /** Every run keeps the stack equal to one plain map with the same edits, and a run on a tidy stack replies to every
      query what that map says. Flushing all levels at the end leaves that very map in the database. */
  method Run(top: CoinsViewCache, ops: seq<Op>, ghost m: PlainMap) returns (replies: seq<Reply>)
    requires top.Valid() && top.Quiet() && top.Shows(m) && Allowed(m, ops)
    requires top.Database().Clean()
    modifies top.Repr
    ensures top.Valid() && top.Quiet() && top.Shows(ApplyAll(m, ops))
    ensures top.Database().coins == ApplyAll(m, ops)
    ensures old(top.Tidy()) ==> top.Tidy() && replies == Answers(m, ops)
  {
    ghost var now := m;
    replies := [];
    var i := 0;
    while i < |ops|
      invariant 0 <= i <= |ops|
      invariant top.Valid() && top.Quiet() && top.Shows(now) && top.Database().Clean()
      invariant Allowed(now, ops[i..]) && ApplyAll(now, ops[i..]) == ApplyAll(m, ops)
      invariant old(top.Tidy()) ==> top.Tidy() && replies + Answers(now, ops[i..]) == Answers(m, ops)
    {
      var reply := Step(top, ops[i], now);
      assert ops[i..][1..] == ops[i + 1..];
      assert replies + Answers(now, ops[i..]) ==
             replies + [Answer(now, ops[i])] + Answers(Apply(now, ops[i]), ops[i + 1..]);
      replies := replies + [reply];
      now := Apply(now, ops[i]);
      i := i + 1;
    }
    top.Sync();
    StoredIs(top.Database(), now);
  }

  lemma StoredIs(d: CoinsViewDB, m: PlainMap)
    requires d.Clean() && forall t :: d.Lookup(t) == if t in m then Some(m[t]) else None
    ensures d.coins == m
  {
    forall t
      ensures t in d.coins <==> t in m
      ensures t in m ==> d.coins[t] == m[t]
    {
      assert d.Lookup(t) == if t in m then Some(m[t]) else None;
    }
  }
}
