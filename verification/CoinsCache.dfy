/** Caches of unspent coins stacked on a database, each holding changes to the view below it. */
module CoinsCache {
  import opened CoinData
  import opened Options

  type Txid = nat

  /** A cached transaction: dirty when it may differ from the view below, fresh when that view has nothing for it. */
  datatype Entry = Entry(coins: Coins, dirty: bool, isFresh: bool)

  type CoinsMap = map<Txid, Entry>

  /** The unspent coins a view shows: transactions with nothing left count as absent. */
  type View = map<Txid, Coins>

  /** What a cache shows over what the view below it shows. */
  ghost function Overlay(below: View, cache: CoinsMap): View {
    map t | t in below.Keys + cache.Keys && (t in cache ==> !cache[t].coins.IsPruned()) ::
      if t in cache then cache[t].coins else below[t]
  }

  ghost function At(v: View, t: Txid): Option<Coins> {
    if t in v then Some(v[t]) else None
  }

  ghost function Shown(c: Coins): Option<Coins> {
    if c.IsPruned() then None else Some(c)
  }

  /** What each entry of a cache says about the view below it, and about the entries of the cache below. */
  ghost predicate Honest(below: View, held: Option<set<Txid>>, cache: CoinsMap) {
    forall t <- cache ::
      && (cache[t].isFresh ==> t !in below)
      && (!cache[t].dirty ==> Shown(cache[t].coins) == At(below, t))
      && (held.Some? && !cache[t].isFresh ==> t in held.value)
  }

  /** No entry but the one being modified has spent outputs at the end. */
  ghost predicate Tidy(cache: CoinsMap, session: Option<Txid>) {
    forall t <- cache :: session == Some(t) || cache[t].coins.IsClean()
  }

  lemma OverlayAt(below: View, cache: CoinsMap, t: Txid)
    ensures At(Overlay(below, cache), t) == if t in cache then Shown(cache[t].coins) else At(below, t)
  {
  }

  lemma SameView(a: View, b: View)
    requires forall t :: At(a, t) == At(b, t)
    ensures a == b
  {
    forall t ensures t in a <==> t in b { assert At(a, t) == At(b, t); }
    forall t | t in a ensures a[t] == b[t] { assert At(a, t) == At(b, t); }
  }

  lemma HonestGrows(below: View, held: set<Txid>, held': set<Txid>, cache: CoinsMap)
    requires held <= held' && Honest(below, Some(held), cache)
    ensures Honest(below, Some(held'), cache)
  {
  }

  /** Entering what the view below has keeps the cache honest, and what it shows. */
  lemma EnterFetched(below: View, held: Option<set<Txid>>, cache: CoinsMap, session: Option<Txid>, t: Txid, c: Coins)
    requires Honest(below, held, cache) && Tidy(cache, session) && t !in cache
    requires Shown(c) == At(below, t) && c.IsClean() && (held.Some? ==> t in held.value)
    ensures var cache' := cache[t := Entry(c, false, c.IsPruned())];
      Honest(below, held, cache') && Tidy(cache', session) && Overlay(below, cache') == Overlay(below, cache)
  {
    var cache' := cache[t := Entry(c, false, c.IsPruned())];
    forall u ensures At(Overlay(below, cache'), u) == At(Overlay(below, cache), u) {
      OverlayAt(below, cache, u);
      OverlayAt(below, cache', u);
    }
    SameView(Overlay(below, cache'), Overlay(below, cache));
  }

  /** The view with one transaction replaced. */
  ghost function Put(v: View, t: Txid, c: Coins): View {
    if c.IsPruned() then v - {t} else v[t := c]
  }

  /** A cache after one entry changed: what it shows changes there and nowhere else. */
  lemma OverlayPut(below: View, cache: CoinsMap, cache': CoinsMap, t: Txid, c: Coins)
    requires forall u | u != t :: u in cache <==> u in cache'
    requires forall u <- cache | u != t :: cache'[u] == cache[u]
    requires if t in cache' then Shown(cache'[t].coins) == Shown(c) else At(below, t) == Shown(c)
    ensures Overlay(below, cache') == Put(Overlay(below, cache), t, c)
  {
    var v := Put(Overlay(below, cache), t, c);
    forall u ensures At(Overlay(below, cache'), u) == At(v, u) {
      OverlayAt(below, cache, u);
      OverlayAt(below, cache', u);
    }
    SameView(Overlay(below, cache'), v);
  }

  /** What one dirty entry of a child does to its parent's cache. */
  ghost function Merge(cache: CoinsMap, t: Txid, e: Entry): CoinsMap {
    if t !in cache then if e.coins.IsPruned() then cache else cache[t := Entry(e.coins, true, true)]
    else if cache[t].isFresh && e.coins.IsPruned() then cache - {t}
    else cache[t := Entry(e.coins, true, cache[t].isFresh)]
  }

  /** Merging a child's entry keeps the parent honest, and shows the child's coins. */
  lemma MergeKeeps(below: View, held: Option<set<Txid>>, cache: CoinsMap, t: Txid, e: Entry)
    requires Honest(below, held, cache) && Tidy(cache, None) && e.coins.IsClean()
    requires e.isFresh ==> t !in Overlay(below, cache)
    requires !e.isFresh ==> t in cache
    ensures Honest(below, held, Merge(cache, t, e)) && Tidy(Merge(cache, t, e), None)
    ensures Overlay(below, Merge(cache, t, e)) == Put(Overlay(below, cache), t, e.coins)
  {
    OverlayAt(below, cache, t);
    OverlayPut(below, cache, Merge(cache, t, e), t, e.coins);
  }

  /** Entering coins to be modified: nothing visible changes. */
  lemma EnterModified(below: View, held: Option<set<Txid>>, cache: CoinsMap, t: Txid, e: Entry)
    requires Honest(below, held, cache) && Tidy(cache, None) && t !in cache && e.dirty
    requires Shown(e.coins) == At(below, t) && (e.isFresh <==> e.coins.IsPruned())
    requires (held.Some? && !e.isFresh ==> t in held.value)
    ensures Honest(below, held, cache[t := e]) && Tidy(cache[t := e], Some(t))
    ensures Overlay(below, cache[t := e]) == Overlay(below, cache)
  {
    var v := Overlay(below, cache);
    forall u ensures At(Overlay(below, cache[t := e]), u) == At(v, u) {
      OverlayAt(below, cache, u);
      OverlayAt(below, cache[t := e], u);
    }
    SameView(Overlay(below, cache[t := e]), v);
  }

  lemma MarkDirty(below: View, held: Option<set<Txid>>, cache: CoinsMap, t: Txid)
    requires Honest(below, held, cache) && Tidy(cache, None) && t in cache
    ensures var cache' := cache[t := cache[t].(dirty := true)];
      Honest(below, held, cache') && Tidy(cache', Some(t)) && Overlay(below, cache') == Overlay(below, cache)
  {
    var cache' := cache[t := cache[t].(dirty := true)];
    forall u ensures At(Overlay(below, cache'), u) == At(Overlay(below, cache), u) {
      OverlayAt(below, cache, u);
      OverlayAt(below, cache', u);
    }
    SameView(Overlay(below, cache'), Overlay(below, cache));
  }

  /** An entry after its modification: cleaned up, or gone when it is fresh and pruned. */
  ghost function Released(cache: CoinsMap, t: Txid, c: Coins): CoinsMap
    requires t in cache
  {
    if cache[t].isFresh && c.IsPruned() then cache - {t} else cache[t := cache[t].(coins := c)]
  }

  lemma ReleaseKeeps(below: View, held: Option<set<Txid>>, cache: CoinsMap, t: Txid, c: Coins)
    requires Honest(below, held, cache) && Tidy(cache, Some(t)) && t in cache && cache[t].dirty && c.IsClean()
    ensures Honest(below, held, Released(cache, t, c)) && Tidy(Released(cache, t, c), None)
    ensures Overlay(below, Released(cache, t, c)) == Put(Overlay(below, cache), t, c)
  {
    OverlayPut(below, cache, Released(cache, t, c), t, c);
  }

  lemma PutTwice(v: View, t: Txid, c: Coins, c': Coins)
    ensures Put(Put(v, t, c), t, c') == Put(v, t, c')
  {
  }

  lemma EmptyCache(below: View, held: Option<set<Txid>>)
    ensures Honest(below, held, map[]) && Tidy(map[], None) && Overlay(below, map[]) == below
  {
  }

  // ---------------------------------------------------------------- merging a whole child

  /** Halfway through a merge: the entries in todo are still to come. */
  ghost predicate Merging(below: View, held: Option<set<Txid>>, shown: View, cache0: CoinsMap, cache: CoinsMap,
                          child: CoinsMap, todo: CoinsMap) {
    && Honest(below, held, cache) && Tidy(cache, None)
    && Honest(shown, Some(cache0.Keys), child) && Tidy(child, None)
    && (forall t <- todo :: t in child && todo[t] == child[t] && (t in cache0 <==> t in cache))
    && (forall t :: At(Overlay(below, cache), t) ==
          if t in child && t !in todo then Shown(child[t].coins) else At(shown, t))
  }

  lemma MergeNone(below: View, held: Option<set<Txid>>, cache: CoinsMap, child: CoinsMap)
    requires Honest(below, held, cache) && Tidy(cache, None)
    requires Honest(Overlay(below, cache), Some(cache.Keys), child) && Tidy(child, None)
    ensures Merging(below, held, Overlay(below, cache), cache, cache, child, child)
  {
  }

  lemma PutAt(v: View, t: Txid, c: Coins, u: Txid)
    ensures At(Put(v, t, c), u) == if u == t then Shown(c) else At(v, u)
  {
  }

  /** What is known of an entry when its turn comes; in particular the FRESH assert holds. */
  lemma MergeReady(below: View, held: Option<set<Txid>>, shown: View, cache0: CoinsMap, cache: CoinsMap,
                   child: CoinsMap, todo: CoinsMap, t: Txid)
    requires Merging(below, held, shown, cache0, cache, child, todo) && t in todo
    ensures todo[t].coins.IsClean()
    ensures todo[t].isFresh ==> t !in Overlay(below, cache)
    ensures !todo[t].isFresh ==> t in cache
    ensures !todo[t].dirty ==> Shown(todo[t].coins) == At(Overlay(below, cache), t)
  {
    assert At(Overlay(below, cache), t) == At(shown, t);
  }

  lemma MergeElsewhere(cache: CoinsMap, t: Txid, e: Entry, u: Txid)
    requires u != t
    ensures u in Merge(cache, t, e) <==> u in cache
  {
  }

  /** Merging one entry brings the parent one entry closer to the child. */
  lemma MergeOne(below: View, held: Option<set<Txid>>, shown: View, cache0: CoinsMap, cache: CoinsMap,
                 child: CoinsMap, todo: CoinsMap, t: Txid)
    requires Merging(below, held, shown, cache0, cache, child, todo) && t in todo
    ensures var cache' := if todo[t].dirty then Merge(cache, t, todo[t]) else cache;
      Merging(below, held, shown, cache0, cache', child, todo - {t})
  {
    hide Overlay, Honest, Merge, Tidy, Shown, At, Put;
    var e := todo[t];
    var cache' := if e.dirty then Merge(cache, t, e) else cache;
    MergeReady(below, held, shown, cache0, cache, child, todo, t);
    if e.dirty {
      MergeKeeps(below, held, cache, t, e);
    }
    forall u
      ensures At(Overlay(below, cache'), u) == if u == t then Shown(e.coins) else At(Overlay(below, cache), u)
    {
      PutAt(Overlay(below, cache), t, e.coins, u);
    }
    forall u | u in todo - {t}
      ensures u in child && todo[u] == child[u] && (u in cache0 <==> u in cache')
    {
      MergeElsewhere(cache, t, e, u);
    }
  }

  lemma MergeAll(below: View, held: Option<set<Txid>>, shown: View, cache0: CoinsMap, cache: CoinsMap,
                 child: CoinsMap, todo: CoinsMap)
    requires Merging(below, held, shown, cache0, cache, child, todo) && forall t :: t !in todo
    ensures Honest(below, held, cache) && Tidy(cache, None)
    ensures Overlay(below, cache) == Overlay(shown, child)
  {
    forall t ensures At(Overlay(below, cache), t) == At(Overlay(shown, child), t) {
      OverlayAt(shown, child, t);
    }
    SameView(Overlay(below, cache), Overlay(shown, child));
  }

  lemma ReadsStored(db: View, t: Txid)
    requires forall u <- db :: !db[u].IsPruned() && db[u].IsClean()
    ensures At(db, t) == if t in db then Some(db[t]) else None
    ensures t in db ==> Shown(db[t]) == At(db, t) && db[t].IsClean() && db[t].vout != []
  {
  }

  /** The database of coins; it keeps no pruned ones. */
  class CoinsViewDB {
    var db: map<Txid, Coins>

    ghost predicate Valid()
      reads this
    {
      forall t <- db :: !db[t].IsPruned() && db[t].IsClean()
    }

    constructor ()
      ensures db == map[]
    {
      db := map[];
    }

    /** What is read is what is stored, and that is never pruned and has no spent output at its end. */
    method GetCoins(txid: Txid) returns (r: Option<Coins>)
      requires Valid()
      ensures r == At(db, txid)
      ensures r.Some? ==> Shown(r.value) == r && r.value.IsClean() && r.value.vout != []
    {
      hide At;
      ReadsStored(db, txid);
      r := if txid in db then Some(db[txid]) else None;
    }

    /** Writes the dirty entries: pruned ones are erased. */
    method BatchWrite(mapCoins: CoinsMap)
      requires Valid() && Tidy(mapCoins, None) && Honest(db, None, mapCoins)
      modifies this
      ensures Valid() && db == Overlay(old(db), mapCoins)
    {
      var todo := mapCoins;
      while exists t :: t in todo
        invariant Valid() && todo.Keys <= mapCoins.Keys && forall t <- todo :: todo[t] == mapCoins[t]
        invariant forall t ::
          At(db, t) == if t in todo || t !in mapCoins then At(old(db), t) else Shown(mapCoins[t].coins)
        decreases todo.Keys
      {
        var t :| t in todo;
        if todo[t].dirty {
          if todo[t].coins.IsPruned() {
            db := db - {t};
          } else {
            db := db[t := todo[t].coins];
          }
        }
        todo := todo - {t};
      }
      forall t ensures At(db, t) == At(Overlay(old(db), mapCoins), t) {
        OverlayAt(old(db), mapCoins, t);
      }
      SameView(db, Overlay(old(db), mapCoins));
    }
  }

  datatype Base = Disk(disk: CoinsViewDB) | Below(cache: CoinsViewCache)

  class CoinsViewCache {
    const base: Base
    ghost const depth: nat
    ghost const Repr: set<object>
    var cacheCoins: CoinsMap
    var hasModifier: bool
    ghost var session: Option<Txid>

    /** The views below are a chain down to the database. */
    ghost predicate Linked()
      decreases depth
    {
      match base
      case Disk(d) => Repr == {this, d}
      case Below(c) => c.depth < depth && c in c.Repr && Repr == {this} + c.Repr && this !in c.Repr && c.Linked()
    }

    /** What the caller of the view below sees. */
    ghost function BaseView(): View
      requires Linked()
      reads Repr
      decreases depth, 0
    {
      match base
      case Disk(d) => d.db
      case Below(c) => c.Visible()
    }

    /** The unspent coins this view shows. */
    ghost function Visible(): View
      requires Linked()
      reads Repr
      decreases depth, 1
    {
      Overlay(BaseView(), cacheCoins)
    }

    ghost function BaseHeld(): Option<set<Txid>>
      requires Linked()
      reads Repr
    {
      match base
      case Disk(d) => None
      case Below(c) => Some(c.cacheCoins.Keys)
    }

    ghost predicate Valid()
      reads this, Repr
      decreases depth
    {
      && Linked()
      && (match base
          case Disk(d) => d.Valid()
          case Below(c) => c.Valid() && c.session == None)
      && Honest(BaseView(), BaseHeld(), cacheCoins)
      && Tidy(cacheCoins, session)
      && hasModifier == session.Some?
      && (session.Some? ==> session.value in cacheCoins && cacheCoins[session.value].dirty)
    }

    /** What is visible at every level below this one, from the database up. */
    ghost function BaseLevels(): seq<View>
      requires Linked()
      reads Repr
      decreases depth, 0
    {
      match base
      case Disk(d) => [d.db]
      case Below(c) => c.Levels()
    }

    ghost function Levels(): seq<View>
      requires Linked()
      reads Repr
      decreases depth, 1
    {
      BaseLevels() + [Visible()]
    }

    lemma Height()
      requires Linked()
      ensures |BaseLevels()| >= 1 && (base.Disk? <==> |BaseLevels()| == 1)
      ensures Levels()[..|Levels()| - 1] == BaseLevels() && Levels()[|Levels()| - 1] == Visible()
      ensures base.Below? ==> BaseLevels() == base.cache.Levels()
      ensures BaseLevels()[|BaseLevels()| - 1] == BaseView()
      decreases depth
    {
      if base.Below? {
        base.cache.Height();
      }
    }

    constructor OnDisk(d: CoinsViewDB)
      requires d.Valid()
      ensures Valid() && base == Disk(d) && session == None && cacheCoins == map[]
      ensures Visible() == d.db
    {
      base := Disk(d);
      depth := 0;
      Repr := {this, d};
      cacheCoins := map[];
      hasModifier := false;
      session := None;
    }

    constructor On(c: CoinsViewCache)
      requires c.Valid() && c.session == None
      ensures Valid() && base == Below(c) && session == None && cacheCoins == map[]
      ensures Visible() == c.Visible() && Levels() == c.Levels() + [c.Visible()]
    {
      hide Honest, Tidy, Overlay;
      base := Below(c);
      depth := c.depth + 1;
      Repr := {this} + c.Repr;
      cacheCoins := map[];
      hasModifier := false;
      session := None;
      EmptyCache(c.Visible(), Some(c.cacheCoins.Keys));
    }

    /** Finds the entry of a transaction, fetching it from the view below if need be. */
    method FetchCoins(txid: Txid) returns (found: bool)
      requires Valid()
      modifies Repr
      ensures Valid() && Visible() == old(Visible()) && BaseLevels() == old(BaseLevels()) && session == old(session)
      ensures old(cacheCoins).Keys <= cacheCoins.Keys
      ensures found ==> txid in cacheCoins && Shown(cacheCoins[txid].coins) == At(Visible(), txid)
      ensures !found ==> txid !in cacheCoins && txid !in Visible()
      decreases depth, 1
    {
      hide Honest, Overlay, Tidy;
      OverlayAt(BaseView(), cacheCoins, txid);
      if txid in cacheCoins {
        return true;
      }
      var tmp := BaseGetCoins(txid);
      if tmp == None {
        return false;
      }
      EnterFetched(BaseView(), BaseHeld(), cacheCoins, session, txid, tmp.value);
      cacheCoins := cacheCoins[txid := Entry(tmp.value, false, tmp.value.IsPruned())];
      OverlayAt(BaseView(), cacheCoins, txid);
      return true;
    }

    method BaseGetCoins(txid: Txid) returns (r: Option<Coins>)
      requires Valid()
      modifies Repr - {this}
      ensures Valid() && BaseLevels() == old(BaseLevels()) && Visible() == old(Visible())
      ensures BaseView() == old(BaseView())
      ensures r == None ==> txid !in BaseView()
      ensures r.Some? ==> Shown(r.value) == At(BaseView(), txid) && r.value.IsClean()
      ensures r.Some? && base.Below? ==> txid in base.cache.cacheCoins
      decreases depth, 0
    {
      hide Honest, Overlay, Tidy;
      match base {
        case Disk(d) =>
          r := d.GetCoins(txid);
        case Below(c) =>
          ghost var held := c.cacheCoins.Keys;
          r := c.GetCoins(txid);
          HonestGrows(c.Visible(), held, c.cacheCoins.Keys, cacheCoins);
      }
    }

    method GetCoins(txid: Txid) returns (r: Option<Coins>)
      requires Valid()
      modifies Repr
      ensures Valid() && Visible() == old(Visible()) && BaseLevels() == old(BaseLevels()) && session == old(session)
      ensures old(cacheCoins).Keys <= cacheCoins.Keys
      ensures r == None ==> txid !in Visible()
      ensures r.Some? ==> Shown(r.value) == At(Visible(), txid)
      ensures r.Some? ==> txid in cacheCoins && r.value == cacheCoins[txid].coins
      ensures r.Some? && session == None ==> r.value.IsClean()
      decreases depth, 2
    {
      var found := FetchCoins(txid);
      r := if found then Some(cacheCoins[txid].coins) else None;
    }

    /** Tests only that some output is left in the vector: exact, because clean coins have none exactly when pruned. */
    method HaveCoins(txid: Txid) returns (r: bool)
      requires Valid()
      modifies Repr
      ensures Valid() && Visible() == old(Visible()) && BaseLevels() == old(BaseLevels()) && session == old(session)
      ensures old(cacheCoins).Keys <= cacheCoins.Keys
      ensures txid in Visible() ==> r
      ensures session != Some(txid) ==> (r <==> txid in Visible())
    {
      var found := FetchCoins(txid);
      r := found && cacheCoins[txid].coins.vout != [];
      if found && session != Some(txid) {
        CleanPruned(cacheCoins[txid].coins);
      }
    }

    /** The entry to modify for a transaction that is not cached: fresh exactly when nothing is there below. */
    method NewEntry(txid: Txid) returns (entry: Entry)
      requires Valid() && txid !in cacheCoins
      modifies Repr - {this}
      ensures Valid() && BaseLevels() == old(BaseLevels()) && Visible() == old(Visible())
      ensures entry.dirty && (entry.isFresh <==> entry.coins.IsPruned()) && Shown(entry.coins) == At(BaseView(), txid)
      ensures BaseHeld().Some? && !entry.isFresh ==> txid in BaseHeld().value
    {
      hide Honest, Overlay, Tidy;
      var tmp := BaseGetCoins(txid);
      entry := Entry(NO_COINS, true, false);
      if tmp == None {
        entry := entry.(coins := NO_COINS, isFresh := true);
      } else {
        entry := entry.(coins := tmp.value);
        if tmp.value.IsPruned() {
          entry := entry.(isFresh := true);
        }
      }
    }

    /** Opens a modification of one transaction; nothing visible changes yet. */
    method ModifyCoins(txid: Txid) returns (m: CoinsModifier)
      requires Valid() && session == None
      modifies Repr
      ensures Valid() && Visible() == old(Visible()) && BaseLevels() == old(BaseLevels())
      ensures session == Some(txid) && m.cache == this && m.it == txid
    {
      hide Honest, Overlay, Tidy, At, Shown;
      assert !hasModifier;
      if txid !in cacheCoins {
        var entry := NewEntry(txid);
        EnterModified(BaseView(), BaseHeld(), cacheCoins, txid, entry);
        cacheCoins := cacheCoins[txid := entry];
      } else {
        MarkDirty(BaseView(), BaseHeld(), cacheCoins, txid);
        cacheCoins := cacheCoins[txid := cacheCoins[txid].(dirty := true)];
      }
      m := new CoinsModifier(this, txid);
    }

    /** Merges a child's changes; the FRESH assert holds because a child fetches through its parent. */
    method BatchWrite(mapCoins: CoinsMap)
      requires Valid() && session == None
      requires Honest(Visible(), Some(cacheCoins.Keys), mapCoins) && Tidy(mapCoins, None)
      modifies this`cacheCoins
      ensures Valid() && Visible() == Overlay(old(Visible()), mapCoins)
      ensures BaseLevels() == old(BaseLevels())
    {
      assert !hasModifier;
      ghost var below := BaseView();
      ghost var held := BaseHeld();
      ghost var shown := Visible();
      var todo := mapCoins;
      MergeNone(below, held, cacheCoins, mapCoins);
      hide Honest, Overlay, Tidy;
      while exists t :: t in todo
        invariant Merging(below, held, shown, old(cacheCoins), cacheCoins, mapCoins, todo)
        decreases todo.Keys
      {
        var t :| t in todo;
        ghost var cache := cacheCoins;
        var e := todo[t];
        MergeReady(below, held, shown, old(cacheCoins), cacheCoins, mapCoins, todo, t);
        MergeOne(below, held, shown, old(cacheCoins), cacheCoins, mapCoins, todo, t);
        if e.dirty {
          if t !in cacheCoins {
            if !e.coins.IsPruned() {
              assert e.isFresh;
              cacheCoins := cacheCoins[t := Entry(e.coins, true, true)];
            }
          } else if cacheCoins[t].isFresh && e.coins.IsPruned() {
            cacheCoins := cacheCoins - {t};
          } else {
            cacheCoins := cacheCoins[t := Entry(e.coins, true, cacheCoins[t].isFresh)];
          }
          assert cacheCoins == Merge(cache, t, e);
        }
        todo := todo - {t};
      }
      MergeAll(below, held, shown, old(cacheCoins), cacheCoins, mapCoins, todo);
    }

    /** Pushes all changes to the view below, and forgets them here: what is visible stays the same. */
    method Flush()
      requires Valid() && session == None
      modifies Repr
      ensures Valid() && session == None && cacheCoins == map[]
      ensures BaseView() == old(Visible()) && Visible() == old(Visible())
      ensures base.Below? ==> base.cache.Valid() && base.cache.session == None
      ensures |old(BaseLevels())| >= 1
      ensures BaseLevels() == old(BaseLevels())[..|old(BaseLevels())| - 1] + [old(Visible())]
    {
      hide Overlay, Honest, Tidy;
      Height();
      match base {
        case Disk(d) =>
          d.BatchWrite(cacheCoins);
        case Below(c) =>
          c.BatchWrite(cacheCoins);
      }
      cacheCoins := map[];
      EmptyCache(BaseView(), BaseHeld());
    }
  }

  /** A handle on the one entry being modified; its end cleans the entry up. */
  class CoinsModifier {
    const cache: CoinsViewCache
    const it: Txid

    constructor (cache: CoinsViewCache, it: Txid)
      requires cache.Linked() && !cache.hasModifier
      modifies cache`hasModifier, cache`session
      ensures this.cache == cache && this.it == it
      ensures cache.hasModifier && cache.session == Some(it) && cache.Linked()
      ensures cache.Visible() == old(cache.Visible()) && cache.BaseLevels() == old(cache.BaseLevels())
    {
      hide Overlay;
      this.cache := cache;
      this.it := it;
      new;
      cache.hasModifier := true;
      cache.session := Some(it);
    }

    /** Any change to the coins through the handle. */
    method Assign(c: Coins)
      requires cache.Valid() && cache.session == Some(it)
      modifies cache`cacheCoins
      ensures cache.Valid() && cache.session == Some(it)
      ensures cache.Visible() == Put(old(cache.Visible()), it, c) && cache.BaseLevels() == old(cache.BaseLevels())
      ensures it in cache.cacheCoins && cache.cacheCoins[it].coins == c
    {
      OverlayPut(cache.BaseView(), cache.cacheCoins, cache.cacheCoins[it := cache.cacheCoins[it].(coins := c)], it, c);
      cache.cacheCoins := cache.cacheCoins[it := cache.cacheCoins[it].(coins := c)];
    }

    /** The end of the handle: the coins are cleaned up, and the entry goes if it is fresh and pruned. */
    method Destroy()
      requires cache.Valid() && cache.session == Some(it)
      modifies cache`cacheCoins, cache`hasModifier, cache`session
      ensures cache.Valid() && cache.session == None
      ensures var c := old(cache.cacheCoins[it].coins);
        cache.Visible() == Put(old(cache.Visible()), it, c.(vout := Trim(c.vout)))
      ensures cache.BaseLevels() == old(cache.BaseLevels())
    {
      hide Overlay, Honest, Tidy;
      assert cache.hasModifier;
      var e := cache.cacheCoins[it];
      var c := Cleanup(e.coins);
      ghost var cache0 := cache.cacheCoins;
      ReleaseKeeps(cache.BaseView(), cache.BaseHeld(), cache0, it, c);
      cache.hasModifier := false;
      cache.session := None;
      if e.isFresh && c.IsPruned() {
        cache.cacheCoins := cache.cacheCoins - {it};
      } else {
        cache.cacheCoins := cache.cacheCoins[it := e.(coins := c)];
      }
      assert cache.cacheCoins == Released(cache0, it, c);
    }
  }

  /** A whole modification: the view changes for that transaction and for no other, at that level only. */
  method Modify(cache: CoinsViewCache, txid: Txid, c: Coins)
    requires cache.Valid() && cache.session == None
    modifies cache.Repr
    ensures cache.Valid() && cache.session == None
    ensures cache.Visible() == Put(old(cache.Visible()), txid, c.(vout := Trim(c.vout)))
    ensures cache.BaseLevels() == old(cache.BaseLevels())
  {
    hide Overlay, Honest, Tidy, Put;
    var m := cache.ModifyCoins(txid);
    m.Assign(c);
    m.Destroy();
    PutTwice(old(cache.Visible()), txid, c, c.(vout := Trim(c.vout)));
  }

  // ---------------------------------------------------------------- whole runs against a plain stack of maps

  /** What the holder of a stack of caches can do; what does not apply is skipped. */
  datatype Operation =
    | Begin(t: Txid)               // a modifier opened on the topmost cache
    | Assign(c: Coins)             // through the open modifier
    | End                          // the modifier closed
    | Access(t: Txid, down: nat)   // a query so many caches below the topmost, or of the lowest
    | Have(t: Txid, down: nat)
    | Push                         // a new cache on top
    | FlushTop
    | Pop                          // the topmost cache dropped, changes and all

  /** A stack of plain maps: the first is the database, the last the topmost cache; and the open modifier. */
  datatype Stack = Stack(levels: seq<View>, open: Option<Txid>)

  const EMPTY_STACK := Stack([map[], map[]], None)

  /** The same on the stack of maps. */
  ghost function After(k: Stack, op: Operation): (r: Stack)
    requires |k.levels| >= 2
    ensures |r.levels| >= 2
  {
    var n := |k.levels|;
    var top := k.levels[n - 1];
    match op
    case Begin(t) => if k.open.None? then k.(open := Some(t)) else k
    case Assign(c) => if k.open.Some? then k.(levels := k.levels[..n - 1] + [Put(top, k.open.value, c)]) else k
    case End =>
      if k.open.None? then k
      else Stack(k.levels[..n - 1] + [Cleaned(top, k.open.value)], None)
    case Access(_, _) => k
    case Have(_, _) => k
    case Push => if k.open.None? then k.(levels := k.levels + [top]) else k
    case FlushTop => if k.open.None? then k.(levels := k.levels[..n - 2] + [top, top]) else k
    case Pop => if k.open.None? && n > 2 then k.(levels := k.levels[..n - 1]) else k
  }

  /** Without the spent outputs at the end of one transaction. */
  ghost function Cleaned(v: View, t: Txid): View {
    if t in v then v[t := v[t].(vout := Trim(v[t].vout))] else v
  }

  /** The map that a query so many caches below the topmost is about. */
  ghost function LevelAt(levels: seq<View>, down: nat): View
    requires |levels| >= 2
  {
    if down + 2 <= |levels| then levels[|levels| - 1 - down] else levels[1]
  }

  /**
   * What a query must answer. Only whether the transaction under modification has coins is answered
   * loosely: spent outputs at its end are still counted.
   */
  ghost predicate AnswerOk(answer: Option<Coins>, k: Stack, op: Operation)
    requires |k.levels| >= 2
  {
    match op
    case Access(t, down) => (if answer.Some? then Shown(answer.value) else None) == At(LevelAt(k.levels, down), t)
    case Have(t, down) =>
      var there := t in LevelAt(k.levels, down);
      if k.open == Some(t) && (down == 0 || |k.levels| == 2) then there ==> answer.Some? else answer.Some? <==> there
    case _ => true
  }

  method NewCache(c: CoinsViewCache) returns (top: CoinsViewCache)
    requires c.Valid() && c.session == None
    ensures top.Valid() && top.base == Below(c) && top.session == None && fresh(top.Repr - c.Repr)
    ensures top.Visible() == c.Visible() && top.BaseLevels() == c.Levels()
  {
    top := new CoinsViewCache.On(c);
  }

  /** Going down one cache is looking one level less far down from there. */
  lemma OneDown(below: seq<View>, top: View, down: nat)
    requires |below| >= 2 && down > 0
    ensures LevelAt(below + [top], down) == LevelAt(below, down - 1)
  {
  }

  /** A query of a cache so far down, while those above it are in use: no level shows anything else afterwards. */
  method Query(cache: CoinsViewCache, t: Txid, down: nat, have: bool) returns (answer: Option<Coins>)
    requires cache.Valid()
    modifies cache.Repr
    ensures cache.Valid() && cache.Visible() == old(cache.Visible()) && cache.BaseLevels() == old(cache.BaseLevels())
    ensures cache.session == old(cache.session) && old(cache.cacheCoins).Keys <= cache.cacheCoins.Keys
    ensures |old(cache.Levels())| >= 2
    ensures var op := if have then Have(t, down) else Access(t, down);
      AnswerOk(answer, Stack(old(cache.Levels()), old(cache.session)), op)
    decreases cache.depth
  {
    hide Overlay, Honest, Tidy;
    cache.Height();
    if down == 0 || cache.base.Disk? {
      if have {
        var there := cache.HaveCoins(t);
        answer := if there then Some(NO_COINS) else None;
      } else {
        answer := cache.GetCoins(t);
      }
    } else {
      var c := cache.base.cache;
      ghost var held := c.cacheCoins.Keys;
      OneDown(c.Levels(), cache.Visible(), down);
      answer := Query(c, t, down - 1, have);
      HonestGrows(c.Visible(), held, c.cacheCoins.Keys, cache.cacheCoins);
    }
  }

  /** Whoever holds the stack holds the handle of an open modification. */
  ghost predicate Holds(m: CoinsModifier?, top: CoinsViewCache)
    reads top
  {
    top.session.Some? ==> m != null && m.cache == top && top.session == Some(m.it)
  }

  /** What the end of a modification does, told by what was shown. */
  lemma EndCleans(v: View, t: Txid, c: Coins)
    requires At(v, t) == Shown(c)
    ensures Put(v, t, c.(vout := Trim(c.vout))) == Cleaned(v, t)
  {
  }

  method End(m: CoinsModifier)
    requires m.cache.Valid() && m.cache.session == Some(m.it)
    modifies m.cache`cacheCoins, m.cache`hasModifier, m.cache`session
    ensures m.cache.Valid() && m.cache.session == None
    ensures m.cache.Visible() == Cleaned(old(m.cache.Visible()), m.it)
    ensures m.cache.BaseLevels() == old(m.cache.BaseLevels())
  {
    hide Overlay, Honest, Tidy, Put, Cleaned;
    OverlayAt(m.cache.BaseView(), m.cache.cacheCoins, m.it);
    EndCleans(m.cache.Visible(), m.it, m.cache.cacheCoins[m.it].coins);
    m.Destroy();
  }

  method Perform(top: CoinsViewCache, m: CoinsModifier?, op: Operation)
      returns (top': CoinsViewCache, m': CoinsModifier?, answer: Option<Coins>)
    requires top.Valid() && Holds(m, top)
    modifies top.Repr
    ensures top'.Valid() && Holds(m', top') && fresh(top'.Repr - top.Repr)
    ensures |old(top.Levels())| >= 2
    ensures Stack(top'.Levels(), top'.session) == After(Stack(old(top.Levels()), old(top.session)), op)
    ensures AnswerOk(answer, Stack(old(top.Levels()), old(top.session)), op)
  {
    hide Overlay, Honest, Tidy, Put, Cleaned, LevelAt;
    top.Height();
    ghost var levels := top.Levels();
    top', m', answer := top, m, None;
    match op {
      case Begin(t) =>
        if !top.hasModifier {
          m' := top.ModifyCoins(t);
        }
      case Assign(c) =>
        if top.hasModifier {
          m.Assign(c);
        }
      case End =>
        if top.hasModifier {
          End(m);
        }
      case Access(t, down) =>
        answer := Query(top, t, down, false);
      case Have(t, down) =>
        answer := Query(top, t, down, true);
      case Push =>
        if !top.hasModifier {
          top' := NewCache(top);
        }
      case FlushTop =>
        if !top.hasModifier {
          ghost var below := top.BaseLevels();
          top.Flush();
          assert levels[..|levels| - 2] == below[..|below| - 1];
        }
      case Pop =>
        if !top.hasModifier && top.base.Below? {
          top' := top.base.cache;
        }
    }
  }

  ghost function AfterAll(ops: seq<Operation>): (r: Stack)
    ensures |r.levels| >= 2
  {
    if ops == [] then EMPTY_STACK else After(AfterAll(ops[..|ops| - 1]), ops[|ops| - 1])
  }

  /** One cache on an empty database. */
  method EmptyStack() returns (top: CoinsViewCache)
    ensures top.Valid() && top.session == None && fresh(top.Repr) && top.Levels() == [map[], map[]]
  {
    var d := new CoinsViewDB();
    top := new CoinsViewCache.OnDisk(d);
  }

  /** The answers given along a run are those of the stack of maps. */
  ghost predicate AnswersOk(answers: seq<Option<Coins>>, ops: seq<Operation>) {
    |answers| == |ops| && forall i | 0 <= i < |ops| :: AnswerOk(answers[i], AfterAll(ops[..i]), ops[i])
  }

  lemma OneAnswerMore(answers: seq<Option<Coins>>, ops: seq<Operation>, answer: Option<Coins>, op: Operation)
    requires AnswersOk(answers, ops) && AnswerOk(answer, AfterAll(ops), op)
    ensures AnswersOk(answers + [answer], ops + [op])
    ensures AfterAll(ops + [op]) == After(AfterAll(ops), op)
  {
    hide AnswerOk, After;
    forall i | 0 <= i < |ops| + 1
      ensures AnswerOk((answers + [answer])[i], AfterAll((ops + [op])[..i]), (ops + [op])[i])
    {
      assert (ops + [op])[..i] == ops[..i];
      if i == |ops| {
        assert ops[..i] == ops;
      }
    }
    assert (ops + [op])[..|ops|] == ops;
  }

  /** Every run on a stack of caches shows, level by level, what the stack of plain maps holds,
      and every query answers what the plain map says. */
  method Run(ops: seq<Operation>) returns (top: CoinsViewCache, answers: seq<Option<Coins>>)
    ensures top.Valid() && Stack(top.Levels(), top.session) == AfterAll(ops)
    ensures AnswersOk(answers, ops)
  {
    top := EmptyStack();
    answers := [];
    var m: CoinsModifier? := null;
    hide AnswerOk, After, AfterAll, AnswersOk, CoinsViewCache.Levels, CoinsViewCache.Linked, Honest, Tidy, Overlay;
    RunStarts();
    assert ops[..0] == [];
    for i := 0 to |ops|
      invariant top.Valid() && Holds(m, top) && fresh(top.Repr)
      invariant Stack(top.Levels(), top.session) == AfterAll(ops[..i])
      invariant AnswersOk(answers, ops[..i])
    {
      var answer;
      assert ops[..i + 1] == ops[..i] + [ops[i]];
      top, m, answer := Perform(top, m, ops[i]);
      OneAnswerMore(answers, ops[..i], answer, ops[i]);
      answers := answers + [answer];
    }
    assert ops[..|ops|] == ops;
  }

  lemma RunStarts()
    ensures AfterAll([]) == EMPTY_STACK && AnswersOk([], [])
  {
  }
}
