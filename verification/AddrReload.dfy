/** What a manager is saved as, and why loading that gives back the same indexes under other ids. */
module AddrReload {
  import opened AddrTypes
  import opened AddrBook
  import opened AddrCheck
  import opened AddrFile
  import opened AddrSound

  // ---------------------------------------------------------------- what a manager is saved as

  /** The ids below n that have references, in order. */
  ghost function NewOrder(k: Book, n: nat): (ids: seq<int>)
    ensures |ids| <= n
    ensures forall i | 0 <= i < |ids| :: 0 <= ids[i] < n && ids[i] in k.info && k.info[ids[i]].nRefCount != 0
  {
    if n == 0 then []
    else if n - 1 in k.info && k.info[n - 1].nRefCount != 0 then NewOrder(k, n - 1) + [n - 1]
    else NewOrder(k, n - 1)
  }

  /** The tried ids below n, in order. */
  ghost function TriedOrder(k: Book, n: nat): (ids: seq<int>)
    ensures |ids| <= n
    ensures forall i | 0 <= i < |ids| :: 0 <= ids[i] < n && ids[i] in k.info && k.info[ids[i]].fInTried
  {
    if n == 0 then []
    else if n - 1 in k.info && k.info[n - 1].fInTried then TriedOrder(k, n - 1) + [n - 1]
    else TriedOrder(k, n - 1)
  }

  ghost function Entries(k: Book, ids: seq<int>): (s: seq<Stored>)
    requires forall i | 0 <= i < |ids| :: ids[i] in k.info
    ensures |s| == |ids|
  {
    seq(|ids|, i requires 0 <= i < |ids| => Persist(k.info[ids[i]]))
  }

  /** The saved indexes of the entries in the first i slots of a new bucket. */
  ghost function BucketIndexes(k: Book, b: int, i: nat): (s: seq<int>)
    requires k.Shape() && 0 <= b < NEW_BUCKET_COUNT && i <= BUCKET_SIZE
    ensures |s| <= i
  {
    if i == 0 then []
    else
      var id := k.newTable[b][i - 1];
      if id < 0 then BucketIndexes(k, b, i - 1) else BucketIndexes(k, b, i - 1) + [|NewOrder(k, id)|]
  }

  ghost function FileOf(k: Book): PeersFile
    requires k.Shape() && k.idCount >= 0
  {
    PeersFile(1, 32, k.key, k.nNew, k.nTried, FlipBit30(NEW_BUCKET_COUNT),
      Entries(k, NewOrder(k, k.idCount)), Entries(k, TriedOrder(k, k.idCount)),
      seq(NEW_BUCKET_COUNT, b requires 0 <= b < NEW_BUCKET_COUNT => BucketIndexes(k, b, BUCKET_SIZE)))
  }

  ghost function NewBelow(k: Book, n: int): set<int> {
    set id | id in k.info && 0 <= id < n && k.info[id].nRefCount != 0
  }

  ghost function TriedBelow(k: Book, n: int): set<int> {
    set id | id in k.info && 0 <= id < n && k.info[id].fInTried
  }

  lemma BelowNext(k: Book, n: nat)
    requires n > 0
    ensures NewBelow(k, n) ==
            NewBelow(k, n - 1) + if n - 1 in k.info && k.info[n - 1].nRefCount != 0 then {n - 1} else {}
    ensures TriedBelow(k, n) == TriedBelow(k, n - 1) + if n - 1 in k.info && k.info[n - 1].fInTried then {n - 1} else {}
    ensures n - 1 !in NewBelow(k, n - 1) && n - 1 !in TriedBelow(k, n - 1)
  {
  }

  lemma {:induction false} NewOrderSize(k: Book, n: nat)
    ensures |NewOrder(k, n)| == |NewBelow(k, n)|
  {
    if n > 0 {
      NewOrderSize(k, n - 1);
      BelowNext(k, n);
      hide NewBelow;
      assert |NewOrder(k, n)| == |NewBelow(k, n)|;
    }
  }

  lemma {:induction false} TriedOrderSize(k: Book, n: nat)
    ensures |TriedOrder(k, n)| == |TriedBelow(k, n)|
  {
    if n > 0 {
      TriedOrderSize(k, n - 1);
      BelowNext(k, n);
      hide TriedBelow;
      assert |TriedOrder(k, n)| == |TriedBelow(k, n)|;
    }
  }

  lemma AllBelow(k: Book)
    requires k.Valid()
    ensures NewBelow(k, k.idCount) == k.NewIds() && TriedBelow(k, k.idCount) == k.TriedIds()
    ensures k.nNew == |k.NewIds()| && k.nTried == |k.TriedIds()|
  {
    hide Book.RandomInverse, Book.NewCells, Book.TriedCells;
    assert k.NewIds() - {} == k.NewIds();
    forall id | id in k.info
      ensures 0 <= id < k.idCount && (k.info[id].nRefCount != 0 <==> !k.info[id].fInTried)
    {
    }
  }

  /** The orders list exactly the new and the tried ids, so their lengths are the counters. */
  lemma OrdersAreCounts(k: Book)
    requires k.Valid()
    ensures |NewOrder(k, k.idCount)| == k.nNew && |TriedOrder(k, k.idCount)| == k.nTried
  {
    hide Book.RandomInverse, Book.NewCells, Book.TriedCells, Book.Refs, Book.Counts;
    NewOrderSize(k, k.idCount);
    TriedOrderSize(k, k.idCount);
    AllBelow(k);
  }

  lemma {:induction false} OrderGrows(k: Book, m: nat, n: nat)
    requires m <= n
    ensures NewOrder(k, m) <= NewOrder(k, n) && TriedOrder(k, m) <= TriedOrder(k, n)
  {
    if m < n {
      OrderGrows(k, m, n - 1);
    }
  }

  lemma FewerBefore(k: Book, id: nat, n: nat)
    requires id < n && id in k.info
    ensures k.info[id].nRefCount != 0 ==> |NewOrder(k, id)| < |NewOrder(k, n)|
    ensures k.info[id].fInTried ==> |TriedOrder(k, id)| < |TriedOrder(k, n)|
  {
    OrderGrows(k, id + 1, n);
  }

  /** Before an entry is written, fewer have been than the counter says: the nIds asserts hold. */
  lemma CounterNotReached(k: Book, id: int)
    requires k.Valid() && id in k.info
    ensures 0 <= id < k.idCount
    ensures k.info[id].nRefCount != 0 ==> |NewOrder(k, id)| < k.nNew
    ensures k.info[id].fInTried ==> |TriedOrder(k, id)| < k.nTried
  {
    hide Book.RandomInverse, Book.NewCells, Book.TriedCells, Book.Refs, Book.Counts;
    OrdersAreCounts(k);
    assert 0 <= id < k.idCount;
    hide NewOrder, TriedOrder, Book.AddrBijection;
    FewerBefore(k, id, k.idCount);
  }

  // ---------------------------------------------------------------- the renaming of ids

  /** The id an entry gets when the file is loaded: new entries first, then tried ones. */
  ghost function Ren(k: Book, id: int): int
    requires id in k.info && id >= 0
  {
    if k.info[id].fInTried then k.nNew + |TriedOrder(k, id)| else |NewOrder(k, id)|
  }

  /** The id an entry had before it was saved. */
  ghost function Orig(k: Book, r: int): int
    requires k.idCount >= 0
  {
    var news := NewOrder(k, k.idCount);
    var trieds := TriedOrder(k, k.idCount);
    if 0 <= r < |news| then news[r]
    else if |news| <= r < |news| + |trieds| then trieds[r - |news|]
    else EMPTY
  }

  lemma {:induction false} NewRank(k: Book, n: nat, r: nat)
    requires r < |NewOrder(k, n)|
    ensures |NewOrder(k, NewOrder(k, n)[r])| == r
  {
    if r < |NewOrder(k, n - 1)| {
      NewRank(k, n - 1, r);
    }
  }

  lemma {:induction false} TriedRank(k: Book, n: nat, r: nat)
    requires r < |TriedOrder(k, n)|
    ensures |TriedOrder(k, TriedOrder(k, n)[r])| == r
  {
    if r < |TriedOrder(k, n - 1)| {
      TriedRank(k, n - 1, r);
    }
  }

  /** The facts about entries the renaming needs. */
  ghost predicate Orderly(k: Book) {
    && 0 <= k.idCount
    && (forall id <- k.info :: 0 <= id < k.idCount && (k.info[id].nRefCount != 0 <==> !k.info[id].fInTried))
    && |NewOrder(k, k.idCount)| == k.nNew && |TriedOrder(k, k.idCount)| == k.nTried
  }

  lemma ValidIsOrderly(k: Book)
    requires k.Valid()
    ensures Orderly(k)
  {
    OrdersAreCounts(k);
    hide NewOrder, TriedOrder, Book.RandomInverse, Book.NewCells, Book.TriedCells;
    forall id | id in k.info
      ensures 0 <= id < k.idCount && (k.info[id].nRefCount != 0 <==> !k.info[id].fInTried)
    {
    }
  }

  /** Renaming and its inverse. */
  lemma RenOrig(k: Book, r: int)
    requires Orderly(k) && 0 <= r < k.nNew + k.nTried
    ensures var id := Orig(k, r);
      id in k.info && 0 <= id < k.idCount && Ren(k, id) == r && (k.info[id].fInTried <==> r >= k.nNew)
  {
    if r < k.nNew {
      NewRank(k, k.idCount, r);
    } else {
      TriedRank(k, k.idCount, r - k.nNew);
    }
  }

  lemma OrigRen(k: Book, id: int)
    requires Orderly(k) && id in k.info
    ensures 0 <= Ren(k, id) < k.nNew + k.nTried && Orig(k, Ren(k, id)) == id
    ensures k.info[id].fInTried <==> Ren(k, id) >= k.nNew
  {
    OrderGrows(k, id + 1, k.idCount);
  }

  ghost function RenCell(k: Book, v: int): int {
    if v in k.info && v >= 0 then Ren(k, v) else EMPTY
  }

  // ---------------------------------------------------------------- how far loading has come

  /** The entry loaded for r once the first t new slots have been read. */
  ghost function Target(k: Book, r: int, t: int): AddrInfo
    requires k.Shape() && Orderly(k) && 0 <= r < k.nNew + k.nTried && Orig(k, r) in k.info
  {
    k.info[Orig(k, r)].(
      nLastTry := 0,
      nRandomPos := r,
      nRefCount := if r < k.nNew then |SlotsBefore(k, Orig(k, r), t)| else 0)
  }

  ghost predicate LoadedEntries(k: Book, k': Book, n: int, t: int)
    requires k.Shape() && Orderly(k) && 0 <= n <= k.nNew + k.nTried
  {
    && (forall r :: r in k'.info <==> 0 <= r < n)
    && (forall r | 0 <= r < n :: Orig(k, r) in k.info && k'.info[r] == Target(k, r, t).(fInTried := r >= k.nNew))
  }

  ghost predicate LoadedTriedTable(k: Book, k': Book, n: int)
    requires k.Shape() && k'.Shape()
  {
    forall b, i {:trigger k'.triedTable[b][i]} | 0 <= b < TRIED_BUCKET_COUNT && 0 <= i < BUCKET_SIZE ::
      k'.triedTable[b][i] == if RenCell(k, k.triedTable[b][i]) < n then RenCell(k, k.triedTable[b][i]) else EMPTY
  }

  ghost predicate LoadedNewTable(k: Book, k': Book, t: int)
    requires k.Shape() && k'.Shape()
  {
    forall b, i {:trigger k'.newTable[b][i]} | 0 <= b < NEW_BUCKET_COUNT && 0 <= i < BUCKET_SIZE ::
      k'.newTable[b][i] == if b * BUCKET_SIZE + i < t then RenCell(k, k.newTable[b][i]) else EMPTY
  }

  /** The first n entries are loaded, and the first t slots of the new table. */
  ghost predicate Loading(k: Book, k': Book, n: int, t: int) {
    && k.Shape() && Orderly(k) && k'.Shape() && 0 <= n <= k.nNew + k.nTried
    && k'.hasher == k.hasher && k'.key == k.key
    && LoadedEntries(k, k', n, t) && LoadedTriedTable(k, k', n) && LoadedNewTable(k, k', t)
    && k'.(idCount := n).AddrBijection()
  }

  const ALL_NEW_SLOTS := NEW_BUCKET_COUNT * BUCKET_SIZE

  /** Everything is loaded: the same key, counters and tables, ids renamed to 0, 1, 2, ... */
  ghost predicate Reloaded(k: Book, k': Book) {
    && Loading(k, k', k.nNew + k.nTried, ALL_NEW_SLOTS)
    && k'.idCount == k.nNew + k.nTried && k'.nNew == k.nNew && k'.nTried == k.nTried
  }

  lemma RenCellIs(k: Book, v: int, r: int)
    requires Orderly(k) && 0 <= r < k.nNew + k.nTried
    ensures RenCell(k, v) == r <==> v == Orig(k, r)
    ensures v in k.info ==> 0 <= RenCell(k, v) < k.nNew + k.nTried && Orig(k, RenCell(k, v)) == v
  {
    RenOrig(k, r);
    if v in k.info {
      OrigRen(k, v);
    }
  }

  lemma ReloadedNewCells(k: Book, k': Book)
    requires k.Shape() && k'.Shape() && k.NewCells() && Orderly(k) && Reloaded(k, k')
    ensures k'.NewCells()
  {
    forall b, i | 0 <= b < NEW_BUCKET_COUNT && 0 <= i < BUCKET_SIZE && k'.newTable[b][i] != EMPTY
      ensures var r := k'.newTable[b][i];
        r in k'.info && !k'.info[r].fInTried && k'.NewPos(b, k'.Service(r)) == i
    {
      var v := k.newTable[b][i];
      assert v in k.info;
      OrigRen(k, v);
    }
  }

  lemma ReloadedTriedCells(k: Book, k': Book)
    requires k.Shape() && k'.Shape() && k.TriedCells() && Orderly(k) && Reloaded(k, k')
    ensures k'.TriedCells()
  {
    forall b, i | 0 <= b < TRIED_BUCKET_COUNT && 0 <= i < BUCKET_SIZE && k'.triedTable[b][i] != EMPTY
      ensures var r := k'.triedTable[b][i];
        && r in k'.info && k'.info[r].fInTried
        && k'.TriedBucket(k'.Service(r)) == b && k'.TriedPos(k'.Service(r)) == i
    {
      var v := k.triedTable[b][i];
      assert v in k.info;
      OrigRen(k, v);
    }
    forall r | r in k'.info && k'.info[r].fInTried
      ensures k'.triedTable[k'.TriedBucket(k'.Service(r))][k'.TriedPos(k'.Service(r))] == r
    {
      RenOrig(k, r);
      var v := Orig(k, r);
      assert k.triedTable[k.TriedBucket(k.Service(v))][k.TriedPos(k.Service(v))] == v;
    }
  }

  lemma ReloadedRefs(k: Book, k': Book)
    requires k.Shape() && k'.Shape() && k.Refs({}) && Orderly(k) && Reloaded(k, k')
    ensures k'.Refs({})
  {
    forall r | r in k'.info
      ensures k'.info[r].fInTried ==> k'.info[r].nRefCount == 0
      ensures !k'.info[r].fInTried ==>
                0 < k'.info[r].nRefCount == |k'.Slots(r, k'.Service(r))| <= NEW_BUCKETS_PER_ADDRESS
    {
      RenOrig(k, r);
      var v := Orig(k, r);
      var s := k.Service(v);
      forall b | 0 <= b < NEW_BUCKET_COUNT
        ensures b in k'.Slots(r, s) <==> b in k.Slots(v, s)
      {
        RenCellIs(k, k.newTable[b][k.NewPos(b, s)], r);
      }
      assert k'.Slots(r, s) == k.Slots(v, s);
      assert SlotsBefore(k, v, ALL_NEW_SLOTS) == k.Slots(v, s);
    }
  }

  /** Ids 0, 1, 2, ..., the new ones first: the counters are where they change over and where they end. */
  lemma CountsOfSplit(k: Book)
    requires k.nNew >= 0 && k.nTried >= 0
    requires forall r :: r in k.info <==> 0 <= r < k.nNew + k.nTried
    requires forall r <- k.info :: k.info[r].fInTried <==> r >= k.nNew
    ensures k.Counts({})
  {
    SizeOfInfo(k);
    hide Below;
    forall r ensures r in k.NewIds() <==> r in Below(k.nNew) {}
    var news := k.NewIds();
    assert news == Below(k.nNew) && news - {} == news;
    assert k.info.Keys == Below(k.nNew + k.nTried);
  }

  lemma ReloadedCounts(k: Book, k': Book)
    requires k.Shape() && k'.Shape() && Orderly(k) && Reloaded(k, k')
    ensures k'.Counts({})
  {
    forall r | r in k'.info
      ensures k'.info[r].fInTried <==> r >= k'.nNew
    {
    }
    CountsOfSplit(k');
  }

  /** A reloaded manager satisfies the invariant again. */
  lemma ReloadedIsValid(k: Book, k': Book)
    requires k.Valid() && k'.Shape() && k'.RandomInverse() && Orderly(k) && Reloaded(k, k')
    ensures k'.Valid()
  {
    assert k'.(idCount := k.nNew + k.nTried) == k';
    hide Book.RandomInverse, Book.AddrBijection, Book.NewCells, Book.TriedCells, Book.Refs, Book.Counts, Orderly;
    ReloadedNewCells(k, k');
    ReloadedTriedCells(k, k');
    ReloadedRefs(k, k');
    ReloadedCounts(k, k');
  }

  // ---------------------------------------------------------------- loading, step by step

  lemma LoadingStart(k: Book, k': Book)
    requires k.Valid() && Orderly(k) && k'.Shape() && k'.hasher == k.hasher && k'.key == k.key
    requires k'.info == map[] && k'.addr == map[]
    requires k'.triedTable == EmptyTable(TRIED_BUCKET_COUNT) && k'.newTable == EmptyTable(NEW_BUCKET_COUNT)
    ensures Loading(k, k', 0, 0)
  {
    hide Book.RandomInverse, Book.NewCells, Book.Refs, Book.Counts, NewOrder, TriedOrder;
    forall b, i | 0 <= b < TRIED_BUCKET_COUNT && 0 <= i < BUCKET_SIZE
      ensures RenCell(k, k.triedTable[b][i]) < 0 ==> RenCell(k, k.triedTable[b][i]) == EMPTY
    {
    }
  }

  lemma TargetAtStart(k: Book, r: int)
    requires k.Shape() && Orderly(k) && 0 <= r < k.nNew + k.nTried
    ensures Orig(k, r) in k.info
    ensures Target(k, r, 0).(fInTried := r >= k.nNew) ==
            Restore(Persist(k.info[Orig(k, r)])).(nRandomPos := r, fInTried := r >= k.nNew)
  {
    RenOrig(k, r);
    assert SlotsBefore(k, Orig(k, r), 0) == {};
  }

  /** Reading one more entry keeps the addresses and the ids in step. */
  lemma WithEntryAddr(k: Book, k1: Book, r: int, e: AddrInfo)
    requires k.AddrBijection() && Orderly(k) && 0 <= r < k.nNew + k.nTried
    requires forall j :: j in k1.info <==> 0 <= j < r
    requires forall j | 0 <= j <= r :: Orig(k, j) in k.info
    requires forall j | 0 <= j < r :: k1.info[j].Ip() == k.info[Orig(k, j)].Ip()
    requires k1.(idCount := r).AddrBijection() && e.Ip() == k.info[Orig(k, r)].Ip()
    ensures WithEntry(k1, r, e).(idCount := r + 1).AddrBijection()
  {
    forall j | 0 <= j < r
      ensures k1.info[j].Ip() != e.Ip()
    {
      RenOrig(k, j);
      RenOrig(k, r);
    }
  }

  lemma EntryStep(k: Book, k1: Book, k2: Book, n: int, e: AddrInfo)
    requires k.Shape() && Orderly(k) && 0 <= n < k.nNew + k.nTried && LoadedEntries(k, k1, n, 0)
    requires Orig(k, n) in k.info && e == Target(k, n, 0).(fInTried := n >= k.nNew) && k2.info == k1.info[n := e]
    ensures LoadedEntries(k, k2, n + 1, 0)
  {
    hide NewOrder, TriedOrder, Orig, Target;
    assert k.idCount >= 0;
  }

  lemma LoadNewStep(k: Book, k1: Book, n: int)
    requires k.Valid() && Orderly(k) && k1.Shape() && 0 <= n < k.nNew && Loading(k, k1, n, 0) && |k1.random| == n
    ensures Orig(k, n) in k.info
    ensures Loading(k, WithEntry(k1, n, Restore(Persist(k.info[Orig(k, n)]))), n + 1, 0)
  {
    assert k.nNew >= 0 && k.nTried >= 0 && k.idCount >= 0;
    hide Book.RandomInverse, Book.NewCells, Book.Refs, Book.Counts, NewOrder, TriedOrder, Orderly, Orig;
    TargetAtStart(k, n);
    var e := Restore(Persist(k.info[Orig(k, n)]));
    var k2 := WithEntry(k1, n, e);
    LoadedIps(k, k1, n);
    WithEntryAddr(k, k1, n, e);
    EntryStep(k, k1, k2, n, e.(nRandomPos := n));
    forall b, i | 0 <= b < TRIED_BUCKET_COUNT && 0 <= i < BUCKET_SIZE
      ensures RenCell(k, k.triedTable[b][i]) != n
    {
      NewHasNoTriedCell(k, n, b, i);
    }
    hide LoadedEntries, Book.AddrBijection, Book.TriedCells;
    assert LoadedTriedTable(k, k2, n + 1);
  }

  lemma LoadedIps(k: Book, k1: Book, n: int)
    requires k.Shape() && Orderly(k) && 0 <= n < k.nNew + k.nTried && LoadedEntries(k, k1, n, 0)
    ensures k.idCount >= 0
    ensures forall j | 0 <= j <= n :: Orig(k, j) in k.info
    ensures forall j | 0 <= j < n :: j in k1.info && k1.info[j].Ip() == k.info[Orig(k, j)].Ip()
  {
    RenOrig(k, n);
  }

  lemma NewHasNoTriedCell(k: Book, n: int, b: int, i: int)
    requires k.Shape() && k.TriedCells() && Orderly(k) && 0 <= n < k.nNew
    requires 0 <= b < TRIED_BUCKET_COUNT && 0 <= i < BUCKET_SIZE
    ensures RenCell(k, k.triedTable[b][i]) != n
  {
    RenOrig(k, n);
    RenCellIs(k, k.triedTable[b][i], n);
  }

  /** The tried slot of the next tried entry is still free, so none is lost. */
  lemma LoadTriedStep(k: Book, k1: Book, n: int)
    requires k.Valid() && Orderly(k) && k1.Shape() && k.nNew <= n < k.nNew + k.nTried && Loading(k, k1, n, 0)
    requires |k1.random| == n
    ensures Orig(k, n) in k.info
    ensures var e := Restore(Persist(k.info[Orig(k, n)]));
      var b := k1.TriedBucket(e.addr.service);
      var i := k1.TriedPos(e.addr.service);
      && k1.triedTable[b][i] == EMPTY
      && Loading(k, WithEntry(k1, n, e.(fInTried := true)).(triedTable := Put(k1.triedTable, b, i, n)), n + 1, 0)
  {
    assert k.nNew >= 0 && k.nTried >= 0 && k.idCount >= 0;
    hide Book.RandomInverse, Book.NewCells, Book.Refs, Book.Counts, NewOrder, TriedOrder, Orderly, Orig;
    TargetAtStart(k, n);
    var e := Restore(Persist(k.info[Orig(k, n)]));
    var b := k1.TriedBucket(e.addr.service);
    var i := k1.TriedPos(e.addr.service);
    var k2 := WithEntry(k1, n, e.(fInTried := true)).(triedTable := Put(k1.triedTable, b, i, n));
    LoadedIps(k, k1, n);
    WithEntryAddr(k, k1, n, e.(fInTried := true));
    EntryStep(k, k1, k2, n, e.(nRandomPos := n, fInTried := true));
    forall c, j | 0 <= c < TRIED_BUCKET_COUNT && 0 <= j < BUCKET_SIZE
      ensures RenCell(k, k.triedTable[c][j]) == n <==> c == b && j == i
    {
      TriedHasItsCell(k, n, c, j);
    }
    hide LoadedEntries, Book.AddrBijection, Book.TriedCells;
    assert LoadedTriedTable(k, k2, n + 1);
  }

  lemma TriedHasItsCell(k: Book, n: int, b: int, i: int)
    requires k.Shape() && k.TriedCells() && Orderly(k) && k.nNew <= n < k.nNew + k.nTried
    requires 0 <= b < TRIED_BUCKET_COUNT && 0 <= i < BUCKET_SIZE
    ensures Orig(k, n) in k.info
    ensures RenCell(k, k.triedTable[b][i]) == n <==>
            b == k.TriedBucket(k.Service(Orig(k, n))) && i == k.TriedPos(k.Service(Orig(k, n)))
  {
    RenOrig(k, n);
    RenCellIs(k, k.triedTable[b][i], n);
  }

  /** An empty slot was not saved: passing it changes nothing. */
  lemma SkipSlot(k: Book, k1: Book, b: int, i: int)
    requires k.Shape() && Orderly(k) && k1.Shape() && 0 <= k.nNew + k.nTried
    requires 0 <= b < NEW_BUCKET_COUNT && 0 <= i < BUCKET_SIZE && k.newTable[b][i] < 0
    requires Loading(k, k1, k.nNew + k.nTried, b * BUCKET_SIZE + i)
    ensures Loading(k, k1, k.nNew + k.nTried, b * BUCKET_SIZE + i + 1)
  {
    hide NewOrder, TriedOrder, Book.AddrBijection;
    forall r | 0 <= r < k.nNew + k.nTried
      ensures Orig(k, r) in k.info && Target(k, r, b * BUCKET_SIZE + i + 1) == Target(k, r, b * BUCKET_SIZE + i)
    {
      RenOrig(k, r);
      SlotsNext(k, Orig(k, r), b, i);
    }
  }

  /** The entry of an occupied slot is loaded, hashes to that slot, and has references to spare. */
  lemma SlotFacts(k: Book, k1: Book, b: int, i: int)
    requires k.Valid() && Orderly(k) && k1.Shape() && 0 <= k.nNew + k.nTried
    requires 0 <= b < NEW_BUCKET_COUNT && 0 <= i < BUCKET_SIZE && k.newTable[b][i] >= 0
    requires Loading(k, k1, k.nNew + k.nTried, b * BUCKET_SIZE + i)
    ensures var v := k.newTable[b][i];
      && v in k.info && !k.info[v].fInTried
      && var r := |NewOrder(k, v)|;
         && r == Ren(k, v) && 0 <= r < k.nNew && r in k1.info && k1.NewPos(b, k1.Service(r)) == i
         && k1.newTable[b][i] == EMPTY && k1.info[r].nRefCount < NEW_BUCKETS_PER_ADDRESS
  {
    hide Book.RandomInverse, Book.TriedCells, Book.Counts, NewOrder;
    hide TriedOrder, Orig, Book.AddrBijection, LoadedTriedTable;
    var v := k.newTable[b][i];
    assert v in k.info && !k.info[v].fInTried;
    OrigRen(k, v);
    assert Ren(k, v) in k1.info;
    RoomForOne(k, v, b, i);
  }

  /** An occupied slot gives its entry one more reference, in the slot the entry hashes to, which is free. */
  lemma LoadSlotStep(k: Book, k1: Book, b: int, i: int)
    requires k.Valid() && Orderly(k) && k1.Shape() && 0 <= k.nNew + k.nTried
    requires 0 <= b < NEW_BUCKET_COUNT && 0 <= i < BUCKET_SIZE && k.newTable[b][i] >= 0
    requires Loading(k, k1, k.nNew + k.nTried, b * BUCKET_SIZE + i)
    ensures var v := k.newTable[b][i];
      && v in k.info && Ren(k, v) in k1.info
      && Loading(k, AddRef(k1, b, i, Ren(k, v)), k.nNew + k.nTried, b * BUCKET_SIZE + i + 1)
  {
    hide Book.RandomInverse, Book.TriedCells, Book.Counts, Book.Refs, NewOrder, TriedOrder, Orig, Book.AddrBijection;
    hide LoadedTriedTable, LoadedEntries, Orderly, Ren;
    SlotFacts(k, k1, b, i);
    var v := k.newTable[b][i];
    var k2 := AddRef(k1, b, i, Ren(k, v));
    LoadSlotEntries(k, k1, k2, b, i);
    SameAddresses(k1, k2, k.nNew + k.nTried);
    SameTriedTable(k, k1, k2, k.nNew + k.nTried);
    assert LoadedNewTable(k, k2, b * BUCKET_SIZE + i + 1);
  }

  lemma SameTriedTable(k: Book, k1: Book, k2: Book, n: int)
    requires k.Shape() && k1.Shape() && k2.Shape() && LoadedTriedTable(k, k1, n) && k2.triedTable == k1.triedTable
    ensures LoadedTriedTable(k, k2, n)
  {
  }

  lemma SameAddresses(k1: Book, k2: Book, n: int)
    requires k1.(idCount := n).AddrBijection() && SameHomes(k1, k2) && k2.addr == k1.addr
    ensures k2.(idCount := n).AddrBijection()
  {
  }

  /** Before the slot (b, i) is read, its entry has met fewer than eight of its slots. */
  lemma RoomForOne(k: Book, v: int, b: int, i: int)
    requires k.Shape() && k.NewCells() && k.Refs({}) && 0 <= b < NEW_BUCKET_COUNT && 0 <= i < BUCKET_SIZE
    requires v == k.newTable[b][i] && v in k.info && v != EMPTY
    ensures |SlotsBefore(k, v, b * BUCKET_SIZE + i)| < NEW_BUCKETS_PER_ADDRESS
  {
    var s := SlotsBefore(k, v, b * BUCKET_SIZE + i);
    assert b in k.Slots(v, k.Service(v)) && b !in s;
    SubsetSize(s + {b}, k.Slots(v, k.Service(v)));
  }

  lemma LoadSlotEntries(k: Book, k1: Book, k2: Book, b: int, i: int)
    requires k.Shape() && k.NewCells() && Orderly(k) && k1.Shape() && 0 <= k.nNew + k.nTried
    requires 0 <= b < NEW_BUCKET_COUNT && 0 <= i < BUCKET_SIZE && k.newTable[b][i] in k.info && k.newTable[b][i] >= 0
    requires LoadedEntries(k, k1, k.nNew + k.nTried, b * BUCKET_SIZE + i)
    requires var r := Ren(k, k.newTable[b][i]);
      r in k1.info && k2.info == k1.info[r := k1.info[r].(nRefCount := k1.info[r].nRefCount + 1)]
    ensures LoadedEntries(k, k2, k.nNew + k.nTried, b * BUCKET_SIZE + i + 1)
  {
    hide NewOrder, TriedOrder, Orig;
    var v := k.newTable[b][i];
    var t := b * BUCKET_SIZE + i;
    OrigRen(k, v);
    forall r | 0 <= r < k.nNew + k.nTried
      ensures Orig(k, r) in k.info
      ensures r != Ren(k, v) ==> Target(k, r, t + 1) == Target(k, r, t)
      ensures r == Ren(k, v) ==> Target(k, r, t + 1) == Target(k, r, t).(nRefCount := Target(k, r, t).nRefCount + 1)
    {
      RenOrig(k, r);
      SlotsNext(k, Orig(k, r), b, i);
    }
  }

  /** The next saved index belongs to the next occupied slot of the bucket. */
  lemma {:induction false} NextOccupied(k: Book, b: int, i: nat) returns (j: nat)
    requires k.Shape() && 0 <= b < NEW_BUCKET_COUNT && i <= BUCKET_SIZE
    requires |BucketIndexes(k, b, i)| < |BucketIndexes(k, b, BUCKET_SIZE)|
    ensures i <= j < BUCKET_SIZE && k.newTable[b][j] >= 0
    ensures forall c | i <= c < j :: k.newTable[b][c] < 0
    ensures BucketIndexes(k, b, j) == BucketIndexes(k, b, i)
    ensures BucketIndexes(k, b, j + 1) == BucketIndexes(k, b, i) + [|NewOrder(k, k.newTable[b][j])|]
    decreases BUCKET_SIZE - i
  {
    if k.newTable[b][i] >= 0 {
      j := i;
    } else {
      j := NextOccupied(k, b, i + 1);
    }
  }

  lemma {:induction false} IndexesGrow(k: Book, b: int, i: nat, j: nat)
    requires k.Shape() && 0 <= b < NEW_BUCKET_COUNT && i <= j <= BUCKET_SIZE
    ensures BucketIndexes(k, b, i) <= BucketIndexes(k, b, j)
  {
    if i < j {
      IndexesGrow(k, b, i, j - 1);
    }
  }

  lemma {:induction false} SkipSlots(k: Book, k1: Book, b: int, i: nat, j: nat)
    requires k.Shape() && Orderly(k) && k1.Shape() && 0 <= k.nNew + k.nTried
    requires 0 <= b < NEW_BUCKET_COUNT && i <= j <= BUCKET_SIZE && forall c | i <= c < j :: k.newTable[b][c] < 0
    requires Loading(k, k1, k.nNew + k.nTried, b * BUCKET_SIZE + i)
    ensures Loading(k, k1, k.nNew + k.nTried, b * BUCKET_SIZE + j)
    decreases j - i
  {
    hide Loading, Orderly;
    if i < j {
      SkipSlot(k, k1, b, i);
      SkipSlots(k, k1, b, i + 1, j);
    }
  }

  /** No saved index is left: the rest of the bucket is empty. */
  lemma {:induction false} RestIsEmpty(k: Book, b: int, i: nat)
    requires k.Shape() && 0 <= b < NEW_BUCKET_COUNT && i <= BUCKET_SIZE
    requires |BucketIndexes(k, b, i)| == |BucketIndexes(k, b, BUCKET_SIZE)|
    ensures forall c | i <= c < BUCKET_SIZE :: k.newTable[b][c] < 0
    decreases BUCKET_SIZE - i
  {
    if i < BUCKET_SIZE {
      IndexesGrow(k, b, i + 1, BUCKET_SIZE);
      RestIsEmpty(k, b, i + 1);
    }
  }

  // ---------------------------------------------------------------- loading, as a whole

  /** The file is what the manager with these indexes was saved as. */
  ghost predicate SavedFrom(file: PeersFile, k: Book) {
    k.Shape() && k.Valid() && Orderly(k) && k.nNew >= 0 && k.nTried >= 0 && file == FileOf(k)
  }

  lemma SavedCounts(k: Book)
    requires Orderly(k) && k.Shape()
    ensures var file := FileOf(k);
      && file.nVersion == 1 && file.nKeySize == 32 && file.nKey == k.key && file.nNew == k.nNew
      && file.nTried == k.nTried
      && file.HasSlots() && file.Whole()
      && |file.buckets| == NEW_BUCKET_COUNT
      && (forall b | 0 <= b < NEW_BUCKET_COUNT :: file.buckets[b] == BucketIndexes(k, b, BUCKET_SIZE))
  {
  }

  lemma SavedEntries(k: Book, r: int)
    requires Orderly(k) && k.Shape() && 0 <= r < k.nNew + k.nTried
    ensures var file := FileOf(k);
      && Orig(k, r) in k.info
      && (r < k.nNew ==> r < |file.newEntries| && file.newEntries[r] == Persist(k.info[Orig(k, r)]))
      && (r >= k.nNew ==>
            r - k.nNew < |file.triedEntries| && file.triedEntries[r - k.nNew] == Persist(k.info[Orig(k, r)]))
  {
    RenOrig(k, r);
  }

  lemma LoadingIgnoresCounts(k: Book, k1: Book, n: int, nTried: int, t: int)
    ensures Loading(k, k1, n, t) <==> Loading(k, k1.(nTried := nTried), n, t)
    ensures forall c :: Loading(k, k1.(idCount := c), n, t) <==> Loading(k, k1, n, t)
  {
    forall c
      ensures Loading(k, k1.(idCount := c), n, t) <==> Loading(k, k1, n, t)
    {
      assert k1.(idCount := c).(idCount := n) == k1.(idCount := n);
    }
  }

  /** The next tried entry of a saved manager finds its slot free, and loading has come one entry further. */
  lemma LoadTriedNext(k: Book, k1: Book, n: int)
    requires k.Valid() && Orderly(k) && k1.Shape() && k.nNew <= n < k.nNew + k.nTried && Loading(k, k1, n, 0)
    requires |k1.random| == n && k1.idCount == n
    ensures Orig(k, n) in k.info
    ensures var e := Restore(Persist(k.info[Orig(k, n)]));
      && k1.triedTable[k1.TriedBucket(e.addr.service)][k1.TriedPos(e.addr.service)] == EMPTY
      && WithTried(k1, n, e).Shape() && |WithTried(k1, n, e).random| == n + 1
      && Loading(k, WithTried(k1, n, e), n + 1, 0)
  {
    LoadTriedStep(k, k1, n);
    assert k.Shape() && k.idCount >= 0;
    hide Loading, Orderly, Book.Inv, Orig, NewOrder, TriedOrder;
    var e := Restore(Persist(k.info[Orig(k, n)]));
    var s := e.addr.service;
    var table := Put(k1.triedTable, k1.TriedBucket(s), k1.TriedPos(s), n);
    var k2 := WithEntry(k1, n, e.(fInTried := true)).(triedTable := table);
    LoadingIgnoresCounts(k, k2, n + 1, k2.nTried, 0);
    assert k2.(idCount := n + 1) == WithTried(k1, n, e);
  }

  /** The next new entry of a saved manager is there to be read, and brings loading one entry further. */
  lemma NextSaved(file: PeersFile, k: Book, k1: Book, n: nat)
    requires SavedFrom(file, k) && k1.Shape() && Loading(k, k1, n, 0) && |k1.random| == n && n < file.nNew
    ensures n < |file.newEntries|
    ensures Loading(k, NextNew(k1, file, n), n + 1, 0) && |NextNew(k1, file, n).random| == n + 1
  {
    hide Loading, Book.Inv, NewOrder, TriedOrder, Orig, FileOf;
    SavedCounts(k);
    SavedEntries(k, n);
    LoadNewStep(k, k1, n);
  }

  lemma {:induction false} SavedNew(file: PeersFile, k: Book, n: nat)
    requires SavedFrom(file, k) && n <= file.nNew
    ensures n <= |file.newEntries|
    ensures var k1 := AfterNew(Headed(k.hasher, file), file, n); Loading(k, k1, n, 0) && |k1.random| == n
  {
    hide Loading, SavedFrom, NextNew;
    if n == 0 {
      SavedStart(file, k);
    } else {
      SavedNew(file, k, n - 1);
      NextSaved(file, k, AfterNew(Headed(k.hasher, file), file, n - 1), n - 1);
    }
  }

  lemma SavedStart(file: PeersFile, k: Book)
    requires SavedFrom(file, k)
    ensures Loading(k, Headed(k.hasher, file), 0, 0) && Headed(k.hasher, file).random == []
  {
    hide Loading, Book.Inv, Orderly;
    LoadingStart(k, Headed(k.hasher, file));
  }

  /** The next tried entry of a saved manager is there, and finds its slot free. */
  lemma NextTriedSaved(file: PeersFile, k: Book, k1: Book, n: nat)
    requires SavedFrom(file, k) && k1.Shape() && n < file.nTried
    requires Loading(k, k1, file.nNew + n, 0) && |k1.random| == file.nNew + n == k1.idCount
    ensures n < |file.triedEntries|
    ensures var k' := NextTried(k1, Restore(file.triedEntries[n]));
      Loading(k, k', file.nNew + n + 1, 0) && |k'.random| == file.nNew + n + 1 == k'.idCount
  {
    hide Loading, Book.Inv, NewOrder, TriedOrder, Orig, FileOf;
    SavedCounts(k);
    SavedEntries(k, file.nNew + n);
    LoadTriedNext(k, k1, file.nNew + n);
  }

  lemma {:induction false} SavedTried(file: PeersFile, k: Book, k0: Book, n: nat)
    requires SavedFrom(file, k) && k0.Shape() && n <= file.nTried
    requires Loading(k, k0, file.nNew, 0) && |k0.random| == file.nNew == k0.idCount
    ensures n <= |file.triedEntries|
    ensures var k1 := AfterTried(k0, file, n);
      Loading(k, k1, file.nNew + n, 0) && |k1.random| == file.nNew + n == k1.idCount
  {
    hide Loading, SavedFrom, NextTried;
    if n > 0 {
      SavedTried(file, k, k0, n - 1);
      NextTriedSaved(file, k, AfterTried(k0, file, n - 1), n - 1);
    }
  }

  /** The next saved index of a saved manager is that of its next occupied slot, and gives that slot back. */
  lemma NextIndexSaved(file: PeersFile, k: Book, k1: Book, b: nat, n: nat, i: nat) returns (j: nat)
    requires SavedFrom(file, k) && k1.Shape() && b < NEW_BUCKET_COUNT
    requires b < |file.buckets| && n < |file.buckets[b]|
    requires i <= BUCKET_SIZE && file.buckets[b][..n] == BucketIndexes(k, b, i)
    requires Loading(k, k1, file.nNew + file.nTried, b * BUCKET_SIZE + i)
    ensures b < file.Buckets()
    ensures j <= BUCKET_SIZE && file.buckets[b][..n + 1] == BucketIndexes(k, b, j)
    ensures Loading(k, WithIndex(k1, file, b, file.buckets[b][n]), file.nNew + file.nTried, b * BUCKET_SIZE + j)
  {
    hide Loading, Book.Inv, Orderly, FileOf, NewOrder, TriedOrder, Orig;
    SavedCounts(k);
    j := NextOccupied(k, b, i);
    SkipSlots(k, k1, b, i, j);
    SlotFacts(k, k1, b, j);
    LoadSlotStep(k, k1, b, j);
    IndexesGrow(k, b, j + 1, BUCKET_SIZE);
    j := j + 1;
  }

  /** The first n saved indexes of a bucket are those of its first i slots, and give them back. */
  lemma {:induction false} SavedRow(file: PeersFile, k: Book, k1: Book, b: nat, n: nat) returns (i: nat)
    requires SavedFrom(file, k) && k1.Shape() && b < NEW_BUCKET_COUNT && b < |file.buckets| && n <= |file.buckets[b]|
    requires Loading(k, k1, file.nNew + file.nTried, b * BUCKET_SIZE)
    ensures b < file.Buckets()
    ensures i <= BUCKET_SIZE && k.Shape() && file.buckets[b][..n] == BucketIndexes(k, b, i)
    ensures Loading(k, AfterRow(k1, file, b, n), file.nNew + file.nTried, b * BUCKET_SIZE + i)
  {
    hide Loading, SavedFrom, WithIndex, Book.Inv, Orderly, FileOf;
    SavedRoom(file, k);
    if n == 0 {
      i := 0;
    } else {
      i := SavedRow(file, k, k1, b, n - 1);
      i := NextIndexSaved(file, k, AfterRow(k1, file, b, n - 1), b, n - 1, i);
    }
  }

  lemma SavedRoom(file: PeersFile, k: Book)
    requires SavedFrom(file, k)
    ensures file.Buckets() == NEW_BUCKET_COUNT == |file.buckets| && file.Whole() && k.Shape()
    ensures file.nNew == k.nNew >= 0 && file.nTried == k.nTried >= 0
  {
    hide Book.Inv, Orderly;
    SavedCounts(k);
  }

  lemma SavedRowEnds(file: PeersFile, k: Book, k1: Book, b: nat)
    requires SavedFrom(file, k) && k1.Shape() && b < NEW_BUCKET_COUNT && b < |file.buckets| && b < file.Buckets()
    requires Loading(k, k1, file.nNew + file.nTried, b * BUCKET_SIZE)
    ensures Loading(k, AfterRow(k1, file, b, |file.buckets[b]|), file.nNew + file.nTried, (b + 1) * BUCKET_SIZE)
  {
    hide Loading, Book.Inv, Orderly, AfterRow, FileOf, BucketIndexes;
    var row := file.buckets[b];
    var i := SavedRow(file, k, k1, b, |row|);
    assert row[..|row|] == row;
    SavedCounts(k);
    RestIsEmpty(k, b, i);
    SkipSlots(k, AfterRow(k1, file, b, |row|), b, i, BUCKET_SIZE);
  }

  lemma {:induction false} SavedBuckets(file: PeersFile, k: Book, k1: Book, b: nat)
    requires SavedFrom(file, k) && k1.Shape() && b <= NEW_BUCKET_COUNT
    requires Loading(k, k1, file.nNew + file.nTried, 0)
    ensures b <= file.Buckets() && b <= |file.buckets|
    ensures Loading(k, AfterBuckets(k1, file, b), file.nNew + file.nTried, b * BUCKET_SIZE)
  {
    SavedRoom(file, k);
    hide Loading, SavedFrom, AfterRow;
    if b > 0 {
      SavedBuckets(file, k, k1, b - 1);
      SavedRowEnds(file, k, AfterBuckets(k1, file, b - 1), b - 1);
    }
  }

  /** Reading all of the file gives the same indexes under new ids. */
  lemma SavedFilled(file: PeersFile, k: Book)
    requires SavedFrom(file, k)
    ensures file.Whole() && Reloaded(k, Filled(k.hasher, file))
  {
    hide Loading, SavedFrom, AfterNew, AfterTried, AfterBuckets, Orderly, Headed;
    SavedRoom(file, k);
    SavedNew(file, k, file.nNew);
    var k0 := AfterNew(Headed(k.hasher, file), file, file.nNew);
    var k1 := k0.(idCount := file.nNew);
    LoadingIgnoresCounts(k, k0, file.nNew, 0, 0);
    SavedTried(file, k, k1, file.nTried);
    var k2 := TriedLoaded(k0, file);
    var k3 := AfterTried(k1, file, file.nTried);
    assert k2 == k3.(nTried := k2.nTried);
    LoadingIgnoresCounts(k, k3, file.nNew + file.nTried, k2.nTried, 0);
    HeadedCounts(k.hasher, file);
    SavedBuckets(file, k, k2, NEW_BUCKET_COUNT);
  }

  lemma HeadedCounts(h: Hasher, file: PeersFile)
    ensures Headed(h, file).nNew == file.nNew && Headed(h, file).nTried == file.nTried
  {
  }

  /** Loaded again, a saved manager has the same entries in the same slots, loses nothing, and is valid. */
  lemma SavedLoads(k: Book, k': Book)
    requires k.Valid() && k.idCount >= 0
    requires var file := FileOf(k); file.Whole() ==>
      var f := Filled(k.hasher, file); Pruned(f, k', Loose(f))
    ensures var file := FileOf(k); file.Whole() && Loose(Filled(k.hasher, file)) == {}
    ensures Orderly(k) && Reloaded(k, k') && k'.Valid()
  {
    var file := FileOf(k);
    ValidIsOrderly(k);
    CountsAreNatural(k);
    hide Book.Inv, Orderly, Reloaded, Filled, Pruned, Loose, FileOf;
    SavedFilled(file, k);
    var f := Filled(k.hasher, file);
    SavedCounts(k);
    FilledSound(k.hasher, file);
    SoundOrder(f);
    ReloadedIsValid(k, f);
    NothingToPrune(f);
    NothingPruned(f, k');
  }

  lemma CountsAreNatural(k: Book)
    requires k.Valid()
    ensures k.nNew >= 0 && k.nTried >= 0 && k.Shape()
  {
  }

  lemma SoundOrder(k: Book)
    requires Counted(k)
    ensures k.RandomInverse() && k.Shape()
  {
  }

  lemma NothingPruned(k: Book, k': Book)
    requires Pruned(k, k', {})
    ensures k' == k
  {
  }

  lemma NothingToPrune(k: Book)
    requires k.Valid()
    ensures Loose(k) == {}
  {
    hide Book.RandomInverse, Book.AddrBijection, Book.NewCells, Book.TriedCells, Book.Counts;
    forall id ensures id !in Loose(k) {
    }
  }

  /** The clock clauses survive: last tries are forgotten, last successes kept. */
  lemma ReloadedTimes(k: Book, k': Book)
    requires k.Shape() && k'.Shape() && k.Times() && Orderly(k) && Reloaded(k, k')
    ensures k'.Times()
  {
    hide Orderly, NewOrder, TriedOrder;
    forall r | r in k'.info
      ensures k'.info[r].nLastTry >= 0 && k'.info[r].nLastSuccess >= 0
      ensures k'.info[r].fInTried ==> k'.info[r].nLastSuccess != 0
    {
      RenOrig(k, r);
    }
  }

  lemma LoadedKey(k: Book, k': Book)
    requires k.Shape() && k'.Shape() && Orderly(k) && Reloaded(k, k')
    ensures k'.key == k.key
  {
  }
}
