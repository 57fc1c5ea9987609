/** The abstract state of the address manager, its invariant, and the steps that keep it. */
module AddrBook {
  import opened AddrTypes

  type Grid = seq<seq<int>>

  ghost predicate Dim(g: Grid, rows: nat) {
    |g| == rows && forall b | 0 <= b < rows :: |g[b]| == BUCKET_SIZE
  }

  /** The grid with one cell written. */
  ghost function Put(g: Grid, b: int, i: int, v: int): (r: Grid)
    requires 0 <= b < |g| && 0 <= i < |g[b]|
    ensures |r| == |g| && forall c | 0 <= c < |g| :: |r[c]| == |g[c]|
  {
    g[b := g[b][i := v]]
  }

  datatype Book = Book(
    hasher: Hasher,
    key: Key,
    idCount: int,
    info: map<int, AddrInfo>,
    addr: map<NetAddr, int>,
    random: seq<int>,
    triedTable: Grid,
    newTable: Grid,
    nTried: int,
    nNew: int)
  {
    ghost predicate Shape() {
      Dim(triedTable, TRIED_BUCKET_COUNT) && Dim(newTable, NEW_BUCKET_COUNT)
    }

    ghost function Service(id: int): Service
      requires id in info
    {
      info[id].addr.service
    }

    ghost function NewPos(b: int, s: Service): nat { hasher.Position(key, true, b, s) }

    ghost function TriedBucket(s: Service): nat { hasher.TriedBucket(key, s) }

    ghost function TriedPos(s: Service): nat { hasher.Position(key, false, TriedBucket(s), s) }

    /** The new buckets in which id sits at the position its service hashes to. */
    ghost function Slots(id: int, s: Service): set<int>
      requires Shape()
    {
      set b | 0 <= b < NEW_BUCKET_COUNT && newTable[b][NewPos(b, s)] == id
    }

    ghost function TriedIds(): set<int> { set id | id in info && info[id].fInTried }

    ghost function NewIds(): set<int> { set id | id in info && !info[id].fInTried }

    /** random lists every id once, and nRandomPos is its inverse. */
    ghost predicate RandomInverse() {
      && (forall id <- info :: 0 <= info[id].nRandomPos < |random| && random[info[id].nRandomPos] == id)
      && (forall i | 0 <= i < |random| :: random[i] in info && info[random[i]].nRandomPos == i)
    }

    /** addr and info are in bijection, and ids come from the counter. */
    ghost predicate AddrBijection() {
      && 0 <= idCount
      && (forall id <- info :: 0 <= id < idCount && info[id].Ip() in addr && addr[info[id].Ip()] == id)
      && (forall ip <- addr :: addr[ip] in info && info[addr[ip]].Ip() == ip)
    }

    ghost predicate NewCells()
      requires Shape()
    {
      forall b, i {:trigger newTable[b][i]} | 0 <= b < NEW_BUCKET_COUNT && 0 <= i < BUCKET_SIZE ::
        var id := newTable[b][i];
        id != EMPTY ==> id in info && !info[id].fInTried && NewPos(b, Service(id)) == i
    }

    ghost predicate TriedCells()
      requires Shape()
    {
      && (forall b, i {:trigger triedTable[b][i]} | 0 <= b < TRIED_BUCKET_COUNT && 0 <= i < BUCKET_SIZE ::
            var id := triedTable[b][i];
            id != EMPTY ==>
              id in info && info[id].fInTried && TriedBucket(Service(id)) == b && TriedPos(Service(id)) == i)
      && (forall id <- info | info[id].fInTried :: triedTable[TriedBucket(Service(id))][TriedPos(Service(id))] == id)
    }

    /** The reference count is the number of slots: none when tried, at most eight,
        and none for exactly the new entries in loose. */
    ghost predicate Refs(loose: set<int>)
      requires Shape()
    {
      && loose <= NewIds()
      && (forall id <- info | info[id].fInTried :: info[id].nRefCount == 0)
      && (forall id <- info | !info[id].fInTried ::
            && info[id].nRefCount == |Slots(id, Service(id))| <= NEW_BUCKETS_PER_ADDRESS
            && (id in loose <==> info[id].nRefCount == 0))
    }

    /** The two counters; the ids in uncounted are in neither. */
    ghost predicate Counts(uncounted: set<int>) {
      && nTried == |TriedIds()|
      && uncounted <= NewIds()
      && nNew == |NewIds() - uncounted|
    }

    ghost predicate Inv(loose: set<int>, uncounted: set<int>) {
      && Shape() && RandomInverse() && AddrBijection()
      && NewCells() && TriedCells() && Refs(loose) && Counts(uncounted)
    }

    /** The structural invariant, which holds between any two operations. */
    ghost predicate Valid() { Inv({}, {}) }

    /** The clock part of the invariant: it depends on the times callers pass in. */
    ghost predicate Times() {
      forall id <- info ::
        && info[id].nLastTry >= 0 && info[id].nLastSuccess >= 0
        && (info[id].fInTried ==> info[id].nLastSuccess != 0)
    }
  }

  // ---------------------------------------------------------------- frames

  /** The same ids, each with the service, the table and the random position it had. */
  ghost predicate SameHomes(k: Book, k': Book) {
    && k'.hasher == k.hasher && k'.key == k.key
    && k'.info.Keys == k.info.Keys
    && (forall id :: id in k'.info <==> id in k.info)
    && (forall id <- k.info ::
          && k'.info[id].addr.service == k.info[id].addr.service
          && k'.info[id].nRandomPos == k.info[id].nRandomPos)
  }

  ghost predicate SameSides(k: Book, k': Book)
    requires SameHomes(k, k')
  {
    forall id <- k.info :: k'.info[id].fInTried == k.info[id].fInTried
  }

  lemma IdsFramed(k: Book, k': Book)
    requires SameHomes(k, k') && SameSides(k, k')
    ensures k'.TriedIds() == k.TriedIds() && k'.NewIds() == k.NewIds()
  {
    forall id | id in k.info
      ensures k'.info[id].fInTried == k.info[id].fInTried
    {
    }
  }

  lemma IndexesFramed(k: Book, k': Book)
    requires SameHomes(k, k') && k'.random == k.random && k'.addr == k.addr && k'.idCount == k.idCount
    ensures k.RandomInverse() ==> k'.RandomInverse()
    ensures k.AddrBijection() ==> k'.AddrBijection()
  {
  }

  lemma TriedFramed(k: Book, k': Book)
    requires SameHomes(k, k') && SameSides(k, k') && k'.triedTable == k.triedTable
    requires k.Shape() && k'.Shape() && k.TriedCells()
    ensures k'.TriedCells()
  {
  }

  lemma CountsFramed(k: Book, k': Book, uncounted: set<int>)
    requires SameHomes(k, k') && SameSides(k, k') && k'.nTried == k.nTried && k'.nNew == k.nNew
    requires k.Counts(uncounted)
    ensures k'.Counts(uncounted)
  {
    IdsFramed(k, k');
  }

  lemma NewFramed(k: Book, k': Book, loose: set<int>)
    requires SameHomes(k, k') && SameSides(k, k') && k'.newTable == k.newTable
    requires k.Shape() && k'.Shape() && k.NewCells() && k.Refs(loose)
    requires forall id <- k.info :: k'.info[id].nRefCount == k.info[id].nRefCount
    ensures k'.NewCells() && k'.Refs(loose)
  {
    IdsFramed(k, k');
    forall id, s ensures k'.Slots(id, s) == k.Slots(id, s) {}
  }

  // ---------------------------------------------------------------- steps

  /** Only fields of one entry that place nothing differ. */
  ghost predicate Touched(k: Book, k': Book, id: int) {
    && id in k.info && id in k'.info
    && k' == k.(info := k'.info)
    && k'.info == k.info[id := k'.info[id]]
    && k.info[id].SamePlace(k'.info[id])
  }

  lemma TouchKeeps(k: Book, k': Book, id: int, loose: set<int>, uncounted: set<int>)
    requires k.Inv(loose, uncounted) && Touched(k, k', id)
    ensures k'.Inv(loose, uncounted)
  {
    IndexesFramed(k, k');
    TriedFramed(k, k');
    CountsFramed(k, k', uncounted);
    NewFramed(k, k', loose);
  }

  /** Writing v into a new slot adds the bucket to v's slots and takes it from the former holder's. */
  lemma SlotsAfterPut(k: Book, k': Book, b: int, i: int, v: int, id: int, s: Service)
    requires k.Shape() && k'.Shape() && k'.key == k.key && k'.hasher == k.hasher
    requires 0 <= b < NEW_BUCKET_COUNT && 0 <= i < BUCKET_SIZE && k'.newTable == Put(k.newTable, b, i, v)
    ensures k'.Slots(id, s) ==
            if k.NewPos(b, s) != i then k.Slots(id, s)
            else if v == id then k.Slots(id, s) + {b}
            else k.Slots(id, s) - {b}
  {
  }

  /** One reference given up: the slot (b, i) emptied, its entry's count lowered. */
  ghost function DropRef(k: Book, b: int, i: int): Book
    requires k.Shape() && 0 <= b < NEW_BUCKET_COUNT && 0 <= i < BUCKET_SIZE && k.newTable[b][i] in k.info
  {
    var id := k.newTable[b][i];
    k.(newTable := Put(k.newTable, b, i, EMPTY),
       info := k.info[id := k.info[id].(nRefCount := k.info[id].nRefCount - 1)])
  }

  lemma HolderHasSlot(k: Book, b: int, i: int, loose: set<int>)
    requires k.Shape() && k.NewCells() && k.Refs(loose)
    requires 0 <= b < NEW_BUCKET_COUNT && 0 <= i < BUCKET_SIZE && k.newTable[b][i] != EMPTY
    ensures var id := k.newTable[b][i];
      && id in k.info && !k.info[id].fInTried && id !in loose && k.info[id].nRefCount > 0
      && k.NewPos(b, k.Service(id)) == i && b in k.Slots(id, k.Service(id))
  {
    assert b in k.Slots(k.newTable[b][i], k.Service(k.newTable[b][i]));
  }

  lemma SlotsAfterDrop(k: Book, b: int, i: int, id: int, s: Service)
    requires k.Shape() && 0 <= b < NEW_BUCKET_COUNT && 0 <= i < BUCKET_SIZE && k.newTable[b][i] in k.info
    requires id == k.newTable[b][i] ==> k.NewPos(b, s) == i
    requires id != EMPTY
    ensures DropRef(k, b, i).Slots(id, s) == if id == k.newTable[b][i] then k.Slots(id, s) - {b} else k.Slots(id, s)
  {
    SlotsAfterPut(k, DropRef(k, b, i), b, i, EMPTY, id, s);
    if id != k.newTable[b][i] && k.NewPos(b, s) == i {
      assert b !in k.Slots(id, s);
    }
  }

  lemma DropRefSlots(k: Book, b: int, i: int, loose: set<int>)
    requires k.Shape() && k.NewCells() && k.Refs(loose) && EMPTY !in k.info
    requires 0 <= b < NEW_BUCKET_COUNT && 0 <= i < BUCKET_SIZE && k.newTable[b][i] != EMPTY
    ensures var id := k.newTable[b][i];
      && id in k.info
      && DropRef(k, b, i).NewCells()
      && DropRef(k, b, i).Refs(if k.info[id].nRefCount == 1 then loose + {id} else loose)
  {
    HolderHasSlot(k, b, i, loose);
    var id := k.newTable[b][i];
    var k' := DropRef(k, b, i);
    IdsFramed(k, k');
    forall j | j in k.info && !k.info[j].fInTried
      ensures k'.info[j].nRefCount == |k'.Slots(j, k'.Service(j))| <= NEW_BUCKETS_PER_ADDRESS
    {
      SlotsAfterDrop(k, b, i, j, k.Service(j));
    }
  }

  lemma DropRefKeeps(k: Book, b: int, i: int, loose: set<int>, uncounted: set<int>)
    requires k.Inv(loose, uncounted)
    requires 0 <= b < NEW_BUCKET_COUNT && 0 <= i < BUCKET_SIZE && k.newTable[b][i] != EMPTY
    ensures var id := k.newTable[b][i];
      && id in k.info && id !in loose && k.info[id].nRefCount > 0
      && DropRef(k, b, i).Inv(if k.info[id].nRefCount == 1 then loose + {id} else loose, uncounted)
  {
    HolderHasSlot(k, b, i, loose);
    var k' := DropRef(k, b, i);
    IndexesFramed(k, k');
    TriedFramed(k, k');
    CountsFramed(k, k', uncounted);
    DropRefSlots(k, b, i, loose);
  }

  /** One reference gained: the entry id written into the empty slot (b, i). */
  ghost function AddRef(k: Book, b: int, i: int, id: int): Book
    requires k.Shape() && 0 <= b < NEW_BUCKET_COUNT && 0 <= i < BUCKET_SIZE && id in k.info
  {
    k.(newTable := Put(k.newTable, b, i, id),
       info := k.info[id := k.info[id].(nRefCount := k.info[id].nRefCount + 1)])
  }

  lemma SlotsAfterAdd(k: Book, b: int, i: int, id: int, j: int, s: Service)
    requires k.Shape() && 0 <= b < NEW_BUCKET_COUNT && 0 <= i < BUCKET_SIZE && k.newTable[b][i] == EMPTY
    requires id in k.info && (j == id ==> k.NewPos(b, s) == i) && j != EMPTY
    ensures AddRef(k, b, i, id).Slots(j, s) == if j == id then k.Slots(j, s) + {b} else k.Slots(j, s)
    ensures j == id ==> b !in k.Slots(j, s)
  {
    SlotsAfterPut(k, AddRef(k, b, i, id), b, i, id, j, s);
    if k.NewPos(b, s) == i {
      assert b !in k.Slots(j, s);
    }
  }

  lemma AddRefSlots(k: Book, b: int, i: int, id: int, loose: set<int>)
    requires k.Shape() && k.NewCells() && k.Refs(loose) && EMPTY !in k.info
    requires 0 <= b < NEW_BUCKET_COUNT && 0 <= i < BUCKET_SIZE && k.newTable[b][i] == EMPTY
    requires id in k.info && !k.info[id].fInTried && k.NewPos(b, k.Service(id)) == i
    requires k.info[id].nRefCount < NEW_BUCKETS_PER_ADDRESS
    ensures AddRef(k, b, i, id).NewCells() && AddRef(k, b, i, id).Refs(loose - {id})
  {
    var k' := AddRef(k, b, i, id);
    IdsFramed(k, k');
    forall j | j in k.info && !k.info[j].fInTried
      ensures k'.info[j].nRefCount == |k'.Slots(j, k'.Service(j))| <= NEW_BUCKETS_PER_ADDRESS
    {
      SlotsAfterAdd(k, b, i, id, j, k.Service(j));
    }
  }

  lemma AddRefKeeps(k: Book, b: int, i: int, id: int, loose: set<int>, uncounted: set<int>)
    requires k.Inv(loose, uncounted)
    requires 0 <= b < NEW_BUCKET_COUNT && 0 <= i < BUCKET_SIZE && k.newTable[b][i] == EMPTY
    requires id in k.info && !k.info[id].fInTried && k.NewPos(b, k.Service(id)) == i
    requires k.info[id].nRefCount < NEW_BUCKETS_PER_ADDRESS
    ensures AddRef(k, b, i, id).Inv(loose - {id}, uncounted)
  {
    var k' := AddRef(k, b, i, id);
    IndexesFramed(k, k');
    TriedFramed(k, k');
    CountsFramed(k, k', uncounted);
    AddRefSlots(k, b, i, id, loose);
  }

  /** A tried entry taken out of its slot; it is in no table and in no counter. */
  ghost function Demote(k: Book, id: int): Book
    requires k.Shape() && id in k.info
  {
    var s := k.Service(id);
    k.(triedTable := Put(k.triedTable, k.TriedBucket(s), k.TriedPos(s), EMPTY),
       info := k.info[id := k.info[id].(fInTried := false)],
       nTried := k.nTried - 1)
  }

  lemma DemoteCells(k: Book, id: int)
    requires k.Shape() && k.NewCells() && k.TriedCells() && EMPTY !in k.info
    requires id in k.info && k.info[id].fInTried
    ensures Demote(k, id).NewCells() && Demote(k, id).TriedCells()
  {
  }

  lemma DemoteRefs(k: Book, id: int, loose: set<int>)
    requires k.Shape() && k.NewCells() && k.Refs(loose) && EMPTY !in k.info
    requires id in k.info && k.info[id].fInTried
    ensures Demote(k, id).Refs(loose + {id})
  {
    var k' := Demote(k, id);
    assert k'.NewIds() == k.NewIds() + {id};
    assert k'.Slots(id, k.Service(id)) == {};
    forall j, s ensures k'.Slots(j, s) == k.Slots(j, s) {}
  }

  lemma DemoteCounts(k: Book, id: int, uncounted: set<int>)
    requires k.Shape() && k.Counts(uncounted) && id in k.info && k.info[id].fInTried
    ensures Demote(k, id).Counts(uncounted + {id})
  {
    var k' := Demote(k, id);
    assert k'.TriedIds() == k.TriedIds() - {id};
    assert k'.NewIds() == k.NewIds() + {id};
    assert k'.NewIds() - (uncounted + {id}) == k.NewIds() - uncounted;
  }

  lemma DemoteKeeps(k: Book, id: int, loose: set<int>, uncounted: set<int>)
    requires k.Inv(loose, uncounted) && id in k.info && k.info[id].fInTried
    ensures Demote(k, id).Inv(loose + {id}, uncounted + {id})
  {
    IndexesFramed(k, Demote(k, id));
    DemoteCells(k, id);
    DemoteRefs(k, id, loose);
    DemoteCounts(k, id, uncounted);
  }

  /** An entry in no table put into its tried slot, and counted there. */
  ghost function Promote(k: Book, id: int): Book
    requires k.Shape() && id in k.info
  {
    var s := k.Service(id);
    k.(triedTable := Put(k.triedTable, k.TriedBucket(s), k.TriedPos(s), id),
       info := k.info[id := k.info[id].(fInTried := true)],
       nTried := k.nTried + 1)
  }

  lemma LooseHasNoCell(k: Book, id: int, loose: set<int>)
    requires k.Shape() && k.NewCells() && k.Refs(loose) && id in loose
    ensures forall b, i {:trigger k.newTable[b][i]} | 0 <= b < NEW_BUCKET_COUNT && 0 <= i < BUCKET_SIZE ::
              id != EMPTY ==> k.newTable[b][i] != id
  {
    assert k.Slots(id, k.Service(id)) == {};
    forall b, i | 0 <= b < NEW_BUCKET_COUNT && 0 <= i < BUCKET_SIZE && id != EMPTY
      ensures k.newTable[b][i] != id
    {
      assert b !in k.Slots(id, k.Service(id));
    }
  }

  lemma PromoteCells(k: Book, id: int, loose: set<int>)
    requires k.Shape() && k.NewCells() && k.TriedCells() && k.Refs(loose) && EMPTY !in k.info && id in loose
    requires k.triedTable[k.TriedBucket(k.Service(id))][k.TriedPos(k.Service(id))] == EMPTY
    ensures Promote(k, id).NewCells() && Promote(k, id).TriedCells()
  {
    LooseHasNoCell(k, id, loose);
  }

  lemma PromoteRefs(k: Book, id: int, loose: set<int>)
    requires k.Shape() && k.Refs(loose) && id in loose
    ensures Promote(k, id).Refs(loose - {id})
  {
    var k' := Promote(k, id);
    assert k'.NewIds() == k.NewIds() - {id};
    forall j, s ensures k'.Slots(j, s) == k.Slots(j, s) {}
  }

  lemma PromoteCounts(k: Book, id: int, uncounted: set<int>)
    requires k.Shape() && k.Counts(uncounted) && id in uncounted
    ensures Promote(k, id).Counts(uncounted - {id})
  {
    var k' := Promote(k, id);
    assert k'.TriedIds() == k.TriedIds() + {id};
    assert k'.NewIds() == k.NewIds() - {id};
    assert k'.NewIds() - (uncounted - {id}) == k.NewIds() - uncounted;
  }

  lemma PromoteKeeps(k: Book, id: int, loose: set<int>, uncounted: set<int>)
    requires k.Inv(loose, uncounted) && id in loose && id in uncounted
    requires k.triedTable[k.TriedBucket(k.Service(id))][k.TriedPos(k.Service(id))] == EMPTY
    ensures Promote(k, id).Inv(loose - {id}, uncounted - {id})
  {
    IndexesFramed(k, Promote(k, id));
    PromoteCells(k, id, loose);
    PromoteRefs(k, id, loose);
    PromoteCounts(k, id, uncounted);
  }

  /** The entry id is gone from every index; the others may have moved in the random order. */
  ghost predicate Erased(k: Book, k': Book, id: int) {
    && id in k.info
    && k' == k.(info := k'.info, addr := k.addr - {k.info[id].Ip()}, random := k'.random, nNew := k.nNew - 1)
    && k'.info.Keys == k.info.Keys - {id}
    && (forall j :: j in k'.info <==> j in k.info && j != id)
    && (forall j <- k'.info :: k'.info[j].SameButPos(k.info[j]))
    && k'.RandomInverse()
  }

  lemma EraseCells(k: Book, k': Book, id: int, loose: set<int>)
    requires k.Shape() && k.NewCells() && k.TriedCells() && k.Refs(loose) && EMPTY !in k.info && id in loose
    requires Erased(k, k', id)
    ensures k'.NewCells() && k'.TriedCells()
  {
    LooseHasNoCell(k, id, loose);
  }

  lemma EraseIndexes(k: Book, k': Book, id: int)
    requires k.AddrBijection() && Erased(k, k', id)
    ensures k'.AddrBijection()
  {
  }

  lemma EraseRefs(k: Book, k': Book, id: int, loose: set<int>)
    requires k.Shape() && k.Refs(loose) && id in loose && Erased(k, k', id)
    ensures k'.Refs(loose - {id})
  {
    forall j, s ensures k'.Slots(j, s) == k.Slots(j, s) {}
    forall j | j in loose - {id} ensures j in k'.NewIds() {
      assert j in k.NewIds();
    }
  }

  lemma EraseCounts(k: Book, k': Book, id: int, uncounted: set<int>)
    requires k.Counts(uncounted) && id in k.NewIds() && id !in uncounted && Erased(k, k', id)
    ensures k'.Counts(uncounted)
  {
    forall j | j in k'.info
      ensures k'.info[j].fInTried == k.info[j].fInTried
    {
    }
    assert k'.TriedIds() == k.TriedIds();
    assert k'.NewIds() == k.NewIds() - {id};
    assert k'.NewIds() - uncounted == k.NewIds() - uncounted - {id};
  }

  lemma EraseKeeps(k: Book, k': Book, id: int, loose: set<int>, uncounted: set<int>)
    requires k.Inv(loose, uncounted) && id in loose && id !in uncounted && Erased(k, k', id)
    ensures k'.Inv(loose - {id}, uncounted)
  {
    hide Book.TriedCells, Book.NewCells, Book.Refs, Book.Counts;
    LooseIsNew(k, id, loose);
    EraseIndexes(k, k', id);
    EraseCells(k, k', id, loose);
    EraseRefs(k, k', id, loose);
    EraseCounts(k, k', id, uncounted);
  }

  lemma LooseIsNew(k: Book, id: int, loose: set<int>)
    requires k.Shape() && k.Refs(loose) && id in loose
    ensures id in k.NewIds()
  {
  }

  /** A new entry under the next id, in no table and in no counter. */
  ghost function Created(k: Book, a: Address, source: NetAddr): Book {
    var id := k.idCount;
    k.(idCount := id + 1,
       info := k.info[id := NewInfo(a, source).(nRandomPos := |k.random|)],
       addr := k.addr[a.service.ip := id],
       random := k.random + [id])
  }

  lemma CreateIndexes(k: Book, a: Address, source: NetAddr)
    requires k.RandomInverse() && k.AddrBijection() && a.service.ip !in k.addr
    ensures Created(k, a, source).RandomInverse() && Created(k, a, source).AddrBijection()
  {
  }

  lemma CreateCells(k: Book, a: Address, source: NetAddr, loose: set<int>)
    requires k.Shape() && k.NewCells() && k.TriedCells() && k.Refs(loose) && k.idCount !in k.info && k.idCount >= 0
    ensures Created(k, a, source).NewCells() && Created(k, a, source).TriedCells()
    ensures Created(k, a, source).Refs(loose + {k.idCount})
  {
    var k' := Created(k, a, source);
    assert k'.NewIds() == k.NewIds() + {k.idCount};
    forall j, s ensures k'.Slots(j, s) == k.Slots(j, s) {}
    assert k.Slots(k.idCount, a.service) == {};
  }

  lemma CreatedIds(k: Book, a: Address, source: NetAddr)
    requires k.idCount !in k.info
    ensures Created(k, a, source).TriedIds() == k.TriedIds()
    ensures Created(k, a, source).NewIds() == k.NewIds() + {k.idCount}
    ensures k.idCount !in k.NewIds()
  {
    var k' := Created(k, a, source);
    forall j | j in k.info ensures k'.info[j] == k.info[j] {}
  }

  lemma CreateCounts(k: Book, a: Address, source: NetAddr, uncounted: set<int>)
    requires k.Counts(uncounted) && k.idCount !in k.info
    ensures Created(k, a, source).Counts(uncounted + {k.idCount})
  {
    CreatedIds(k, a, source);
    hide Book.NewIds, Book.TriedIds;
    assert Created(k, a, source).NewIds() - (uncounted + {k.idCount}) == k.NewIds() - uncounted;
  }

  lemma CreateKeeps(k: Book, a: Address, source: NetAddr, loose: set<int>, uncounted: set<int>)
    requires k.Inv(loose, uncounted) && a.service.ip !in k.addr
    ensures Created(k, a, source).Inv(loose + {k.idCount}, uncounted + {k.idCount})
  {
    CreateIndexes(k, a, source);
    CreateCells(k, a, source, loose);
    CreateCounts(k, a, source, uncounted);
  }

  /** Counting one new entry. */
  lemma CountIn(k: Book, id: int, loose: set<int>, uncounted: set<int>)
    requires k.Inv(loose, uncounted) && id in uncounted
    ensures k.(nNew := k.nNew + 1).Inv(loose, uncounted - {id})
  {
    var k' := k.(nNew := k.nNew + 1);
    IndexesFramed(k, k');
    TriedFramed(k, k');
    NewFramed(k, k', loose);
    IdsFramed(k, k');
    assert k.NewIds() - (uncounted - {id}) == k.NewIds() - uncounted + {id};
  }

  /** No longer counting one new entry. */
  lemma CountOut(k: Book, id: int, loose: set<int>, uncounted: set<int>)
    requires k.Inv(loose, uncounted) && id in k.NewIds() && id !in uncounted
    ensures k.(nNew := k.nNew - 1).Inv(loose, uncounted + {id})
  {
    var k' := k.(nNew := k.nNew - 1);
    IndexesFramed(k, k');
    TriedFramed(k, k');
    NewFramed(k, k', loose);
    IdsFramed(k, k');
    assert k.NewIds() - (uncounted + {id}) == k.NewIds() - uncounted - {id};
  }

  // ---------------------------------------------------------------- operations

  /** The slot (b, i) is empty; the entry that was in it has one slot less, and is gone if that was its last. */
  ghost predicate Cleared(k: Book, k': Book, b: int, i: int)
    requires k.Shape() && 0 <= b < NEW_BUCKET_COUNT && 0 <= i < BUCKET_SIZE
  {
    var out := k.newTable[b][i];
    if out == EMPTY then k' == k
    else
      && out in k.info
      && k'.newTable == Put(k.newTable, b, i, EMPTY)
      && if k.info[out].nRefCount > 1 then k' == DropRef(k, b, i) else Erased(DropRef(k, b, i), k', out)
  }

  /** Below the bucket upTo, id was taken out of the new table. */
  ghost predicate Stripped(k: Book, k': Book, id: int, upTo: int)
    requires k.Shape() && 0 <= upTo <= NEW_BUCKET_COUNT
  {
    && id in k.info && id in k'.info && k'.Shape()
    && k' == k.(newTable := k'.newTable, info := k.info[id := k.info[id].(nRefCount := k'.info[id].nRefCount)])
    && (forall b, i {:trigger k'.newTable[b][i]} | 0 <= b < NEW_BUCKET_COUNT && 0 <= i < BUCKET_SIZE ::
          k'.newTable[b][i] == if b < upTo && k.newTable[b][i] == id then EMPTY else k.newTable[b][i])
  }

  lemma StripNone(k: Book, id: int)
    requires k.Shape() && id in k.info
    ensures Stripped(k, k, id, 0)
  {
  }

  lemma StripMore(k: Book, k1: Book, k2: Book, id: int, b: int)
    requires k.Shape() && 0 <= b < NEW_BUCKET_COUNT && Stripped(k, k1, id, b) && k1.NewCells() && id != EMPTY
    requires var i := k1.NewPos(b, k1.Service(id));
      k2 == if k1.newTable[b][i] == id then DropRef(k1, b, i) else k1
    ensures Stripped(k, k2, id, b + 1)
  {
    var i := k1.NewPos(b, k1.Service(id));
    forall j | 0 <= j < BUCKET_SIZE && j != i
      ensures k1.newTable[b][j] != id
    {
    }
  }

  lemma StrippedIsLoose(k: Book, k': Book, id: int, loose: set<int>)
    requires k.Shape() && k.NewCells() && Stripped(k, k', id, NEW_BUCKET_COUNT) && id != EMPTY
    requires k'.Refs(loose) && !k'.info[id].fInTried
    ensures k'.info[id].nRefCount == 0
  {
    assert k'.Slots(id, k'.Service(id)) == {};
  }

  /** The entry in the tried slot that id is about to take, or EMPTY. */
  ghost function Evicted(k: Book, id: int): int
    requires k.Shape() && id in k.info
  {
    k.triedTable[k.TriedBucket(k.Service(id))][k.TriedPos(k.Service(id))]
  }

  /** The new slot an entry goes to by the source it was first heard from. */
  ghost function HomeBucket(k: Book, id: int): (b: nat)
    requires id in k.info
    ensures b < NEW_BUCKET_COUNT
  {
    k.hasher.NewBucket(k.key, k.Service(id), k.info[id].source)
  }

  /** The entry that must give up its new slot to the evicted one, or EMPTY. */
  ghost function Displaced(k: Book, id: int): int
    requires k.Shape() && id in k.info
  {
    var evicted := Evicted(k, id);
    if evicted !in k.info then EMPTY
    else
      var b := HomeBucket(k, evicted);
      var out := k.newTable[b][k.NewPos(b, k.Service(evicted))];
      if out == id then EMPTY else out
  }

  /** What becomes of each entry when id moves to the tried table. */
  ghost function AfterMove(k: Book, id: int, j: int): AddrInfo
    requires k.Shape() && id in k.info && j in k.info
  {
    if j == id then k.info[j].(nRefCount := 0, fInTried := true)
    else if j == Evicted(k, id) then k.info[j].(nRefCount := 1, fInTried := false)
    else if j == Displaced(k, id) then k.info[j].(nRefCount := k.info[j].nRefCount - 1)
    else k.info[j]
  }

  /** What a new slot holds once id has moved to the tried table. */
  ghost function SlotAfterMove(k: Book, id: int, b: int, i: int): int
    requires k.Shape() && id in k.info && 0 <= b < NEW_BUCKET_COUNT && 0 <= i < BUCKET_SIZE
  {
    var evicted := Evicted(k, id);
    if evicted in k.info && b == HomeBucket(k, evicted) && i == k.NewPos(b, k.Service(evicted)) then evicted
    else if k.newTable[b][i] == id then EMPTY
    else k.newTable[b][i]
  }

  /** id is in its tried slot and nowhere else; the entry it evicted is in one new slot;
      the entry that one displaced lost that slot, and is gone if it had no other. */
  ghost predicate MovedToTried(k: Book, k': Book, id: int)
    requires k.Shape() && id in k.info
  {
    var out := Displaced(k, id);
    && k'.Shape()
    && k'.triedTable == Put(k.triedTable, k.TriedBucket(k.Service(id)), k.TriedPos(k.Service(id)), id)
    && (forall b, i {:trigger k'.newTable[b][i]} | 0 <= b < NEW_BUCKET_COUNT && 0 <= i < BUCKET_SIZE ::
          k'.newTable[b][i] == SlotAfterMove(k, id, b, i))
    && (forall j :: j in k'.info <==> j in k.info && !(j == out && k.info[j].nRefCount == 1))
    && (forall j <- k'.info :: k'.info[j].SameButPos(AfterMove(k, id, j)))
  }

  lemma MoveToEmpty(k: Book, k1: Book, k': Book, id: int)
    requires k.Shape() && k.AddrBijection() && Stripped(k, k1, id, NEW_BUCKET_COUNT)
    requires Evicted(k, id) == EMPTY && k1.info[id].nRefCount == 0
    requires k' == Promote(k1.(nNew := k1.nNew - 1), id)
    ensures MovedToTried(k, k', id)
  {
  }

  lemma PutTwice(g: Grid, b: int, i: int, v: int, w: int)
    requires 0 <= b < |g| && 0 <= i < |g[b]|
    ensures Put(Put(g, b, i, v), b, i, w) == Put(g, b, i, w)
  {
    assert Put(Put(g, b, i, v), b, i, w)[b] == Put(g, b, i, w)[b];
  }

  /** The steps MakeTried takes once id is out of the new table, with an entry e to evict. */
  ghost predicate EvictSteps(k: Book, k2: Book, k3: Book, k': Book, id: int, e: int)
    requires k.Shape()
  {
    && Stripped(k, k2.(nNew := k2.nNew + 1), id, NEW_BUCKET_COUNT) && k2.info[id].nRefCount == 0 && k2.Shape()
    && e in k2.info
    && e in k.info && e != id && e != EMPTY && e == Evicted(k, id)
    && k.TriedBucket(k.Service(e)) == k.TriedBucket(k.Service(id))
    && k.TriedPos(k.Service(e)) == k.TriedPos(k.Service(id))
    && var b := HomeBucket(k, e);
       var i := k.NewPos(b, k.Service(e));
       && Cleared(Demote(k2, e), k3, b, i)
       && k3.Shape() && id in k3.info && e in k3.info && k3.info[e].nRefCount == 0
       && k' == Promote(AddRef(k3, b, i, e).(nNew := k3.nNew + 1), id)
       && k.newTable[b][i] != e
       && (k.newTable[b][i] != EMPTY && k.newTable[b][i] != id ==>
             k.newTable[b][i] in k.info && k.info[k.newTable[b][i]].nRefCount > 0)
  }

  lemma EvictTriedTable(k: Book, k2: Book, k3: Book, k': Book, id: int, e: int)
    requires k.Shape() && EvictSteps(k, k2, k3, k', id, e)
    ensures k'.triedTable == Put(k.triedTable, k.TriedBucket(k.Service(id)), k.TriedPos(k.Service(id)), id)
  {
    PutTwice(k.triedTable, k.TriedBucket(k.Service(id)), k.TriedPos(k.Service(id)), EMPTY, id);
  }

  lemma EvictNewTable(k: Book, k2: Book, k3: Book, k': Book, id: int, e: int)
    requires k.Shape() && EvictSteps(k, k2, k3, k', id, e)
    ensures k'.Shape()
    ensures forall b, i {:trigger k'.newTable[b][i]} | 0 <= b < NEW_BUCKET_COUNT && 0 <= i < BUCKET_SIZE ::
              k'.newTable[b][i] == SlotAfterMove(k, id, b, i)
  {
    var b := HomeBucket(k, e);
    var i := k.NewPos(b, k.Service(e));
    assert k3.newTable == Put(k2.newTable, b, i, EMPTY) || k3.newTable == k2.newTable;
    assert k'.newTable == Put(k3.newTable, b, i, e);
  }

  lemma EvictEntries(k: Book, k2: Book, k3: Book, k': Book, id: int, e: int)
    requires k.Shape() && EvictSteps(k, k2, k3, k', id, e) && EMPTY !in k.info
    ensures forall j :: j in k'.info <==> j in k.info && !(j == Displaced(k, id) && k.info[j].nRefCount == 1)
    ensures forall j <- k'.info :: k'.info[j].SameButPos(AfterMove(k, id, j))
  {
    var b := HomeBucket(k, e);
    var i := k.NewPos(b, k.Service(e));
    var kd := Demote(k2, e);
    assert kd.newTable[b][i] == Displaced(k, id);
    assert forall j :: j in kd.info <==> j in k.info;
    assert forall j :: j in k'.info <==> j in k3.info;
  }

  lemma MoveAndEvict(k: Book, k2: Book, k3: Book, k': Book, id: int, e: int)
    requires k.Shape() && EvictSteps(k, k2, k3, k', id, e) && EMPTY !in k.info
    ensures MovedToTried(k, k', id)
  {
    EvictTriedTable(k, k2, k3, k', id, e);
    EvictNewTable(k, k2, k3, k', id, e);
    EvictEntries(k, k2, k3, k', id, e);
  }

  /** What the evicting steps rely on about the entry in the slot. */
  lemma EvictedFacts(k: Book, k1: Book, id: int)
    requires k.Valid() && Stripped(k, k1, id, NEW_BUCKET_COUNT) && !k.info[id].fInTried && Evicted(k, id) != EMPTY
    ensures EMPTY !in k.info
    ensures var e := Evicted(k, id);
      && e in k.info && e != id && k.info[e].fInTried && e in k1.info && k1.info[e] == k.info[e]
      && k.TriedBucket(k.Service(e)) == k.TriedBucket(k.Service(id))
      && k.TriedPos(k.Service(e)) == k.TriedPos(k.Service(id))
      && var out := k.newTable[HomeBucket(k, e)][k.NewPos(HomeBucket(k, e), k.Service(e))];
         && out != e
         && (out != EMPTY ==> out in k.info && k.info[out].nRefCount > 0)
  {
    var e := Evicted(k, id);
    var b := HomeBucket(k, e);
    var i := k.NewPos(b, k.Service(e));
    if k.newTable[b][i] != EMPTY {
      HolderHasSlot(k, b, i, {});
    }
  }

  lemma LooseFacts(k: Book, loose: set<int>, id: int)
    requires k.Inv(loose, loose) && id in loose
    ensures id in k.info && !k.info[id].fInTried && k.info[id].nRefCount == 0
  {
    assert id in k.NewIds();
  }

  /** One round of the loop that takes id out of the new table: nothing, or one reference given up. */
  lemma StripStep(k: Book, k1: Book, k2: Book, id: int, b: int)
    requires k.Shape() && 0 <= b < NEW_BUCKET_COUNT && Stripped(k, k1, id, b)
    requires id in k1.info && !k1.info[id].fInTried && k1.Inv(if k1.info[id].nRefCount == 0 then {id} else {}, {})
    requires var i := k1.NewPos(b, k1.Service(id));
      k2 == if k1.newTable[b][i] == id then DropRef(k1, b, i) else k1
    ensures Stripped(k, k2, id, b + 1)
    ensures id in k2.info && !k2.info[id].fInTried && k2.Inv(if k2.info[id].nRefCount == 0 then {id} else {}, {})
  {
    hide Book.RandomInverse, Book.TriedCells, Book.NewCells, Book.Refs, Book.Counts;
    var i := k1.NewPos(b, k1.Service(id));
    var loose := if k1.info[id].nRefCount == 0 then {id} else {};
    if k1.newTable[b][i] == id {
      DropRefKeeps(k1, b, i, loose, {});
      assert {} + {id} == {id};
    }
    StripMore(k, k1, k2, id, b);
  }

  lemma StripDone(k: Book, k1: Book, id: int)
    requires k.Valid() && Stripped(k, k1, id, NEW_BUCKET_COUNT)
    requires id in k1.info && !k1.info[id].fInTried && k1.Inv(if k1.info[id].nRefCount == 0 then {id} else {}, {})
    ensures k1.info[id].nRefCount == 0 && k1.(nNew := k1.nNew - 1).Inv({id}, {id})
  {
    var loose := if k1.info[id].nRefCount == 0 then {id} else {};
    StrippedIsLoose(k, k1, id, loose);
    hide Book.Inv, Stripped;
    assert loose == {id} && id in k1.NewIds();
    CountOut(k1, id, {id}, {});
    assert {} + {id} == {id};
  }

  /** The state in which an entry was taken out of its tried slot to make room for id. */
  lemma EvictStart(k: Book, k2: Book, id: int)
    requires k.Valid() && Stripped(k, k2.(nNew := k2.nNew + 1), id, NEW_BUCKET_COUNT) && !k.info[id].fInTried
    requires k2.Inv({id}, {id}) && Evicted(k, id) != EMPTY
    ensures var e := Evicted(k, id);
      && k2.hasher == k.hasher && k2.key == k.key
      && e in k.info && e in k2.info && k2.info[e] == k.info[e]
      && Demote(k2, e).Inv({id} + {e}, {id} + {e})
  {
    EvictedFacts(k, k2.(nNew := k2.nNew + 1), id);
    DemoteKeeps(k2, Evicted(k, id), {id}, {id});
  }

  /** What the entry to evict, and id, look like once the slot it goes to is empty. */
  lemma EvictMiddle(k: Book, k2: Book, k3: Book, id: int, e: int)
    requires k.Shape() && Stripped(k, k2.(nNew := k2.nNew + 1), id, NEW_BUCKET_COUNT)
    requires e in k.info && e in k2.info && k2.info[e] == k.info[e] && id in k2.info && k2.Shape()
    requires id in k3.info && e in k3.info
    requires var b := HomeBucket(k, e);
      Cleared(Demote(k2, e), k3, b, k.NewPos(b, k.Service(e)))
    ensures k3.Service(e) == k.Service(e) && k3.Service(id) == k.Service(id)
    ensures k3.key == k.key && k3.hasher == k.hasher && k3.triedTable == Demote(k2, e).triedTable
  {
  }

  /** Putting the evicted entry back into the new table, and counting it. */
  lemma RelistKeeps(k3: Book, b: int, i: int, id: int, e: int)
    requires k3.Inv({id} + {e}, {id} + {e}) && id != e
    requires 0 <= b < NEW_BUCKET_COUNT && 0 <= i < BUCKET_SIZE && k3.newTable[b][i] == EMPTY
    requires e in k3.info && k3.NewPos(b, k3.Service(e)) == i
    ensures k3.info[e].nRefCount == 0 && id in k3.info && k3.info[id].nRefCount == 0
    ensures AddRef(k3, b, i, e).(nNew := k3.nNew + 1).Inv({id}, {id})
  {
    hide Book.RandomInverse, Book.AddrBijection, Book.TriedCells, Book.NewCells, Book.Refs, Book.Counts;
    var both := {id} + {e};
    assert both - {e} == {id};
    LooseFacts(k3, both, id);
    LooseFacts(k3, both, e);
    AddRefKeeps(k3, b, i, e, both, both);
    var k4 := AddRef(k3, b, i, e);
    assert k4.nNew == k3.nNew;
    hide AddRef;
    CountIn(k4, e, {id}, both);
  }

  /** The state in which the entry is back in the new table, and the tried slot is free. */
  lemma EvictKeeps(k: Book, k2: Book, k3: Book, id: int, e: int)
    requires k.Valid() && Stripped(k, k2.(nNew := k2.nNew + 1), id, NEW_BUCKET_COUNT) && !k.info[id].fInTried
    requires k2.Shape() && e == Evicted(k, id) != EMPTY && e in k.info && e in k2.info
    requires var b := HomeBucket(k, e);
      var i := k.NewPos(b, k.Service(e));
      && k3.Inv({id} + {e}, {id} + {e}) && Cleared(Demote(k2, e), k3, b, i) && k3.newTable[b][i] == EMPTY
    ensures id in k3.info && e in k3.info && k3.info[e].nRefCount == 0
    ensures var b := HomeBucket(k, e);
      var k4 := AddRef(k3, b, k.NewPos(b, k.Service(e)), e).(nNew := k3.nNew + 1);
      k4.Inv({id}, {id}) && id in k4.info && k4.info[id].nRefCount == 0 && Evicted(k4, id) == EMPTY
  {
    var b := HomeBucket(k, e);
    var i := k.NewPos(b, k.Service(e));
    hide Book.RandomInverse, Book.AddrBijection, Book.TriedCells, Book.NewCells, Book.Refs, Book.Counts;
    hide Stripped, Cleared, Put;
    EvictedFacts(k, k2.(nNew := k2.nNew + 1), id);
    LooseFacts(k3, {id} + {e}, id);
    LooseFacts(k3, {id} + {e}, e);
    EvictMiddle(k, k2, k3, id, e);
    RelistKeeps(k3, b, i, id, e);
  }

  lemma EvictMoves(k: Book, k2: Book, k3: Book, id: int, e: int)
    requires k.Valid() && Stripped(k, k2.(nNew := k2.nNew + 1), id, NEW_BUCKET_COUNT) && !k.info[id].fInTried
    requires k2.Shape() && k2.info[id].nRefCount == 0 && e == Evicted(k, id) != EMPTY && e in k.info && e in k2.info
    requires id in k3.info && e in k3.info && k3.info[e].nRefCount == 0 && k3.Shape()
    requires var b := HomeBucket(k, e);
      Cleared(Demote(k2, e), k3, b, k.NewPos(b, k.Service(e)))
    ensures var b := HomeBucket(k, e);
      var k4 := AddRef(k3, b, k.NewPos(b, k.Service(e)), e).(nNew := k3.nNew + 1);
      id in k4.info && MovedToTried(k, Promote(k4, id), id)
  {
    hide Book.RandomInverse, Book.AddrBijection, Book.TriedCells, Book.NewCells, Book.Refs, Book.Counts;
    hide Stripped, Cleared, MovedToTried;
    var b := HomeBucket(k, e);
    EvictedFacts(k, k2.(nNew := k2.nNew + 1), id);
    MoveAndEvict(k, k2, k3, Promote(AddRef(k3, b, k.NewPos(b, k.Service(e)), e).(nNew := k3.nNew + 1), id), id, e);
  }

  /** The table knows this very service: same address, same port. */
  ghost predicate Knows(k: Book, s: Service) {
    s.ip in k.addr && k.addr[s.ip] in k.info && k.Service(k.addr[s.ip]) == s
  }

  ghost function Updated(k: Book, id: int, e: AddrInfo): Book {
    k.(info := k.info[id := e])
  }

  lemma UpdateKeeps(k: Book, id: int, e: AddrInfo)
    requires k.Valid() && id in k.info && k.info[id].SamePlace(e)
    ensures Updated(k, id, e).Valid()
  {
    TouchKeeps(k, Updated(k, id, e), id, {}, {});
  }

  /** The outcome of reporting a connection: a recorded time more than twenty minutes old is renewed. */
  ghost function Reconnected(k: Book, s: Service, nTime: int): Book {
    if !Knows(k, s) then k
    else
      var id := k.addr[s.ip];
      var e := k.info[id];
      if nTime - e.addr.nTime > 20 * 60 then Updated(k, id, e.(addr := e.addr.(nTime := ToU32(nTime)))) else k
  }

  /**
   * The public call that offers services passes them on as a time. It never changes the services of any
   * entry, and changes anything at all exactly when the number lies far enough beyond the recorded time.
   */
  lemma OfferIsTime(k: Book, s: Service, nServices: nat)
    requires k.Valid()
    ensures var k', t := Reconnected(k, s, ToI64(nServices)), ToI64(nServices);
      && k'.info.Keys == k.info.Keys
      && (forall id <- k.info :: k'.info[id].addr.nServices == k.info[id].addr.nServices)
      && (k' != k <==>
            Knows(k, s) &&
            var recorded := k.info[k.addr[s.ip]].addr.nTime;
            t - recorded > 1200 && ToU32(t) != recorded)
  {
    if Knows(k, s) {
      var id := k.addr[s.ip];
      var e := k.info[id];
      var t := ToI64(nServices);
      if t - e.addr.nTime > 1200 && ToU32(t) != e.addr.nTime {
        assert Reconnected(k, s, t).info[id] != k.info[id];
      } else if t - e.addr.nTime > 1200 {
        assert e.addr.(nTime := ToU32(t)) == e.addr;
        assert k.info[id := e] == k.info;
      }
    }
  }

  /** The outcome of reporting a good connection. */
  ghost predicate MarkedGood(k: Book, k': Book, s: Service, nTime: int)
    requires k.Shape()
  {
    if !Knows(k, s) then k' == k
    else
      var id := k.addr[s.ip];
      var k1 := Updated(k, id, k.info[id].(nLastSuccess := nTime, nLastTry := nTime, nAttempts := 0));
      if k.info[id].fInTried then k' == k1 else MovedToTried(k1, k', id)
  }

  /** After a good connection the entry is tried, whatever table it was in:
      the search for one of its new buckets cannot fail. */
  lemma GoodIsTried(k: Book, k': Book, s: Service, nTime: int)
    requires k.Valid() && k'.Valid() && MarkedGood(k, k', s, nTime) && Knows(k, s)
    ensures Knows(k', s) && k'.addr[s.ip] == k.addr[s.ip]
    ensures var e := k'.info[k'.addr[s.ip]];
      e.fInTried && e.nRefCount == 0 && e.nLastSuccess == nTime && e.nLastTry == nTime && e.nAttempts == 0
  {
    var id := k.addr[s.ip];
    assert id in k'.info && k'.info[id].addr.service == s;
  }

  /** The clock invariant survives exactly when the reported time is positive. */
  lemma GoodTimes(k: Book, k': Book, s: Service, nTime: int)
    requires k.Valid() && k'.Valid() && k.Times() && MarkedGood(k, k', s, nTime)
    ensures k'.Times() <==> (Knows(k, s) ==> nTime > 0)
  {
    hide Book.RandomInverse, Book.NewCells, Book.TriedCells, Book.Refs, Book.Counts, Put;
    if Knows(k, s) {
      GoodIsTried(k, k', s, nTime);
    }
  }

  /** An entry with a reference is found in some new bucket, so a scan of all of them meets it. */
  lemma SomeSlot(k: Book, id: int) returns (b: int)
    requires k.Valid() && id in k.info && !k.info[id].fInTried
    ensures 0 <= b < NEW_BUCKET_COUNT && k.newTable[b][k.NewPos(b, k.Service(id))] == id
  {
    var slots := k.Slots(id, k.Service(id));
    assert |slots| > 0;
    b :| b in slots;
  }

  /** The new slot an announcement of a service by a source is hashed to. */
  ghost function SlotBucket(k: Book, s: Service, source: NetAddr): (b: nat)
    ensures b < NEW_BUCKET_COUNT
  {
    k.hasher.NewBucket(k.key, s, source)
  }

  /** Whether an entry with nRefCount slots may take the slot from its occupant. */
  ghost predicate MayTake(k: Book, b: int, i: int, id: int, nRefCount: int, nNow: int)
    requires k.Shape() && 0 <= b < NEW_BUCKET_COUNT && 0 <= i < BUCKET_SIZE
  {
    var occupant := k.newTable[b][i];
    && occupant != id
    && (occupant == EMPTY
        || (occupant in k.info
            && (k.info[occupant].IsTerrible(nNow) || (k.info[occupant].nRefCount > 1 && nRefCount == 0))))
  }

  /** An entry was given a slot it may take: the occupant lost the slot, and is gone if it had no other;
      everything else is as it was, up to the random order. */
  ghost predicate Placed(k: Book, k': Book, b: int, i: int, id: int, e: AddrInfo)
    requires k.Shape() && 0 <= b < NEW_BUCKET_COUNT && 0 <= i < BUCKET_SIZE
  {
    var out := k.newTable[b][i];
    && k'.triedTable == k.triedTable && k'.nTried == k.nTried
    && k'.newTable == Put(k.newTable, b, i, id)
    && (forall j :: j in k'.info <==> j == id || (j in k.info && !(j == out && k.info[j].nRefCount == 1)))
    && (forall j <- k'.info :: k'.info[j].SameButPos(
          if j == id then e.(nRefCount := e.nRefCount + 1)
          else if j == out then k.info[j].(nRefCount := k.info[j].nRefCount - 1)
          else k.info[j]))
  }

  /** Clearing the slot and then taking it is placing. */
  lemma ClearThenAdd(k: Book, k1: Book, b: int, i: int, id: int, e: AddrInfo)
    requires k.Shape() && 0 <= b < NEW_BUCKET_COUNT && 0 <= i < BUCKET_SIZE && k.newTable[b][i] != id
    requires id in k.info && k.info[id].SameButPos(e)
    requires var out := k.newTable[b][i]; out != EMPTY ==> out in k.info && k.info[out].nRefCount > 0
    requires EMPTY !in k.info
    requires Cleared(k, k1, b, i) && k1.Shape() && id in k1.info
    ensures Placed(k, AddRef(k1, b, i, id), b, i, id, e)
  {
    PutTwice(k.newTable, b, i, EMPTY, id);
  }

  lemma PlaceFacts(k: Book, id: int, loose: set<int>, b: int, i: int)
    requires k.Inv(loose, {}) && id in k.info && !k.info[id].fInTried
    requires 0 <= b < NEW_BUCKET_COUNT && 0 <= i < BUCKET_SIZE
    ensures EMPTY !in k.info && k.RandomInverse() && (id in loose <==> k.info[id].nRefCount == 0)
    ensures var out := k.newTable[b][i];
      out != EMPTY ==> out in k.info && k.info[out].nRefCount > 0 && out !in loose
  {
    if k.newTable[b][i] != EMPTY {
      HolderHasSlot(k, b, i, loose);
    }
  }

  /** Taking a slot that was just cleared. */
  lemma TakeSlot(k: Book, k1: Book, b: int, i: int, id: int, loose: set<int>)
    requires k.Inv(loose, {}) && k1.Inv(loose, {}) && (loose == {} || loose == {id})
    requires id in k.info && !k.info[id].fInTried && k.info[id].nRefCount < NEW_BUCKETS_PER_ADDRESS
    requires 0 <= b < NEW_BUCKET_COUNT && i == k.NewPos(b, k.Service(id)) && k.newTable[b][i] != id
    requires Cleared(k, k1, b, i) && k1.newTable[b][i] == EMPTY
    ensures id in k1.info && AddRef(k1, b, i, id).Valid()
    ensures Placed(k, AddRef(k1, b, i, id), b, i, id, k.info[id])
  {
    hide Book.RandomInverse, Book.AddrBijection, Book.TriedCells, Book.NewCells, Book.Refs, Book.Counts, Placed;
    PlaceFacts(k, id, loose, b, i);
    assert id in k1.info && k1.info[id].SameButPos(k.info[id]) && k1.key == k.key && k1.hasher == k.hasher;
    ClearThenAdd(k, k1, b, i, id, k.info[id]);
    AddRefKeeps(k1, b, i, id, loose, {});
    assert loose - {id} == {};
  }

  /** The outcome of offering the slot (b, i) to id. */
  ghost predicate SlotOffered(k: Book, k': Book, b: int, i: int, id: int, nNow: int)
    requires k.Shape() && 0 <= b < NEW_BUCKET_COUNT && 0 <= i < BUCKET_SIZE && id in k.info
  {
    if MayTake(k, b, i, id, k.info[id].nRefCount, nNow) then Placed(k, k', b, i, id, k.info[id])
    else if k.info[id].nRefCount == 0 then Erased(k, k', id)
    else k' == k
  }

  /** A new, counted entry for an address nobody knows. */
  ghost function Enrolled(k: Book, addr: Address, source: NetAddr, nTimePenalty: int): Book {
    var k1 := Created(k, addr, source);
    Updated(k1, k.idCount, Penalized(k1.info[k.idCount], nTimePenalty)).(nNew := k.nNew + 1)
  }

  lemma EnrollKeeps(k: Book, addr: Address, source: NetAddr, nTimePenalty: int)
    requires k.Valid() && addr.service.ip !in k.addr
    ensures Enrolled(k, addr, source, nTimePenalty).Inv({k.idCount}, {})
  {
    hide Book.RandomInverse, Book.TriedCells, Book.NewCells, Book.Refs;
    var id := k.idCount;
    var k1 := Created(k, addr, source);
    CreateKeeps(k, addr, source, {}, {});
    assert {} + {id} == {id};
    var k2 := Updated(k1, id, Penalized(k1.info[id], nTimePenalty));
    TouchKeeps(k1, k2, id, {id}, {id});
    CountIn(k2, id, {id}, {id});
    assert {id} - {id} == {};
  }

  /** The outcome of announcing an address: what is recorded, and which new slot it is offered. */
  ghost predicate Added(k: Book, k': Book, addr: Address, source: NetAddr, nTimePenalty: int, nNow: int, roll: nat,
                        fNew: bool)
    requires k.Shape()
  {
    var s := addr.service;
    if !k.hasher.routable(s.ip) then k' == k && !fNew
    else if s.ip in k.addr && k.addr[s.ip] in k.info then
      var id := k.addr[s.ip];
      var e := Refreshed(k.info[id], addr, nTimePenalty, nNow);
      var b := SlotBucket(k, e.addr.service, source);
      && !fNew
      && if !MayRelist(e, addr, roll) then k' == Updated(k, id, e)
         else SlotOffered(Updated(k, id, e), k', b, k.NewPos(b, e.addr.service), id, nNow)
    else
      var b := SlotBucket(k, s, source);
      && fNew
      && SlotOffered(Enrolled(k, addr, source, nTimePenalty), k', b, k.NewPos(b, s), k.idCount, nNow)
  }

  lemma OfferedToNew(k: Book, k': Book, b: int, i: int, addr: Address, source: NetAddr, nTimePenalty: int, nNow: int)
    requires k.Shape() && k.AddrBijection() && k.NewCells() && k'.AddrBijection() && addr.service.ip !in k.addr
    requires 0 <= b < NEW_BUCKET_COUNT && 0 <= i < BUCKET_SIZE
    requires SlotOffered(Enrolled(k, addr, source, nTimePenalty), k', b, i, k.idCount, nNow)
    ensures addr.service.ip in k'.addr <==> MayTake(k, b, i, k.idCount, 0, nNow)
  {
    var k1 := Enrolled(k, addr, source, nTimePenalty);
    assert MayTake(k, b, i, k.idCount, 0, nNow) == MayTake(k1, b, i, k.idCount, 0, nNow);
    if MayTake(k1, b, i, k.idCount, 0, nNow) {
      assert k.idCount in k'.info && k'.info[k.idCount].Ip() == addr.service.ip;
    }
  }

  /** Announcing reports success for every unknown routable address, but stores it
      only when its slot is free or its occupant may be overwritten. */
  lemma AddStores(k: Book, k': Book, addr: Address, source: NetAddr, nTimePenalty: int, nNow: int, roll: nat,
                  fNew: bool)
    requires k.Valid() && k'.Valid() && Added(k, k', addr, source, nTimePenalty, nNow, roll, fNew)
    ensures fNew <==> k.hasher.routable(addr.service.ip) && addr.service.ip !in k.addr
    ensures var b := SlotBucket(k, addr.service, source);
      addr.service.ip in k'.addr <==>
        addr.service.ip in k.addr || (fNew && MayTake(k, b, k.NewPos(b, addr.service), k.idCount, 0, nNow))
  {
    hide Book.RandomInverse, Book.TriedCells, Book.Refs, Book.Counts;
    var s := addr.service;
    if fNew {
      var b := SlotBucket(k, s, source);
      OfferedToNew(k, k', b, k.NewPos(b, s), addr, source, nTimePenalty, nNow);
    } else if s.ip in k.addr {
      KnownFacts(k, k.addr[s.ip]);
      assert k.addr[s.ip] in k'.info && k'.info[k.addr[s.ip]].Ip() == s.ip;
    }
  }

  /** Announcing removes at most one entry: the occupant of the slot, and only when that was its last. */
  lemma AddLosesAtMostOne(k: Book, k': Book, addr: Address, source: NetAddr, nTimePenalty: int, nNow: int, roll: nat,
                          fNew: bool, j: int)
    requires k.Valid() && Added(k, k', addr, source, nTimePenalty, nNow, roll, fNew)
    requires j in k.info && j !in k'.info
    ensures k.info[j].nRefCount == 1 && !k.info[j].fInTried
    ensures exists b, i {:trigger k.newTable[b][i]} ::
              0 <= b < NEW_BUCKET_COUNT && 0 <= i < BUCKET_SIZE && k.newTable[b][i] == j && k'.newTable[b][i] != j
  {
    var s := addr.service;
    var b := if s.ip in k.addr then SlotBucket(k, k.Service(k.addr[s.ip]), source) else SlotBucket(k, s, source);
    var i := k.NewPos(b, if s.ip in k.addr then k.Service(k.addr[s.ip]) else s);
    assert k.newTable[b][i] == j;
  }

  lemma KnownFacts(k: Book, id: int)
    requires k.Valid() && id in k.info
    ensures 0 <= k.info[id].nRefCount <= NEW_BUCKETS_PER_ADDRESS && k.info[id].Ip() in k.addr
    ensures k.addr[k.info[id].Ip()] == id
    ensures !k.info[id].fInTried ==> k.info[id].nRefCount > 0
  {
  }

  lemma AllKnown(k: Book)
    requires k.Valid()
    ensures forall ip <- k.addr :: k.addr[ip] in k.info
  {
  }

  /** Only the random order differs. */
  ghost predicate Reordered(k: Book, k': Book) {
    && k' == k.(info := k'.info, random := k'.random)
    && |k'.random| == |k.random|
    && k'.info.Keys == k.info.Keys
    && (forall j :: j in k'.info <==> j in k.info)
    && (forall j <- k'.info :: k'.info[j].SameButPos(k.info[j]))
  }

  lemma ReorderFrames(k: Book, k': Book)
    requires k.Shape() && Reordered(k, k')
    ensures k.AddrBijection() ==> k'.AddrBijection()
    ensures k.NewCells() ==> k'.NewCells()
    ensures k.TriedCells() ==> k'.TriedCells()
    ensures k.Counts({}) ==> k'.Counts({})
  {
    forall j | j in k.info ensures k'.info[j].fInTried == k.info[j].fInTried {}
    assert k'.TriedIds() == k.TriedIds() && k'.NewIds() == k.NewIds();
  }

  lemma ReorderRefs(k: Book, k': Book)
    requires k.Shape() && Reordered(k, k') && k.Refs({})
    ensures k'.Refs({})
  {
    forall j, s ensures k'.Slots(j, s) == k.Slots(j, s) {}
  }

  lemma ReorderKeeps(k: Book, k': Book)
    requires k.Valid() && Reordered(k, k') && k'.RandomInverse()
    ensures k'.Valid()
  {
    hide Book.RandomInverse, Book.AddrBijection, Book.NewCells, Book.TriedCells, Book.Refs, Book.Counts;
    ReorderFrames(k, k');
    ReorderRefs(k, k');
  }

  lemma ReorderedTwice(k: Book, k': Book, k'': Book)
    requires Reordered(k, k') && Reordered(k', k'')
    ensures Reordered(k, k'')
  {
  }

  /** The ids of the entries fit to be handed out, among those at the front of the random order. */
  ghost function Fit(k: Book, n: nat, nNow: int): (ids: seq<int>)
    ensures |ids| <= n && forall id <- ids :: id in k.random && id in k.info && !k.info[id].IsTerrible(nNow)
  {
    if n == 0 then []
    else if n > |k.random| || k.random[n - 1] !in k.info || k.info[k.random[n - 1]].IsTerrible(nNow)
    then Fit(k, n - 1, nNow)
    else Fit(k, n - 1, nNow) + [k.random[n - 1]]
  }

  lemma FitBelongs(k: Book, n: nat, nNow: int)
    requires n <= |k.random|
    ensures forall id <- Fit(k, n, nNow) :: id in k.random[..n]
  {
    if n > 0 {
      FitBelongs(k, n - 1, nNow);
      assert forall id <- k.random[..n - 1] :: id in k.random[..n];
      assert k.random[n - 1] in k.random[..n];
    }
  }

  /** The entries handed out are distinct, and all fit ones are among them once the order is used up. */
  lemma FitIsComplete(k: Book, n: nat, nNow: int)
    requires k.RandomInverse() && n <= |k.random|
    ensures var ids := Fit(k, n, nNow);
      && (forall i, j | 0 <= i < j < |ids| :: ids[i] != ids[j])
      && (n == |k.random| ==> forall id <- k.info | !k.info[id].IsTerrible(nNow) :: id in ids)
  {
    FitHasAll(k, n, nNow);
    if n > 0 {
      FitIsComplete(k, n - 1, nNow);
      FitBelongs(k, n - 1, nNow);
      assert k.random[n - 1] !in k.random[..n - 1];
    }
  }

  lemma FitHasAll(k: Book, n: nat, nNow: int)
    requires k.RandomInverse() && n <= |k.random|
    ensures forall i | 0 <= i < n && !k.info[k.random[i]].IsTerrible(nNow) :: k.random[i] in Fit(k, n, nNow)
  {
    if n > 0 {
      FitHasAll(k, n - 1, nNow);
    }
  }

  lemma FitNext(k: Book, n: nat, nNow: int)
    requires k.RandomInverse() && n < |k.random|
    ensures Fit(k, n + 1, nNow) ==
            Fit(k, n, nNow) + if k.info[k.random[n]].IsTerrible(nNow) then [] else [k.random[n]]
  {
  }

  /** The entries recorded for a list of ids. */
  ghost predicate AddressesOf(k: Book, ids: seq<int>, vAddr: seq<Address>) {
    |vAddr| == |ids| && forall i | 0 <= i < |ids| :: ids[i] in k.info && vAddr[i] == k.info[ids[i]].addr
  }

  lemma AddressesFramed(k: Book, k': Book, ids: seq<int>, vAddr: seq<Address>)
    requires Reordered(k, k') && AddressesOf(k, ids, vAddr)
    ensures AddressesOf(k', ids, vAddr)
  {
    forall i | 0 <= i < |ids|
      ensures ids[i] in k'.info && vAddr[i] == k'.info[ids[i]].addr
    {
      var j := ids[i];
      assert j in k.info && j in k'.info;
      assert k'.info[j].SameButPos(k.info[j]);
    }
  }

  lemma HandOutStart(k: Book, nNow: int)
    ensures Reordered(k, k) && AddressesOf(k, Fit(k, 0, nNow), [])
  {
  }

  /** One more place of the random order drawn and, if its entry is fit, handed out. */
  lemma HandOutStep(k0: Book, k: Book, k': Book, n: nat, nNow: int, vAddr: seq<Address>)
    requires k'.Valid() && Reordered(k0, k) && Reordered(k, k')
    requires n < |k.random| && |k'.random| == |k.random| && k'.random[..n] == k.random[..n]
    requires AddressesOf(k, Fit(k, n, nNow), vAddr)
    ensures k'.random[n] in k'.info && Reordered(k0, k')
    ensures var e := k'.info[k'.random[n]];
      AddressesOf(k', Fit(k', n + 1, nNow), if e.IsTerrible(nNow) then vAddr else vAddr + [e.addr])
  {
    hide Book.AddrBijection, Book.NewCells, Book.TriedCells, Book.Refs, Book.Counts, Reordered, Fit;
    ReorderedTwice(k0, k, k');
    FitFramed(k, k', n, nNow);
    FitNext(k', n, nNow);
    AddressesFramed(k, k', Fit(k, n, nNow), vAddr);
  }

  /** The front of the order is all that counts. */
  lemma FitFramed(k: Book, k': Book, n: nat, nNow: int)
    requires Reordered(k, k') && n <= |k.random| && k'.random[..n] == k.random[..n]
    ensures Fit(k', n, nNow) == Fit(k, n, nNow)
  {
    forall i | 0 <= i < n ensures k'.random[i] == k.random[i] {
      assert k'.random[..n][i] == k.random[..n][i];
    }
    if n > 0 {
      assert k'.random[..n - 1] == k'.random[..n][..n - 1] && k.random[..n - 1] == k.random[..n][..n - 1];
      FitFramed(k, k', n - 1, nNow);
      var j := k.random[n - 1];
      assert j in k.info <==> j in k'.info;
      if j in k.info {
        assert k'.info[j].SameButPos(k.info[j]);
      }
    }
  }

  /** Announcing an address never breaks the clock invariant. */
  lemma AddTimes(k: Book, k': Book, addr: Address, source: NetAddr, nTimePenalty: int, nNow: int, roll: nat, fNew: bool)
    requires k.Shape() && k.Times() && Added(k, k', addr, source, nTimePenalty, nNow, roll, fNew)
    ensures k'.Times()
  {
    forall j | j in k'.info
      ensures k'.info[j].nLastTry >= 0 && k'.info[j].nLastSuccess >= 0
      ensures k'.info[j].fInTried ==> k'.info[j].nLastSuccess != 0
    {
    }
  }

  ghost function EmptyTable(rows: nat): Grid {
    seq(rows, b requires 0 <= b < rows => seq(BUCKET_SIZE, i requires 0 <= i < BUCKET_SIZE => EMPTY))
  }

  lemma EmptyGrid(g: Grid, rows: nat)
    requires Dim(g, rows) && forall b, i {:trigger g[b][i]} | 0 <= b < rows && 0 <= i < BUCKET_SIZE :: g[b][i] == EMPTY
    ensures g == EmptyTable(rows)
  {
    forall b | 0 <= b < rows ensures g[b] == EmptyTable(rows)[b] {}
  }

  /** A manager that knows nothing. */
  ghost function Blank(hasher: Hasher, key: Key): Book {
    Book(hasher, key, 0, map[], map[], [], EmptyTable(TRIED_BUCKET_COUNT), EmptyTable(NEW_BUCKET_COUNT), 0, 0)
  }
}
