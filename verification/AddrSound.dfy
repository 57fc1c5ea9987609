/**
 * What any file leaves the indexes in: right but for addresses that are saved twice, and for counters
 * that the header gives wrongly.
 */
module AddrSound {
  import Arithmetic
  import opened AddrTypes
  import opened AddrBook
  import opened AddrCheck
  import opened AddrFile

  /** Every address known leads to an entry that has it, and that of every entry is known. */
  ghost predicate Addressed(k: Book) {
    && (forall id <- k.info :: k.info[id].Ip() in k.addr)
    && (forall ip <- k.addr :: k.addr[ip] in k.info && k.info[k.addr[ip]].Ip() == ip)
  }

  /** The invariant, but for addresses, counters, and references not given yet. */
  ghost predicate Sound(k: Book, n: int) {
    && 0 <= n && k.Shape() && (forall id <- k.info :: 0 <= id < n)
    && k.RandomInverse() && Addressed(k)
    && k.NewCells() && k.TriedCells() && k.Refs(Loose(k))
  }

  // ---------------------------------------------------------------- the steps of reading

  lemma EntryIds(k: Book, n: int, e: AddrInfo)
    requires n !in k.info
    ensures var k' := WithEntry(k, n, e);
      && k'.NewIds() == (if e.fInTried then k.NewIds() else k.NewIds() + {n})
      && k'.TriedIds() == (if e.fInTried then k.TriedIds() + {n} else k.TriedIds())
      && n !in k.NewIds() && n !in k.TriedIds() && k'.info.Keys == k.info.Keys + {n}
      && (!e.fInTried && e.nRefCount == 0 ==> Loose(k') == Loose(k) + {n})
      && (e.fInTried ==> Loose(k') == Loose(k))
  {
    var k' := WithEntry(k, n, e);
    forall j | j in k.info ensures k'.info[j] == k.info[j] {}
  }

  lemma EntryIndexes(k: Book, n: int, e: AddrInfo)
    requires k.RandomInverse() && Addressed(k) && n !in k.info
    ensures WithEntry(k, n, e).RandomInverse() && Addressed(WithEntry(k, n, e))
  {
  }

  /** An entry that is in no new slot and has no reference. */
  lemma EntryRefs(k: Book, n: int, e: AddrInfo)
    requires k.Shape() && k.NewCells() && k.Refs(Loose(k)) && n !in k.info && n != EMPTY && e.nRefCount == 0
    ensures var k' := WithEntry(k, n, e); k'.NewCells() && k'.Refs(Loose(k'))
  {
    var k' := WithEntry(k, n, e);
    EntryIds(k, n, e);
    forall j, s ensures k'.Slots(j, s) == k.Slots(j, s) {}
    assert k.Slots(n, e.addr.service) == {};
  }

  /** One more new entry, without a reference so far. */
  lemma NewEntryKeeps(k: Book, n: int, e: AddrInfo)
    requires Sound(k, n) && !e.fInTried && e.nRefCount == 0
    ensures Sound(WithEntry(k, n, e), n + 1)
  {
    EntryIndexes(k, n, e);
    EntryRefs(k, n, e);
    hide Book.RandomInverse, Addressed, Book.NewCells, Book.Refs, Loose;
    var k' := WithEntry(k, n, e);
    assert k'.TriedCells();
  }

  /** One more tried entry, in its slot if that is free. */
  lemma TriedEntryKeeps(k: Book, n: int, e: AddrInfo)
    requires Sound(k, n) && e.nRefCount == 0 && k.Shape()
    requires k.triedTable[k.TriedBucket(e.addr.service)][k.TriedPos(e.addr.service)] == EMPTY
    ensures Sound(WithTried(k, n, e), n + 1)
    ensures WithTried(k, n, e).NewIds() == k.NewIds() && n !in k.TriedIds()
    ensures WithTried(k, n, e).TriedIds() == k.TriedIds() + {n}
  {
    var t := e.(fInTried := true);
    var k1, k' := WithEntry(k, n, t), WithTried(k, n, e);
    EntryIds(k, n, t);
    EntryIndexes(k, n, t);
    EntryRefs(k, n, t);
    TriedTableAside(k1, k');
    TriedCellsMore(k, n, e);
    hide Book.RandomInverse, Addressed, Book.NewCells, Book.TriedCells, Book.Refs, Loose, Book.NewIds, Book.TriedIds;
  }

  /** What does not depend on the tried table, or on the counters. */
  lemma TriedTableAside(k: Book, k': Book)
    requires k.Shape() && k'.Shape()
    requires k' == k.(triedTable := k'.triedTable, idCount := k'.idCount, nTried := k'.nTried, nNew := k'.nNew)
    ensures k'.NewIds() == k.NewIds() && k'.TriedIds() == k.TriedIds() && Loose(k') == Loose(k)
    ensures k.RandomInverse() ==> k'.RandomInverse()
    ensures Addressed(k) ==> Addressed(k')
    ensures k.NewCells() ==> k'.NewCells()
    ensures k.NewCells() && k.Refs(Loose(k)) ==> k'.Refs(Loose(k'))
    ensures k'.triedTable == k.triedTable && k.TriedCells() ==> k'.TriedCells()
  {
    forall j, s ensures k'.Slots(j, s) == k.Slots(j, s) {}
  }

  lemma TriedCellsMore(k: Book, n: int, e: AddrInfo)
    requires k.Shape() && k.TriedCells() && n !in k.info && EMPTY !in k.info
    requires k.triedTable[k.TriedBucket(e.addr.service)][k.TriedPos(e.addr.service)] == EMPTY
    ensures WithTried(k, n, e).TriedCells()
  {
    var k' := WithTried(k, n, e);
    forall id | id in k'.info && k'.info[id].fInTried
      ensures k'.triedTable[k'.TriedBucket(k'.Service(id))][k'.TriedPos(k'.Service(id))] == id
    {
      if id != n {
        assert k.triedTable[k.TriedBucket(k.Service(id))][k.TriedPos(k.Service(id))] == id;
      }
    }
  }

  /** A reference given in a free slot that the entry hashes to. */
  lemma GiveKeeps(k: Book, n: int, b: int, i: int, id: int)
    requires Sound(k, n) && k.Shape() && 0 <= b < NEW_BUCKET_COUNT && 0 <= i < BUCKET_SIZE
    requires k.newTable[b][i] == EMPTY && id in k.info && !k.info[id].fInTried
    requires k.NewPos(b, k.Service(id)) == i && k.info[id].nRefCount < NEW_BUCKETS_PER_ADDRESS
    ensures Sound(AddRef(k, b, i, id), n)
    ensures AddRef(k, b, i, id).NewIds() == k.NewIds() && AddRef(k, b, i, id).TriedIds() == k.TriedIds()
  {
    var k' := AddRef(k, b, i, id);
    IndexesFramed(k, k');
    TriedFramed(k, k');
    IdsFramed(k, k');
    AddRefSlots(k, b, i, id, Loose(k));
    assert k.info[id].nRefCount >= 0;
    assert Loose(k') == Loose(k) - {id};
    hide Book.RandomInverse, Book.NewCells, Book.TriedCells, Book.Refs, Loose;
    assert Addressed(k');
  }

  // ---------------------------------------------------------------- files as a whole

  /** The first nNew ids are those of new entries. */
  ghost predicate NewFirst(k: Book, nNew: int) {
    forall id <- k.info :: k.info[id].fInTried <==> id >= nNew
  }

  ghost predicate SameSorts(k: Book, k': Book) {
    && k'.NewIds() == k.NewIds() && k'.TriedIds() == k.TriedIds()
    && k'.info.Keys == k.info.Keys
    && (forall id <- k.info :: id in k'.info && k'.info[id].Ip() == k.info[id].Ip())
  }

  lemma SameSortsTwice(k: Book, k': Book, k'': Book)
    requires SameSorts(k, k') && SameSorts(k', k'')
    ensures SameSorts(k, k'')
  {
    forall id | id in k.info ensures id in k''.info && k''.info[id].Ip() == k.info[id].Ip() {
      assert id in k'.info.Keys;
    }
  }

  lemma AddRefSorts(k: Book, b: int, i: int, id: int)
    requires k.Shape() && 0 <= b < NEW_BUCKET_COUNT && 0 <= i < BUCKET_SIZE && id in k.info
    ensures SameSorts(k, AddRef(k, b, i, id))
  {
    IdsFramed(k, AddRef(k, b, i, id));
  }

  /** The new entries 0, 1, ..., n - 1, and nothing else. */
  ghost predicate NewRead(k: Book, n: nat) {
    Sound(k, n) && k.NewIds() == Below(n) && k.TriedIds() == {} && k.info.Keys == Below(n)
  }

  lemma EntryRead(k: Book, e: AddrInfo, n: nat)
    requires NewRead(k, n) && !e.fInTried && e.nRefCount == 0
    ensures NewRead(WithEntry(k, n, e), n + 1)
  {
    NewReadIds(k, n);
    NewEntryKeeps(k, n, e);
    EntryIds(k, n, e);
    hide Sound, Book.NewIds, Book.TriedIds, WithEntry, Below;
    BelowNext(n);
  }

  lemma BelowNext(n: nat)
    ensures Below(n + 1) == Below(n) + {n}
  {
  }

  lemma HomedRead(k: Book, n: nat, id: int)
    requires NewRead(k, n) && k.Shape() && id in k.info && !k.info[id].fInTried && k.info[id].nRefCount == 0
    ensures NewRead(Homed(k, id), n)
  {
    hide Sound, Book.NewIds, Book.TriedIds, Homed;
    HomedSound(k, n, id);
  }

  lemma NewReadNext(k: Book, file: PeersFile, n: nat)
    requires k.Shape() && NewRead(k, n) && n < |file.newEntries|
    ensures NewRead(NextNew(k, file, n), n + 1)
  {
    hide NewRead, Homed;
    var e := Restore(file.newEntries[n]);
    EntryRead(k, e, n);
    if !file.HasSlots() {
      HomedRead(WithEntry(k, n, e), n + 1, n);
    }
  }

  lemma {:induction false} NewSound(h: Hasher, file: PeersFile, n: nat)
    requires n <= |file.newEntries|
    ensures NewRead(AfterNew(Headed(h, file), file, n), n)
  {
    hide NewRead, NextNew, Headed;
    if n == 0 {
      NothingRead(h, file);
    } else {
      NewSound(h, file, n - 1);
      NewReadNext(AfterNew(Headed(h, file), file, n - 1), file, n - 1);
    }
  }

  lemma NothingRead(h: Hasher, file: PeersFile)
    ensures NewRead(Headed(h, file), 0)
  {
    assert Below(0) == {};
  }

  lemma HomedSound(k: Book, n: int, id: int)
    requires Sound(k, n) && k.Shape() && id in k.info && !k.info[id].fInTried && k.info[id].nRefCount == 0
    ensures Sound(Homed(k, id), n) && SameSorts(k, Homed(k, id))
  {
    var b := k.hasher.NewBucket(k.key, k.Service(id), k.info[id].source);
    var i := k.NewPos(b, k.Service(id));
    hide Sound, SameSorts;
    if k.newTable[b][i] == EMPTY {
      GiveKeeps(k, n, b, i, id);
      AddRefSorts(k, b, i, id);
    } else {
      SameSortsSelf(k);
    }
  }

  lemma SameSortsSelf(k: Book)
    ensures SameSorts(k, k)
  {
  }

  // ---------------------------------------------------------------- the tried entries

  /** What holds once tried entries are read: each has its slot, and the next id is one more than the last. */
  ghost predicate TriedRead(k0: Book, k: Book) {
    && Sound(k, k.idCount) && k0.idCount <= k.idCount
    && k.NewIds() == k0.NewIds() && |k.TriedIds()| == |k0.TriedIds()| + k.idCount - k0.idCount
    && (forall id <- k.info :: id in k0.info || id >= k0.idCount)
    && (forall id <- k0.info :: id in k.info)
  }

  lemma TriedReadNext(k0: Book, k: Book, e: AddrInfo)
    requires k.Shape() && TriedRead(k0, k) && e.nRefCount == 0
    ensures TriedRead(k0, NextTried(k, e))
  {
    var s := e.addr.service;
    if k.triedTable[k.TriedBucket(s)][k.TriedPos(s)] == EMPTY {
      TriedEntryKeeps(k, k.idCount, e);
      hide Sound, Book.NewIds, Book.TriedIds;
    }
  }

  lemma {:induction false} TriedSound(k0: Book, file: PeersFile, n: nat)
    requires k0.Shape() && Sound(k0, k0.idCount) && n <= |file.triedEntries|
    ensures TriedRead(k0, AfterTried(k0, file, n))
  {
    hide Sound, TriedRead, NextTried;
    if n == 0 {
      TriedReadNothing(k0);
    } else {
      TriedSound(k0, file, n - 1);
      TriedReadNext(k0, AfterTried(k0, file, n - 1), Restore(file.triedEntries[n - 1]));
    }
  }

  lemma TriedReadNothing(k: Book)
    requires Sound(k, k.idCount)
    ensures TriedRead(k, k)
  {
    hide Sound;
  }

  // ---------------------------------------------------------------- the saved slots

  /** What holds while references are given to new entries. */
  ghost predicate SlotsRead(k0: Book, k: Book, nNew: int) {
    Sound(k, k.idCount) && SameSorts(k0, k) && NewFirst(k, nNew)
  }

  lemma SlotsReadNext(k0: Book, k: Book, file: PeersFile, b: nat, nIndex: int)
    requires k.Shape() && b < file.Buckets() && SlotsRead(k0, k, file.nNew)
    ensures SlotsRead(k0, WithIndex(k, file, b, nIndex), file.nNew)
  {
    var k' := WithIndex(k, file, b, nIndex);
    if 0 <= nIndex < file.nNew && nIndex in k.info && file.HasSlots() {
      var i := k.NewPos(b, k.Service(nIndex));
      if k.newTable[b][i] == EMPTY && k.info[nIndex].nRefCount < NEW_BUCKETS_PER_ADDRESS {
        GiveKeeps(k, k.idCount, b, i, nIndex);
        AddRefSorts(k, b, i, nIndex);
        SameSortsTwice(k0, k, k');
        hide Sound, SameSorts;
      }
    }
  }

  lemma {:induction false} RowSound(k0: Book, k: Book, file: PeersFile, b: nat, n: nat)
    requires k.Shape() && SlotsRead(k0, k, file.nNew)
    requires b < file.Buckets() && b < |file.buckets| && n <= |file.buckets[b]|
    ensures SlotsRead(k0, AfterRow(k, file, b, n), file.nNew)
  {
    hide SlotsRead, WithIndex;
    if n > 0 {
      RowSound(k0, k, file, b, n - 1);
      SlotsReadNext(k0, AfterRow(k, file, b, n - 1), file, b, file.buckets[b][n - 1]);
    }
  }

  lemma {:induction false} BucketsSound(k0: Book, k: Book, file: PeersFile, b: nat)
    requires k.Shape() && SlotsRead(k0, k, file.nNew)
    requires (b == 0 || b <= file.Buckets()) && b <= |file.buckets|
    ensures SlotsRead(k0, AfterBuckets(k, file, b), file.nNew)
  {
    hide SlotsRead, AfterRow;
    if b > 0 {
      BucketsSound(k0, k, file, b - 1);
      RowSound(k0, AfterBuckets(k, file, b - 1), file, b - 1, |file.buckets[b - 1]|);
    }
  }

  // ---------------------------------------------------------------- all of a file

  /** Everything read, the counters are right but for the entries left without a slot. */
  ghost predicate Counted(k: Book) {
    Sound(k, k.idCount) && k.nNew == |k.NewIds()| && k.nTried == |k.TriedIds()|
  }

  /** Neither the next id nor the counters matter to what is sound, as long as ids stay below. */
  lemma SoundAside(k: Book, k': Book, n: int)
    requires Sound(k, n) && k' == k.(idCount := k'.idCount, nTried := k'.nTried, nNew := k'.nNew)
    ensures Sound(k', n) && k'.NewIds() == k.NewIds() && k'.TriedIds() == k.TriedIds()
  {
    TriedTableAside(k, k');
  }

  /** Once the new entries are read, and the next id is the first behind them. */
  lemma NewLoadedSound(h: Hasher, file: PeersFile)
    requires file.Whole() && file.nNew >= 0
    ensures var k := AfterNew(Headed(h, file), file, file.nNew).(idCount := file.nNew);
      && k.Shape() && Sound(k, k.idCount) && |k.NewIds()| == file.nNew == k.nNew && k.TriedIds() == {}
      && k.nTried == file.nTried && forall id <- k.info :: !k.info[id].fInTried && id < file.nNew
  {
    var k0 := AfterNew(Headed(h, file), file, file.nNew);
    var k := k0.(idCount := file.nNew);
    NewSound(h, file, file.nNew);
    hide AfterNew, Sound;
    SoundAside(k0, k, file.nNew);
    forall id | id in k.info ensures !k.info[id].fInTried && id < file.nNew {
      assert id in k.info.Keys && id !in k.TriedIds();
    }
  }

  /** Once the tried entries are read. */
  lemma TriedLoadedSound(h: Hasher, file: PeersFile)
    requires file.Whole() && file.nNew >= 0 && file.nTried >= 0
    ensures var k := TriedLoaded(AfterNew(Headed(h, file), file, file.nNew), file);
      Counted(k) && NewFirst(k, file.nNew)
  {
    var k0 := AfterNew(Headed(h, file), file, file.nNew);
    var k1 := k0.(idCount := file.nNew);
    NewLoadedSound(h, file);
    hide AfterNew, Headed, Sound, AfterTried;
    TriedSound(k1, file, file.nTried);
    var k2 := AfterTried(k1, file, file.nTried);
    var k := TriedLoaded(k0, file);
    assert k == k2.(nTried := k.nTried);
    SoundAside(k2, k, k2.idCount);
    NewOnesFirst(k1, k2, file.nNew);
  }

  lemma NewOnesFirst(k1: Book, k2: Book, nNew: int)
    requires TriedRead(k1, k2) && k1.idCount == nNew
    requires forall id <- k1.info :: !k1.info[id].fInTried && id < nNew
    ensures forall nTried :: NewFirst(k2.(nTried := nTried), nNew)
  {
    hide Sound;
    forall id | id in k2.info ensures k2.info[id].fInTried <==> id >= nNew {
      assert id in k2.NewIds() <==> id in k1.NewIds();
    }
  }

  /** All read: right but for the entries left without a slot, and addresses that are there twice. */
  lemma FilledSound(h: Hasher, file: PeersFile)
    requires file.Whole() && file.nNew >= 0 && file.nTried >= 0
    ensures Counted(Filled(h, file))
  {
    var k := TriedLoaded(AfterNew(Headed(h, file), file, file.nNew), file);
    TriedLoadedSound(h, file);
    hide Sound, AfterNew, TriedLoaded, AfterBuckets, NewFirst;
    SameSortsSelf(k);
    BucketsSound(k, k, file, Arithmetic.Max(0, file.Buckets()));
  }

  // ---------------------------------------------------------------- pruning

  lemma PrunedIds(k: Book, k': Book)
    requires Pruned(k, k', Loose(k)) && k.Shape() && k.Refs(Loose(k))
    ensures k'.Shape()
    ensures k'.NewIds() == k.NewIds() - Loose(k) && k'.TriedIds() == k.TriedIds() && Loose(k) <= k.NewIds()
    ensures forall id <- k'.info :: id in k.info && k'.info[id].SameButPos(k.info[id])
    ensures forall id <- k.info :: id in k'.info <==> id !in Loose(k)
  {
    forall id | id in k.info ensures id in k'.info <==> id !in Loose(k) {
      assert id in k'.info <==> id in k'.info.Keys;
    }
    forall id ensures id in k'.TriedIds() <==> id in k.TriedIds() {
      if id in k.TriedIds() {
        assert id in k'.info && k'.info[id].SameButPos(k.info[id]);
      }
    }
    forall id ensures id in k'.NewIds() <==> id in k.NewIds() - Loose(k) {
      if id in k.NewIds() - Loose(k) {
        assert id in k'.info && k'.info[id].SameButPos(k.info[id]);
      }
    }
  }

  /** Whatever is pruned had no slot, so the tables are right, and nothing is left without a reference. */
  lemma PrunedCells(k: Book, k': Book)
    requires Pruned(k, k', Loose(k)) && Sound(k, k.idCount)
    ensures k'.Shape() && k'.NewCells() && k'.TriedCells() && k'.Refs({})
  {
    PrunedIds(k, k');
    forall b, i | 0 <= b < NEW_BUCKET_COUNT && 0 <= i < BUCKET_SIZE && k.newTable[b][i] != EMPTY
      ensures k.newTable[b][i] !in Loose(k)
    {
      if k.newTable[b][i] in Loose(k) {
        LooseHasNoCell(k, k.newTable[b][i], Loose(k));
      }
    }
    forall j, s ensures k'.Slots(j, s) == k.Slots(j, s) {}
    hide Book.RandomInverse, Addressed;
  }

  /** Addresses and entries match exactly when no two entries shared an address, unless both had no slot. */
  ghost predicate Resolved(k: Book) {
    forall a, b | a in k.info && b in k.info && a != b && k.info[a].Ip() == k.info[b].Ip() ::
      a in Loose(k) && b in Loose(k)
  }

  lemma PrunedAddresses(k: Book, k': Book)
    requires Pruned(k, k', Loose(k)) && Sound(k, k.idCount)
    ensures k'.AddrBijection() <==> Resolved(k)
  {
    PrunedIds(k, k');
    hide Book.RandomInverse, Book.NewCells, Book.TriedCells, Book.Refs;
    if Resolved(k) {
      forall id | id in k'.info ensures k'.info[id].Ip() in k'.addr && k'.addr[k'.info[id].Ip()] == id {
        assert id in k.info && k'.info[id].SameButPos(k.info[id]);
      }
      forall ip | ip in k'.addr ensures k'.addr[ip] in k'.info && k'.info[k'.addr[ip]].Ip() == ip {
        var id := k.addr[ip];
        assert id in k.info && k.info[id].Ip() == ip;
        if id in Loose(k) {
          assert false;
        }
        assert k'.info[id].SameButPos(k.info[id]);
      }
    }
    if k'.AddrBijection() {
      forall a, b | a in k.info && b in k.info && a != b && k.info[a].Ip() == k.info[b].Ip()
        ensures a in Loose(k)
      {
        if a !in Loose(k) {
          assert false;
        }
      }
    }
  }

  lemma PrunedCounts(k: Book, k': Book)
    requires Pruned(k, k', Loose(k)) && Counted(k)
    ensures k'.Counts({})
  {
    PrunedIds(k, k');
    hide Book.NewIds, Book.TriedIds, Loose, Sound;
    assert k'.NewIds() - {} == k'.NewIds();
    assert |k.NewIds() - Loose(k)| == |k.NewIds()| - |Loose(k)|;
  }

  lemma PrunedOrder(k: Book, k': Book)
    requires Pruned(k, k', Loose(k))
    ensures k'.RandomInverse() && k'.nNew <= k.nNew && k'.nTried == k.nTried
  {
  }

  lemma CountsNatural(k: Book)
    requires k.Counts({})
    ensures k.nNew >= 0 && k.nTried >= 0
  {
  }

  /** When loading a file gives the invariant. */
  lemma LoadedIsValid(h: Hasher, file: PeersFile, k': Book)
    requires file.Whole() && var k := Filled(h, file); Pruned(k, k', Loose(k))
    ensures k'.Valid() <==> file.nNew >= 0 && file.nTried >= 0 && Resolved(Filled(h, file))
  {
    hide Filled, Resolved, Pruned, Loose, Sound;
    hide Book.NewCells, Book.TriedCells, Book.Refs, Book.Counts, Book.RandomInverse, Book.AddrBijection;
    var k := Filled(h, file);
    CountersOfFilled(h, file);
    PrunedOrder(k, k');
    if file.nNew >= 0 && file.nTried >= 0 {
      FilledSound(h, file);
      PrunedCells(k, k');
      PrunedAddresses(k, k');
      PrunedCounts(k, k');
    } else if k'.Counts({}) {
      CountsNatural(k');
    }
  }

  lemma CountersOfFilled(h: Hasher, file: PeersFile)
    requires file.Whole()
    ensures Filled(h, file).nNew == file.nNew
    ensures file.nTried < 0 ==> Filled(h, file).nTried < 0
  {
  }

  // ---------------------------------------------------------------- files with distinct addresses

  /** The file has all the entries it announces. */
  predicate Complete(file: PeersFile) {
    0 <= file.nNew <= |file.newEntries| && 0 <= file.nTried <= |file.triedEntries|
  }

  /** The address of an entry of the file, the new ones first. */
  function SavedIp(file: PeersFile, r: int): NetAddr
    requires Complete(file) && 0 <= r < file.nNew + file.nTried
  {
    if r < file.nNew then file.newEntries[r].addr.service.ip else file.triedEntries[r - file.nNew].addr.service.ip
  }

  /** No address is saved twice. */
  ghost predicate Distinct(file: PeersFile) {
    Complete(file) && forall r, q | 0 <= r < q < file.nNew + file.nTried :: SavedIp(file, r) != SavedIp(file, q)
  }

  /** The entries have different addresses, all of them among the first n of the file. */
  ghost predicate Apart(k: Book, file: PeersFile, n: int)
    requires Complete(file) && n <= file.nNew + file.nTried
  {
    && (forall a, b | a in k.info && b in k.info && a != b :: k.info[a].Ip() != k.info[b].Ip())
    && (forall id <- k.info :: exists r | 0 <= r < n :: SavedIp(file, r) == k.info[id].Ip())
  }

  lemma ApartMore(k: Book, k': Book, file: PeersFile, n: int, id: int)
    requires Distinct(file) && Complete(file) && 0 <= n < file.nNew + file.nTried && Apart(k, file, n) && id !in k.info
    requires k'.info.Keys == k.info.Keys + {id} && k'.info[id].Ip() == SavedIp(file, n)
    requires forall j <- k.info :: j in k'.info && k'.info[j].Ip() == k.info[j].Ip()
    ensures Apart(k', file, n + 1)
  {
    forall j | j in k'.info ensures j == id || j in k.info {
      assert j in k'.info.Keys;
    }
  }

  lemma EntryApart(k: Book, file: PeersFile, n: nat)
    requires Distinct(file) && Complete(file) && n < file.nNew && n !in k.info && Apart(k, file, n)
    ensures Apart(WithEntry(k, n, Restore(file.newEntries[n])), file, n + 1)
  {
    hide Distinct, Apart;
    ApartMore(k, WithEntry(k, n, Restore(file.newEntries[n])), file, n, n);
  }

  lemma HomedIps(k: Book, id: int)
    requires k.Shape() && id in k.info
    ensures Homed(k, id).info.Keys == k.info.Keys
    ensures forall j <- k.info :: j in Homed(k, id).info && Homed(k, id).info[j].Ip() == k.info[j].Ip()
  {
  }

  lemma NewApartNext(k: Book, file: PeersFile, n: nat)
    requires Distinct(file) && Complete(file) && n < file.nNew && k.Shape() && n !in k.info && Apart(k, file, n)
    ensures Apart(NextNew(k, file, n), file, n + 1)
  {
    hide Distinct, Apart, Homed, Restore, Book.Shape;
    var k1 := WithEntry(k, n, Restore(file.newEntries[n]));
    EntryApart(k, file, n);
    assert k1.Shape() && n in k1.info by {
      EntryShape(k, n, Restore(file.newEntries[n]));
    }
    HomedIps(k1, n);
    ApartStays(k1, Homed(k1, n), file, n + 1);
  }

  lemma EntryShape(k: Book, n: int, e: AddrInfo)
    requires k.Shape()
    ensures WithEntry(k, n, e).Shape() && n in WithEntry(k, n, e).info
  {
  }

  lemma ApartStays(k: Book, k': Book, file: PeersFile, n: int)
    requires Complete(file) && n <= file.nNew + file.nTried && Apart(k, file, n)
    requires k'.info.Keys == k.info.Keys && forall id <- k.info :: id in k'.info && k'.info[id].Ip() == k.info[id].Ip()
    ensures Apart(k', file, n)
  {
    forall j | j in k'.info ensures j in k.info {
      assert j in k'.info.Keys;
    }
  }

  lemma {:induction false} NewApart(h: Hasher, file: PeersFile, n: nat)
    requires Distinct(file) && Complete(file) && n <= file.nNew
    ensures Apart(AfterNew(Headed(h, file), file, n), file, n)
  {
    hide Distinct, Apart, NextNew, Headed, NewRead;
    if n == 0 {
      NothingApart(h, file);
    } else {
      NewApart(h, file, n - 1);
      NewSound(h, file, n - 1);
      NewReadIds(AfterNew(Headed(h, file), file, n - 1), n - 1);
      NewApartNext(AfterNew(Headed(h, file), file, n - 1), file, n - 1);
    }
  }

  lemma NewReadIds(k: Book, n: nat)
    requires NewRead(k, n)
    ensures k.RandomInverse() && forall id :: id in k.info <==> 0 <= id < n
  {
    forall id ensures id in k.info <==> 0 <= id < n {
      assert id in k.info <==> id in k.info.Keys;
    }
  }

  lemma NothingApart(h: Hasher, file: PeersFile)
    requires Complete(file)
    ensures Apart(Headed(h, file), file, 0)
  {
  }

  lemma TriedApartNext(k: Book, file: PeersFile, n: nat)
    requires Distinct(file) && Complete(file) && n < file.nTried && k.Shape() && Apart(k, file, file.nNew + n)
    requires k.idCount !in k.info
    ensures Apart(NextTried(k, Restore(file.triedEntries[n])), file, file.nNew + n + 1)
  {
    hide Distinct, Apart;
    var e := Restore(file.triedEntries[n]);
    if NextTried(k, e) == k {
      ApartAlso(k, file, file.nNew + n);
    } else {
      ApartMore(k, WithTried(k, k.idCount, e), file, file.nNew + n, k.idCount);
    }
  }

  lemma {:induction false} TriedApart(k0: Book, file: PeersFile, n: nat)
    requires k0.Shape() && Sound(k0, k0.idCount) && Distinct(file) && Complete(file) && n <= file.nTried
    requires Apart(k0, file, file.nNew)
    ensures Apart(AfterTried(k0, file, n), file, file.nNew + n)
  {
    hide Distinct, Apart, Sound, NextTried;
    if n > 0 {
      TriedApart(k0, file, n - 1);
      TriedSound(k0, file, n - 1);
      NotYetThere(AfterTried(k0, file, n - 1));
      TriedApartNext(AfterTried(k0, file, n - 1), file, n - 1);
    }
  }

  lemma NotYetThere(k: Book)
    requires Sound(k, k.idCount)
    ensures k.idCount !in k.info
  {
  }

  lemma ApartAlso(k: Book, file: PeersFile, n: int)
    requires Complete(file) && n < file.nNew + file.nTried && Apart(k, file, n)
    ensures Apart(k, file, n + 1)
  {
  }

  /** A file without repeated addresses leaves nothing to resolve. */
  lemma DistinctIsResolved(h: Hasher, file: PeersFile)
    requires Distinct(file) && file.Whole()
    ensures file.nNew >= 0 && file.nTried >= 0 && Resolved(Filled(h, file))
  {
    assert Complete(file);
    var k0 := AfterNew(Headed(h, file), file, file.nNew);
    var k1 := k0.(idCount := file.nNew);
    NewApart(h, file, file.nNew);
    NewLoadedSound(h, file);
    hide Distinct, Sound, AfterNew, AfterTried, AfterBuckets, Headed, Loose;
    TriedApart(k1, file, file.nTried);
    var k := TriedLoaded(k0, file);
    TriedLoadedSound(h, file);
    SameSortsSelf(k);
    BucketsSound(k, k, file, Arithmetic.Max(0, file.Buckets()));
    var k' := Filled(h, file);
    assert SameSorts(k, k');
    forall a, b | a in k'.info && b in k'.info && a != b
      ensures k'.info[a].Ip() != k'.info[b].Ip()
    {
      assert a in k.info.Keys && b in k.info.Keys;
    }
  }
}
