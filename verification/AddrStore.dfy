/** Saving the address manager to peers.dat and loading it back. */
module AddrStore {
  import Arithmetic
  import opened AddrTypes
  import opened AddrBook
  import opened AddrCheck
  import opened AddrMan
  import opened AddrSound
  import opened AddrFile
  import opened AddrReload

  // ---------------------------------------------------------------- saving

  method Serialize(m: AddrMan) returns (file: PeersFile)
    requires m.Shape() && m.State().Valid()
    ensures file == FileOf(m.State())
    ensures file.nVersion == 1 && file.nKeySize == 32 && file.nUBuckets == 1073742848
    ensures file.nKey == m.nKey && file.nNew == m.nNew && file.nTried == m.nTried && |file.buckets| == 1024
  {
    ghost var k := m.State();
    hide Book.RandomInverse, Book.NewCells, Book.TriedCells, Book.Refs;
    hide Book.Counts, NewOrder, TriedOrder, BucketIndexes;
    var newEntries, mapUnkIds := SerializeNew(m);
    var triedEntries := SerializeTried(m);
    var buckets: seq<seq<int>> := [];
    for b := 0 to NEW_BUCKET_COUNT
      invariant buckets == seq(b, c requires 0 <= c < b => BucketIndexes(k, c, BUCKET_SIZE))
    {
      var row := SerializeBucket(m, mapUnkIds, b);
      buckets := buckets + [row];
    }
    file := PeersFile(1, 32, m.nKey, m.nNew, m.nTried, FlipBit30(NEW_BUCKET_COUNT), newEntries, triedEntries, buckets);
  }

  /** One id more: its entry is listed when it has references. */
  lemma OneMoreNew(k: Book, id: nat)
    ensures id in k.info && k.info[id].nRefCount != 0 ==>
              Entries(k, NewOrder(k, id + 1)) == Entries(k, NewOrder(k, id)) + [Persist(k.info[id])]
    ensures !(id in k.info && k.info[id].nRefCount != 0) ==> NewOrder(k, id + 1) == NewOrder(k, id)
  {
  }

  method SerializeNew(m: AddrMan) returns (newEntries: seq<Stored>, mapUnkIds: map<int, int>)
    requires m.Shape() && m.State().Valid()
    ensures newEntries == Entries(m.State(), NewOrder(m.State(), m.nIdCount))
    ensures forall j <- m.mapInfo :: j >= 0 && j in mapUnkIds && mapUnkIds[j] == |NewOrder(m.State(), j)|
  {
    ghost var k := m.State();
    AllBelowCounter(k);
    hide Book.Inv, Contents, Entries, NewOrder, Persist;
    mapUnkIds := map[];
    newEntries := [];
    var nIds := 0;
    for id := 0 to m.nIdCount
      invariant newEntries == Entries(k, NewOrder(k, id)) && nIds == |newEntries|
      invariant forall j <- m.mapInfo | j < id :: j in mapUnkIds && mapUnkIds[j] == |NewOrder(k, j)|
    {
      OneMoreNew(k, id);
      if id in m.mapInfo {
        CounterNotReached(k, id);
        mapUnkIds := mapUnkIds[id := nIds];
        if m.mapInfo[id].nRefCount != 0 {
          assert nIds != m.nNew;
          newEntries := newEntries + [Persist(m.mapInfo[id])];
          nIds := nIds + 1;
        }
      }
    }
  }

  lemma AllBelowCounter(k: Book)
    requires k.Valid()
    ensures k.idCount >= 0 && forall id <- k.info :: 0 <= id < k.idCount
    ensures Entries(k, NewOrder(k, 0)) == []
  {
  }

  method SerializeTried(m: AddrMan) returns (triedEntries: seq<Stored>)
    requires m.Shape() && m.State().Valid()
    ensures triedEntries == Entries(m.State(), TriedOrder(m.State(), m.nIdCount))
  {
    ghost var k := m.State();
    hide Book.RandomInverse, Book.NewCells, Book.TriedCells, Book.Refs, Book.Counts;
    triedEntries := [];
    var nIds := 0;
    for id := 0 to m.nIdCount
      invariant triedEntries == Entries(k, TriedOrder(k, id)) && nIds == |triedEntries|
    {
      if id in m.mapInfo && m.mapInfo[id].fInTried {
        CounterNotReached(k, id);
        assert nIds != m.nTried;
        triedEntries := triedEntries + [Persist(m.mapInfo[id])];
        nIds := nIds + 1;
      }
    }
  }

  /** The size of a bucket, and then its indexes: the sequence carries both. */
  method SerializeBucket(m: AddrMan, mapUnkIds: map<int, int>, b: nat) returns (row: seq<int>)
    requires m.Shape() && m.State().Valid() && b < NEW_BUCKET_COUNT
    requires forall j <- m.mapInfo :: j >= 0 && j in mapUnkIds && mapUnkIds[j] == |NewOrder(m.State(), j)|
    ensures row == BucketIndexes(m.State(), b, BUCKET_SIZE)
  {
    ghost var k := m.State();
    hide Book.RandomInverse, Book.TriedCells, Book.Refs, Book.Counts;
    row := [];
    for i := 0 to BUCKET_SIZE
      invariant row == BucketIndexes(k, b, i)
    {
      var id := m.vvNew[b, i];
      assert id == k.newTable[b][i];
      if id != EMPTY {
        row := row + [mapUnkIds[id]];
      }
    }
  }

  // ---------------------------------------------------------------- loading

  /** One entry read into the maps and the random order. */
  method ReadEntry(m: AddrMan, id: int, info: AddrInfo)
    requires m.Shape() && m.State().RandomInverse() && id !in m.mapInfo
    modifies m`mapInfo, m`mapAddr, m`vRandom
    ensures m.State() == WithEntry(old(m.State()), id, info)
    ensures m.State().RandomInverse()
  {
    m.mapInfo := m.mapInfo[id := info.(nRandomPos := |m.vRandom|)];
    m.mapAddr := m.mapAddr[info.Ip() := id];
    m.vRandom := m.vRandom + [id];
  }

  /** A reference in the slot the entry's own source hashes to, if that slot is free. */
  method GiveSlot(m: AddrMan, id: int)
    requires m.Shape() && m.State().RandomInverse() && id in m.mapInfo
    modifies m`mapInfo, m.vvNew
    ensures m.State() == Homed(old(m.State()), id)
    ensures m.State().RandomInverse() && m.mapInfo.Keys == old(m.mapInfo.Keys)
  {
    var info := m.mapInfo[id];
    var b := m.hasher.NewBucket(m.nKey, info.addr.service, info.source);
    var i := m.hasher.Position(m.nKey, true, b, info.addr.service);
    if m.vvNew[b, i] == EMPTY {
      m.AddRefAt(b, i, id);
    }
  }

  /** One new entry; where the saved slots cannot be used, it gets one by its source at once. */
  method ReadNew(m: AddrMan, file: PeersFile, n: nat)
    requires m.Shape() && m.State().RandomInverse() && n !in m.mapInfo && n < |file.newEntries|
    modifies m`mapInfo, m`mapAddr, m`vRandom, m.vvNew
    ensures m.State() == NextNew(old(m.State()), file, n) && m.State().RandomInverse()
  {
    hide Book.RandomInverse, Contents, Homed, PeersFile.HasSlots;
    ReadEntry(m, n, Restore(file.newEntries[n]));
    if !file.HasSlots() {
      GiveSlot(m, n);
    }
  }

  /** The new entries, under the ids 0, 1, 2, ... */
  method LoadNew(m: AddrMan, file: PeersFile) returns (ok: bool)
    requires m.Shape() && m.State() == Headed(m.hasher, file)
    modifies m`mapInfo, m`mapAddr, m`vRandom, m.vvNew
    ensures m.State().RandomInverse()
    ensures ok <==> file.nNew <= |file.newEntries|
    ensures ok ==> m.State() == AfterNew(Headed(m.hasher, file), file, Arithmetic.Max(0, file.nNew))
    ensures ok ==> forall id :: id in m.mapInfo <==> 0 <= id < file.nNew
  {
    hide Book.RandomInverse, Contents, NextNew, Headed;
    var n := 0;
    while n < file.nNew
      invariant 0 <= n <= |file.newEntries| && (n <= file.nNew || n == 0)
      invariant m.State() == AfterNew(Headed(m.hasher, file), file, n)
      decreases file.nNew - n
    {
      NewIdsAre(m.hasher, file, n);
      if n >= |file.newEntries| {
        return false;
      }
      ReadNew(m, file, n);
      n := n + 1;
    }
    NewIdsAre(m.hasher, file, n);
    ok := true;
  }

  lemma NewIdsAre(h: Hasher, file: PeersFile, n: nat)
    requires n <= |file.newEntries|
    ensures var k := AfterNew(Headed(h, file), file, n);
      k.RandomInverse() && forall id :: id in k.info <==> 0 <= id < n
  {
    hide NewRead, AfterNew, Headed, Book.RandomInverse;
    NewSound(h, file, n);
    NewReadIds(AfterNew(Headed(h, file), file, n), n);
  }

  /** One tried entry read, if its slot is free. */
  method ReadTried(m: AddrMan, info: AddrInfo) returns (lost: bool)
    requires m.Shape() && m.State().RandomInverse() && m.nIdCount !in m.mapInfo
    modifies m`mapInfo, m`mapAddr, m`vRandom, m`nIdCount, m.vvTried
    ensures m.State().RandomInverse()
    ensures m.State() == NextTried(old(m.State()), info)
    ensures m.nIdCount == old(m.nIdCount) + (if lost then 0 else 1) && m.nTried == old(m.nTried)
    ensures forall id :: id in m.mapInfo <==> id in old(m.mapInfo) || (!lost && id == old(m.nIdCount))
  {
    var b := m.hasher.TriedBucket(m.nKey, info.addr.service);
    var i := m.hasher.Position(m.nKey, false, b, info.addr.service);
    lost := m.vvTried[b, i] != EMPTY;
    if !lost {
      ReadEntry(m, m.nIdCount, info.(fInTried := true));
      SetSlot(m.vvTried, b, i, m.nIdCount);
      m.nIdCount := m.nIdCount + 1;
    }
  }

  /** The tried entries; those whose slot is taken are lost. */
  method LoadTried(m: AddrMan, file: PeersFile) returns (ok: bool)
    requires m.Shape() && m.State().RandomInverse() && m.nIdCount == file.nNew && m.nTried == file.nTried
    requires forall id <- m.mapInfo :: id < file.nNew
    modifies m`mapInfo, m`mapAddr, m`vRandom, m`nIdCount, m`nTried, m.vvTried
    ensures ok <==> file.nTried <= |file.triedEntries|
    ensures ok ==> m.State() == TriedLoaded(old(m.State()), file)
    ensures m.State().RandomInverse() && forall id <- old(m.mapInfo) :: id in m.mapInfo
  {
    hide Book.RandomInverse, Contents, NextTried, Restore;
    ghost var k0 := m.State();
    var nLost := 0;
    var n := 0;
    while n < file.nTried
      invariant 0 <= n <= |file.triedEntries| && (n <= file.nTried || n == 0)
      invariant nLost == n - (m.nIdCount - file.nNew) && m.nTried == file.nTried
      invariant m.State() == AfterTried(k0, file, n) && m.State().RandomInverse()
      invariant (forall id <- m.mapInfo :: id < m.nIdCount) && (forall id <- k0.info :: id in m.mapInfo)
      decreases file.nTried - n
    {
      if n >= |file.triedEntries| {
        return false;
      }
      var lost := ReadTried(m, Restore(file.triedEntries[n]));
      if lost {
        nLost := nLost + 1;
      }
      n := n + 1;
    }
    ghost var k1 := m.State();
    m.nTried := m.nTried - nLost;
    assert m.State() == k1.(nTried := m.nTried) && k0.(idCount := file.nNew) == k0;
    OrderIgnoresCounts(k1, m.nTried);
    ok := true;
  }

  lemma OrderIgnoresCounts(k: Book, nTried: int)
    ensures k.(nTried := nTried).RandomInverse() <==> k.RandomInverse()
    ensures forall c :: k.(idCount := c).RandomInverse() <==> k.RandomInverse()
  {
  }

  /** One saved index read: its entry gets the slot it hashes to, if the slot is free and the entry has room. */
  method ReadIndex(m: AddrMan, file: PeersFile, bucket: nat, nIndex: int)
    requires m.Shape() && m.State().RandomInverse() && bucket < file.Buckets()
    requires forall id | 0 <= id < file.nNew :: id in m.mapInfo
    modifies m`mapInfo, m.vvNew
    ensures m.State().RandomInverse() && m.mapInfo.Keys == old(m.mapInfo.Keys)
    ensures m.State() == WithIndex(old(m.State()), file, bucket, nIndex)
  {
    if 0 <= nIndex < file.nNew {
      var info := m.mapInfo[nIndex];
      var pos := m.hasher.Position(m.nKey, true, bucket, info.addr.service);
      if file.HasSlots() && m.vvNew[bucket, pos] == EMPTY
         && info.nRefCount < NEW_BUCKETS_PER_ADDRESS {
        m.AddRefAt(bucket, pos, nIndex);
      }
    }
  }

  method LoadBucket(m: AddrMan, file: PeersFile, bucket: nat)
    requires m.Shape() && m.State().RandomInverse() && bucket < file.Buckets() && bucket < |file.buckets|
    requires forall id | 0 <= id < file.nNew :: id in m.mapInfo
    modifies m`mapInfo, m.vvNew
    ensures m.State() == AfterRow(old(m.State()), file, bucket, |file.buckets[bucket]|)
    ensures m.State().RandomInverse() && m.mapInfo.Keys == old(m.mapInfo.Keys)
  {
    hide Book.RandomInverse, Contents, WithIndex;
    for n := 0 to |file.buckets[bucket]|
      invariant m.State() == AfterRow(old(m.State()), file, bucket, n)
      invariant m.State().RandomInverse() && m.mapInfo.Keys == old(m.mapInfo.Keys)
      invariant forall id | 0 <= id < file.nNew :: id in m.mapInfo
    {
      ReadIndex(m, file, bucket, file.buckets[bucket][n]);
    }
  }

  method LoadSlots(m: AddrMan, file: PeersFile) returns (ok: bool)
    requires m.Shape() && m.State().RandomInverse()
    requires forall id | 0 <= id < file.nNew :: id in m.mapInfo
    modifies m`mapInfo, m.vvNew
    ensures ok <==> file.Buckets() <= |file.buckets|
    ensures ok ==> m.State() == AfterBuckets(old(m.State()), file, Arithmetic.Max(0, file.Buckets()))
    ensures m.State().RandomInverse()
  {
    hide Book.RandomInverse, Contents, AfterRow;
    var bucket := 0;
    while bucket < file.Buckets()
      invariant 0 <= bucket <= |file.buckets| && (bucket <= file.Buckets() || bucket == 0)
      invariant m.State() == AfterBuckets(old(m.State()), file, bucket)
      invariant m.State().RandomInverse() && forall id | 0 <= id < file.nNew :: id in m.mapInfo
      decreases file.Buckets() - bucket
    {
      if bucket >= |file.buckets| {
        return false;
      }
      ghost var keys := m.mapInfo.Keys;
      assert forall id | 0 <= id < file.nNew :: id in keys;
      LoadBucket(m, file, bucket);
      bucket := bucket + 1;
    }
    ok := true;
  }

  /** Deletes the new entries that got no slot. */
  method Prune(m: AddrMan) returns (nLostUnk: nat)
    requires m.Shape() && m.State().RandomInverse()
    modifies m`mapInfo, m`vRandom, m`mapAddr, m`nNew
    ensures m.State().RandomInverse()
    ensures Pruned(old(m.State()), m.State(), Loose(old(m.State()))) && nLostUnk == |Loose(old(m.State()))|
    ensures forall id <- m.mapInfo :: m.mapInfo[id].fInTried || m.mapInfo[id].nRefCount != 0
  {
    hide Loose, Contents, Pruned;
    ghost var k0 := m.State();
    ghost var gone: set<int> := {};
    PrunesNothing(k0);
    nLostUnk := 0;
    var todo := m.mapInfo.Keys;
    while exists id :: id in todo
      invariant m.State().RandomInverse() && todo <= m.mapInfo.Keys
      invariant forall id <- m.mapInfo | id !in todo :: m.mapInfo[id].fInTried || m.mapInfo[id].nRefCount != 0
      invariant Pruned(k0, m.State(), gone) && gone <= Loose(k0) && nLostUnk == |gone|
      decreases todo
    {
      var id :| id in todo;
      todo := todo - {id};
      if !m.mapInfo[id].fInTried && m.mapInfo[id].nRefCount == 0 {
        ghost var k := m.State();
        m.Delete(id);
        nLostUnk := nLostUnk + 1;
        LooseGone(k0, k, m.State(), gone, id);
        gone := gone + {id};
      }
    }
    PrunesAll(k0, m.State(), gone);
  }

  lemma PrunesNothing(k: Book)
    requires k.RandomInverse()
    ensures Pruned(k, k, {})
  {
    assert Ips(k, {}) == {};
  }

  lemma LooseGone(k0: Book, k: Book, k': Book, gone: set<int>, id: int)
    requires Pruned(k0, k, gone) && gone <= Loose(k0) && Erased(k, k', id)
    requires !k.info[id].fInTried && k.info[id].nRefCount == 0
    ensures Pruned(k0, k', gone + {id}) && gone + {id} <= Loose(k0) && id !in gone
  {
    hide Book.RandomInverse;
    assert id in k.info.Keys && id in k0.info && k.info[id].SameButPos(k0.info[id]);
    PrunesMore(k0, k, k', gone, id);
  }

  /**
   * Loads a file into a manager that knows nothing. A file is accepted when all that it announces is
   * there; what it leaves is valid exactly when the header counts no entries below zero and no two entries
   * read share an address, unless both are left without a slot.
   */
  method Unserialize(m: AddrMan, file: PeersFile, key: Key) returns (ok: bool, nLostUnk: nat)
    requires m.Shape() && m.mapInfo == map[] && m.mapAddr == map[]
    modifies m, m.vvNew, m.vvTried
    ensures ok <==> file.Whole()
    ensures m.State().RandomInverse()
    ensures ok ==> var k := Filled(m.hasher, file); Pruned(k, m.State(), Loose(k)) && nLostUnk == |Loose(k)|
    ensures ok ==>
              (m.State().Valid() <==> file.nNew >= 0 && file.nTried >= 0 && Resolved(Filled(m.hasher, file)))
    ensures ok && Distinct(file) ==> m.State().Valid()
    ensures !ok ==> nLostUnk == 0
  {
    hide Contents, Pruned, Loose, AfterNew, TriedLoaded, AfterBuckets, Resolved, Distinct, Book.Inv, Book.RandomInverse;
    nLostUnk := 0;
    m.Clear(key);
    EmptyOrder(m.State());
    if file.nKeySize != 32 {
      return false, 0;
    }
    m.nKey := file.nKey;
    m.nNew := file.nNew;
    m.nTried := file.nTried;
    assert m.State() == Headed(m.hasher, file);
    EmptyOrder(m.State());
    ok := LoadNew(m, file);
    if !ok {
      return;
    }
    ghost var k1 := m.State();
    m.nIdCount := m.nNew;
    assert m.State() == k1.(idCount := file.nNew);
    OrderIgnoresCounts(k1, m.nTried);
    if file.nTried <= |file.triedEntries| {
      TriedLoadedSetsNext(k1, file);
    }
    ok := LoadTried(m, file);
    if !ok {
      return;
    }
    ok := LoadSlots(m, file);
    if !ok {
      return;
    }
    nLostUnk := Prune(m);
    LoadedIsValid(m.hasher, file, m.State());
    if Distinct(file) {
      DistinctIsResolved(m.hasher, file);
    }
  }

  lemma EmptyOrder(k: Book)
    requires k.info == map[] && k.random == []
    ensures k.RandomInverse()
  {
  }

  /** Saved and loaded back, a manager has the same entries in the same slots, and passes the check at the end. */
  method SaveAndLoad(m: AddrMan, key: Key) returns (m': AddrMan, err: int)
    requires m.Shape() && m.State().Valid()
    ensures fresh(m') && m'.Shape() && m'.State().Valid() && m'.nKey == m.nKey
    ensures Orderly(m.State()) && Reloaded(m.State(), m'.State())
    ensures m.State().Times() ==> m'.State().Times()
    ensures m.State().Times() && m.nKey != 0 ==> err == 0
  {
    hide Book.Inv, Book.Times, Loading, Orderly, FileOf, CheckPasses, Reports;
    hide Filled, Pruned, Loose, Resolved, Distinct;
    ghost var k0 := m.State();
    CounterIsNatural(k0);
    var file := Serialize(m);
    m' := new AddrMan(m.hasher, key);
    var ok, nLostUnk := Unserialize(m', file, key);
    ghost var k := m'.State();
    SavedLoads(k0, k);
    LoadedKey(k0, k);
    if m.State().Times() {
      ReloadedTimes(k0, k);
      if m.nKey != 0 {
        ValidPasses(k);
      }
    }
    KeepsOutEmpty(k);
    err := m'.Check_();
  }

  lemma CounterIsNatural(k: Book)
    requires k.Valid()
    ensures k.idCount >= 0
  {
  }
}
