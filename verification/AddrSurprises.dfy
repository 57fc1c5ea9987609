/** Short runs of the address manager that end otherwise than one might expect. */
module AddrSurprises {
  import opened AddrTypes
  import opened AddrBook
  import opened AddrCheck
  import opened AddrMan
  import opened AddrSound
  import opened AddrFile
  import opened AddrStore

  /** Hashes under which all addresses compete for one slot of the tried table, and those heard from
      one source for one slot of the new table. */
  const ONE_SLOT := Hasher(
    ip => [ip], (key, s) => 0, (key, g, i) => 0, (key, g, source) => 0,
    (key, source, i) => if source == [9] then 0 else 1,
    (key, fNew, bucket, s) => 0, ip => true)

  const FIRST := Address(Service(1, 8333), {}, 1000)
  const SECOND := Address(Service(2, 8333), {}, 1000)

  /** Only the first address is known, it holds the one slot, and it is fit to be handed out. */
  ghost predicate OnlyFirst(k: Book) {
    && k.Shape() && k.hasher == ONE_SLOT && k.key == 1
    && k.newTable[0][0] == 0 && 0 in k.info && k.addr.Keys == {1} && k.addr[1] == 0
    && var e := k.info[0];
       e.addr == FIRST && e.nRefCount == 1 && !e.IsTerrible(1000)
  }

  lemma FirstAdded(k: Book, k': Book, fNew: bool)
    requires k == Blank(ONE_SLOT, 1) && k.Valid() && k'.Valid() && k'.hasher == ONE_SLOT && k'.key == 1
    requires Added(k, k', FIRST, 9, 0, 1000, 0, fNew)
    ensures OnlyFirst(k')
  {
    hide Book.RandomInverse, Book.TriedCells, Book.Refs, Book.Counts;
    var k1 := Enrolled(k, FIRST, 9, 0);
    assert k1.newTable[0][0] == EMPTY;
    assert Placed(k1, k', 0, 0, 0, k1.info[0]);
    forall j ensures j in k'.info <==> j == 0 {
      assert j in k1.info <==> j == 0;
    }
    assert k'.info[0].SameButPos(k1.info[0].(nRefCount := 1));
    assert k'.newTable[0][0] == 0;
    assert k'.addr.Keys == {1};
  }

  method OneKnown() returns (m: AddrMan)
    ensures fresh(m) && fresh(m.vvNew) && fresh(m.vvTried) && m.Shape() && m.State().Valid() && m.State().Times()
    ensures OnlyFirst(m.State())
  {
    hide Book.Inv, Added, OnlyFirst;
    m := new AddrMan(ONE_SLOT, 1);
    ghost var k := m.State();
    var fNew := m.Add_(FIRST, 9, 0, 1000, 0);
    AddTimes(k, m.State(), FIRST, 9, 0, 1000, 0, fNew);
    FirstAdded(k, m.State(), fNew);
  }

  /** Reporting a good connection at time zero makes the consistency check fail. */
  method GoodAtZero() returns (err: int)
    ensures err != 0
  {
    hide Book.Inv, Book.Times, MarkedGood, CheckPasses;
    var m := OneKnown();
    ghost var k := m.State();
    m.Good_(FIRST.service, 0, 0);
    GoodTimes(k, m.State(), FIRST.service, 0);
    KeepsOutEmpty(m.State());
    FailsCheck(m.State());
    err := m.Check_();
  }

  lemma FailsCheck(k: Book)
    requires k.Valid() && !k.Times()
    ensures !CheckPasses(k)
  {
    hide Book.Times, CheckPasses, Book.RandomInverse, Book.TriedCells, Book.NewCells, Book.Refs, Book.Counts;
    PassesIsValid(k);
  }

  /** A second address is reported as added, and is not known. */
  method SecondIsDropped() returns (fNew: bool, known: bool)
    ensures fNew && !known
  {
    hide Book.Inv, Added;
    var m := OneKnown();
    ghost var k := m.State();
    fNew := m.Add_(SECOND, 9, 0, 1000, 0);
    AddStores(k, m.State(), SECOND, 9, 0, 1000, 0, fNew);
    known := SECOND.service.ip in m.mapAddr;
  }

  /** Offering services records them as a time, and leaves the services as they were. */
  method OfferSetsTime() returns (info: AddrInfo)
    ensures info.addr.nServices == {} && info.addr.nTime == 5000
  {
    hide Book.Inv;
    var m := OneKnown();
    m.Connected_(FIRST.service, ToI64(5000));
    info := m.mapInfo[m.mapAddr[1]];
  }

  /** A file of an early version with one address saved twice, heard from two sources. */
  const TWICE := PeersFile(0, 32, 1, 2, 0, 0, [Stored(FIRST, 9, 0, 0), Stored(FIRST, 8, 0, 0)], [], [])

  lemma TwiceIsFilled()
    ensures TWICE.Whole() && TWICE.Buckets() == 0
    ensures var k := Filled(ONE_SLOT, TWICE);
      && k.info.Keys == {0, 1} && k.info[0].Ip() == 1 && k.info[0].nRefCount == 1 && k.info[1].nRefCount == 1
      && k.addr.Keys == {1} && k.addr[1] == 1
  {
    var k0 := Headed(ONE_SLOT, TWICE);
    var k1 := AfterNew(k0, TWICE, 1);
    var k2 := AfterNew(k0, TWICE, 2);
    assert AfterNew(k0, TWICE, 0) == k0;
    assert k0.newTable[0][0] == EMPTY && k0.newTable[1][0] == EMPTY;
    assert k1 == NextNew(k0, TWICE, 0);
    assert k2 == NextNew(k1, TWICE, 1);
    assert TriedLoaded(k2, TWICE).info == k2.info && TriedLoaded(k2, TWICE).addr == k2.addr;
  }

  lemma WholeTwice()
    ensures TWICE.Whole()
  {
  }

  lemma TwiceFails(k': Book)
    requires TWICE.Whole() && var k := Filled(ONE_SLOT, TWICE); Pruned(k, k', Loose(k))
    ensures k'.Shape() && EMPTY !in k'.info && !CheckPasses(k')
  {
    TwiceIsFilled();
    hide Filled, Book.RandomInverse, RefsPass, Book.TriedCells, Book.NewCells;
    var k := Filled(ONE_SLOT, TWICE);
    assert Loose(k) == {} && Ips(k, {}) == {};
    assert 0 in k'.info.Keys && k'.info[0].SameButPos(k.info[0]);
    assert !EntryPasses(k', 0);
  }

  /** Nothing is pruned, the first of the two entries is not found by its address, and the check fails. */
  method SavedTwice() returns (ok: bool, err: int)
    ensures ok && err != 0
  {
    hide Filled, Pruned, Loose, CheckPasses, Reports, Book.Inv, Resolved;
    WholeTwice();
    var m := new AddrMan(ONE_SLOT, 7);
    var nLostUnk;
    ok, nLostUnk := Unserialize(m, TWICE, 7);
    TwiceFails(m.State());
    err := m.Check_();
  }

  /** After clearing, the invariant holds exactly when nothing was known. */
  lemma ClearNeedsEmpty(hasher: Hasher, key: Key, info: map<int, AddrInfo>, addr: map<NetAddr, int>)
    ensures Blank(hasher, key).(info := info, addr := addr).Valid() <==> info == map[] && addr == map[]
  {
    var k := Blank(hasher, key).(info := info, addr := addr);
    if k.Valid() {
      forall id ensures id !in info {
        if id in info {
          assert false;
        }
      }
      forall ip ensures ip !in addr {
      }
    }
  }

  /** Clearing a manager in use leaves entries that nothing else knows of. */
  method ClearedInUse() returns (err: int)
    ensures err != 0
  {
    hide Book.Inv;
    var m := OneKnown();
    KeepsOutEmpty(m.State());
    m.Clear(7);
    assert !EntryPasses(m.State(), 0);
    err := m.Check_();
  }
}
