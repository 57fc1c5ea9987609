/** The file of the address manager, and what reading it, whatever it contains, does to the indexes. */
module AddrFile {
  import opened Arithmetic
  import opened AddrTypes
  import opened AddrBook
  import Words

  const BUCKETS_FLAG := 0x4000_0000

  /** Exclusive or with 2^30. */
  function FlipBit30(n: int): int {
    if (n / BUCKETS_FLAG) % 2 == 0 then n + BUCKETS_FLAG else n - BUCKETS_FLAG
  }

  /** Dividing out a power of two below 2^30 leaves a multiple of 2 of what stands above it. */
  lemma HighPart(q: nat, r: nat, p: nat)
    requires p < 30 && r < 0x4000_0000
    ensures (q * 0x4000_0000 + r) / Pow2(p) % 2 == r / Pow2(p) % 2
  {
    hide Pow;
    var d, m := Pow2(p), Pow2(29 - p);
    TwoToThe30();
    Pow2Add(p + 1, 29 - p);
    Pow2Next(p);
    var a, b := r / d, r % d;
    assert r == a * d + b;
    MulAssociate(2 * q * m, 1, d);
    assert q * 0x4000_0000 == 2 * q * m * d by {
      assert 0x4000_0000 == 2 * d * m;
      assert q * (2 * d * m) == 2 * q * m * d;
    }
    MulDistribute(2 * q * m, a, d);
    MulNat(q, m);
    DivModIs(q * 0x4000_0000 + r, d, 2 * (q * m) + a, b);
  }

  lemma TwoToThe30()
    ensures Pow2(30) == 0x4000_0000
  {
    Words.Pow2Of32();
    hide Pow;
    Pow2Next(30);
    Pow2Next(31);
  }

  /** The two bits above and the thirty below, before and after. */
  lemma FlipParts(n: int) returns (h: nat, h': nat, r: nat)
    requires -0x8000_0000 <= n < 0x8000_0000
    ensures -0x8000_0000 <= FlipBit30(n) < 0x8000_0000
    ensures h < 4 && h' == (if h % 2 == 0 then h + 1 else h - 1) && r < 0x4000_0000
    ensures n % 0x1_0000_0000 == h * 0x4000_0000 + r && FlipBit30(n) % 0x1_0000_0000 == h' * 0x4000_0000 + r
  {
    var q := n / 0x4000_0000;
    r := n % 0x4000_0000;
    h := if q < 0 then q + 4 else q;
    h' := if h % 2 == 0 then h + 1 else h - 1;
  }

  /** Of a signed number of 32 bits, bit 30 is changed, and no other bit. */
  lemma FlipsOneBit(n: int, p: nat)
    requires -0x8000_0000 <= n < 0x8000_0000 && p < 32
    ensures -0x8000_0000 <= FlipBit30(n) < 0x8000_0000
    ensures var u, u' := n % 0x1_0000_0000, FlipBit30(n) % 0x1_0000_0000;
      Words.Bit(u', p) <==> if p == 30 then !Words.Bit(u, p) else Words.Bit(u, p)
  {
    hide Pow, FlipBit30;
    TwoToThe30();
    var h, h', r := FlipParts(n);
    if p < 30 {
      HighPart(h, r, p);
      HighPart(h', r, p);
    } else if p == 30 {
      DivModIs(h * 0x4000_0000 + r, 0x4000_0000, h, r);
      DivModIs(h' * 0x4000_0000 + r, 0x4000_0000, h', r);
    } else {
      Pow2Next(30);
    }
  }

  /** The part of an entry that is saved. */
  datatype Stored = Stored(addr: Address, source: NetAddr, nLastSuccess: int, nAttempts: int)

  function Persist(e: AddrInfo): Stored {
    Stored(e.addr, e.source, e.nLastSuccess, e.nAttempts)
  }

  function Restore(s: Stored): AddrInfo {
    AddrInfo(s.addr, s.source, s.nLastSuccess, 0, s.nAttempts, 0, false, -1)
  }

  datatype PeersFile = PeersFile(
    nVersion: int,
    nKeySize: int,
    nKey: Key,
    nNew: int,
    nTried: int,
    nUBuckets: int,
    newEntries: seq<Stored>,
    triedEntries: seq<Stored>,
    buckets: seq<seq<int>>)
  {
    /** Early versions save the number of buckets as it is. */
    function Buckets(): int {
      if nVersion != 0 then FlipBit30(nUBuckets) else nUBuckets
    }

    /** Whether the saved slots can be used. */
    predicate HasSlots() {
      nVersion == 1 && Buckets() == NEW_BUCKET_COUNT
    }

    /** All that the header announces is there. */
    predicate Whole() {
      nKeySize == 32 && nNew <= |newEntries| && nTried <= |triedEntries| && Buckets() <= |buckets|
    }
  }

  /** A file of a later version than the first with the usual header, and everything there, is read; with slots
      if it is of version one. The number of buckets it holds is 1024 with bit 30 set. */
  lemma UsualHeader(file: PeersFile)
    requires file.nVersion != 0 && file.nUBuckets == 1073742848
    ensures file.Buckets() == 1024 && (file.HasSlots() <==> file.nVersion == 1)
    ensures file.Whole() <==>
              && file.nKeySize == 32 && file.nNew <= |file.newEntries| && file.nTried <= |file.triedEntries|
              && 1024 <= |file.buckets|
  {
  }

  /** The book with one more entry read, at the end of the random order. */
  ghost function WithEntry(k: Book, r: int, e: AddrInfo): Book {
    k.(info := k.info[r := e.(nRandomPos := |k.random|)], addr := k.addr[e.Ip() := r], random := k.random + [r])
  }

  /** The book with one more tried entry read into its slot. */
  ghost function WithTried(k: Book, n: int, e: AddrInfo): Book
    requires k.Shape()
  {
    var s := e.addr.service;
    WithEntry(k, n, e.(fInTried := true)).(
      triedTable := Put(k.triedTable, k.TriedBucket(s), k.TriedPos(s), n), idCount := n + 1)
  }

  /** The new entries without a reference. */
  ghost function Loose(k: Book): set<int> {
    set id | id in k.info && !k.info[id].fInTried && k.info[id].nRefCount == 0
  }

  /** The empty manager with the key and the counters of the header. */
  ghost function Headed(hasher: Hasher, file: PeersFile): (k: Book)
    ensures k.Shape()
  {
    Blank(hasher, file.nKey).(nNew := file.nNew, nTried := file.nTried)
  }

  /** A reference in the slot the entry's own source hashes to, if that slot is free. */
  ghost function Homed(k: Book, id: int): (k': Book)
    requires k.Shape() && id in k.info
    ensures k'.Shape()
    ensures k'.idCount == k.idCount && k'.nNew == k.nNew && k'.nTried == k.nTried
  {
    var b := k.hasher.NewBucket(k.key, k.Service(id), k.info[id].source);
    var i := k.NewPos(b, k.Service(id));
    if k.newTable[b][i] == EMPTY then AddRef(k, b, i, id) else k
  }

  /** One new entry read; where the saved slots cannot be used, it gets one by its source at once. */
  ghost function NextNew(k: Book, file: PeersFile, n: nat): (k': Book)
    requires k.Shape() && n < |file.newEntries|
    ensures k'.Shape()
    ensures k'.idCount == k.idCount && k'.nNew == k.nNew && k'.nTried == k.nTried
  {
    var k1 := WithEntry(k, n, Restore(file.newEntries[n]));
    if file.HasSlots() then k1 else Homed(k1, n)
  }

  ghost function AfterNew(k: Book, file: PeersFile, n: nat): (k': Book)
    requires k.Shape() && n <= |file.newEntries|
    ensures k'.Shape()
    ensures k'.idCount == k.idCount && k'.nNew == k.nNew && k'.nTried == k.nTried
  {
    if n == 0 then k else NextNew(AfterNew(k, file, n - 1), file, n - 1)
  }

  /** One tried entry read, if its slot is free. */
  ghost function NextTried(k: Book, info: AddrInfo): (k': Book)
    requires k.Shape()
    ensures k'.Shape()
    ensures k'.nNew == k.nNew && k'.nTried == k.nTried
  {
    var s := info.addr.service;
    if k.triedTable[k.TriedBucket(s)][k.TriedPos(s)] != EMPTY then k else WithTried(k, k.idCount, info)
  }

  ghost function AfterTried(k: Book, file: PeersFile, n: nat): (k': Book)
    requires k.Shape() && n <= |file.triedEntries|
    ensures k'.Shape()
    ensures k'.nNew == k.nNew && k'.nTried == k.nTried
  {
    if n == 0 then k else NextTried(AfterTried(k, file, n - 1), Restore(file.triedEntries[n - 1]))
  }

  /** A saved index read: its entry gets the slot it hashes to, if the slot is free and the entry has room. */
  ghost function WithIndex(k: Book, file: PeersFile, b: nat, nIndex: int): (k': Book)
    requires k.Shape() && b < file.Buckets()
    ensures k'.Shape()
    ensures k'.idCount == k.idCount && k'.nNew == k.nNew && k'.nTried == k.nTried
  {
    if 0 <= nIndex < file.nNew && nIndex in k.info && file.HasSlots()
       && k.newTable[b][k.NewPos(b, k.Service(nIndex))] == EMPTY
       && k.info[nIndex].nRefCount < NEW_BUCKETS_PER_ADDRESS
    then AddRef(k, b, k.NewPos(b, k.Service(nIndex)), nIndex)
    else k
  }

  /** The first n indexes of a bucket read. */
  ghost function AfterRow(k: Book, file: PeersFile, b: nat, n: nat): (k': Book)
    requires k.Shape() && b < file.Buckets() && b < |file.buckets| && n <= |file.buckets[b]|
    ensures k'.Shape()
    ensures k'.idCount == k.idCount && k'.nNew == k.nNew && k'.nTried == k.nTried
  {
    if n == 0 then k else WithIndex(AfterRow(k, file, b, n - 1), file, b, file.buckets[b][n - 1])
  }

  /** The first b buckets read. */
  ghost function AfterBuckets(k: Book, file: PeersFile, b: nat): (k': Book)
    requires k.Shape() && (b == 0 || b <= file.Buckets()) && b <= |file.buckets|
    ensures k'.Shape()
    ensures k'.idCount == k.idCount && k'.nNew == k.nNew && k'.nTried == k.nTried
  {
    if b == 0 then k
    else AfterRow(AfterBuckets(k, file, b - 1), file, b - 1, |file.buckets[b - 1]|)
  }

  /** The tried entries read, and those without a slot taken off the counter. */
  ghost function TriedLoaded(k: Book, file: PeersFile): (k': Book)
    requires k.Shape() && file.nTried <= |file.triedEntries|
    ensures k'.Shape()
  {
    var k1 := AfterTried(k.(idCount := file.nNew), file, Max(0, file.nTried));
    k1.(nTried := file.nTried - (Max(0, file.nTried) - (k1.idCount - file.nNew)))
  }

  lemma TriedLoadedSetsNext(k: Book, file: PeersFile)
    requires k.Shape() && file.nTried <= |file.triedEntries|
    ensures TriedLoaded(k.(idCount := file.nNew), file) == TriedLoaded(k, file)
  {
    assert k.(idCount := file.nNew).(idCount := file.nNew) == k.(idCount := file.nNew);
  }

  /** All entries and all saved slots of a whole file read, in the order of the file. */
  ghost function Filled(hasher: Hasher, file: PeersFile): (k': Book)
    requires file.Whole()
    ensures k'.Shape()
  {
    var k1 := AfterNew(Headed(hasher, file), file, Max(0, file.nNew));
    AfterBuckets(TriedLoaded(k1, file), file, Max(0, file.Buckets()))
  }

  ghost function Ips(k: Book, ids: set<int>): set<NetAddr> {
    set id | id in k.info && id in ids :: k.info[id].Ip()
  }

  /** The given new entries deleted, with the places of their addresses; the random order may differ. */
  ghost predicate Pruned(k: Book, k': Book, gone: set<int>) {
    && k' == k.(info := k'.info, addr := k.addr - Ips(k, gone), random := k'.random, nNew := k.nNew - |gone|)
    && k'.info.Keys == k.info.Keys - gone
    && (forall id <- k'.info :: id in k.info && k'.info[id].SameButPos(k.info[id]))
    && k'.RandomInverse()
    && (gone == {} ==> k' == k)
  }

  lemma PrunesMore(k: Book, k1: Book, k2: Book, gone: set<int>, id: int)
    requires Pruned(k, k1, gone) && gone <= k.info.Keys && Erased(k1, k2, id)
    ensures Pruned(k, k2, gone + {id}) && id !in gone
  {
    hide Book.RandomInverse;
    assert id in k1.info.Keys && id in k.info;
    assert Ips(k, gone + {id}) == Ips(k, gone) + {k.info[id].Ip()};
    assert k2.addr == k1.addr - {k1.info[id].Ip()};
    assert k2.addr == k.addr - Ips(k, gone + {id});
    forall j | j in k2.info ensures j in k.info && k2.info[j].SameButPos(k.info[j]) {
      assert j in k1.info.Keys;
      assert k2.info[j].SameButPos(k1.info[j]);
    }
    assert k2.info.Keys == k.info.Keys - (gone + {id});
  }

  /** Nothing without a reference is left: all such entries are gone. */
  lemma PrunesAll(k: Book, k': Book, gone: set<int>)
    requires Pruned(k, k', gone) && gone <= Loose(k)
    requires forall id <- k'.info :: k'.info[id].fInTried || k'.info[id].nRefCount != 0
    ensures gone == Loose(k)
  {
    forall id | id in Loose(k) ensures id in gone {
      if id !in gone {
        assert false;
      }
    }
  }
}
