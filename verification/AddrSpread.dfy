/**
 * How far a range of addresses reaches: its own addresses share a few tried buckets, and what is heard
 * from it goes to a few new ones, whatever is reported and however often.
 */
module AddrSpread {
  import opened AddrTypes
  import opened AddrBook
  import opened AddrCheck

  // ---------------------------------------------------------------- the tried table

  /** The tried buckets that the first n choices of a range lead to. */
  function TriedBuckets(h: Hasher, key: Key, g: Group, n: nat): (bs: set<int>)
    ensures |bs| <= n && forall b <- bs :: 0 <= b < TRIED_BUCKET_COUNT
  {
    if n == 0 then {} else TriedBuckets(h, key, g, n - 1) + {h.tried(key, g, n - 1) % TRIED_BUCKET_COUNT}
  }

  lemma {:induction false} ChoiceIsTried(h: Hasher, key: Key, g: Group, n: nat, j: nat)
    requires j < n
    ensures h.tried(key, g, j) % TRIED_BUCKET_COUNT in TriedBuckets(h, key, g, n)
  {
    if j < n - 1 {
      ChoiceIsTried(h, key, g, n - 1, j);
    }
  }

  /** All services of a range meet at most eight tried buckets. */
  lemma GroupMeetsFewTried(h: Hasher, key: Key, g: Group)
    ensures var bs := TriedBuckets(h, key, g, TRIED_BUCKETS_PER_GROUP);
      |bs| <= 8 && forall s: Service | h.group(s.ip) == g :: h.TriedBucket(key, s) in bs
  {
    forall s: Service | h.group(s.ip) == g
      ensures h.TriedBucket(key, s) in TriedBuckets(h, key, g, TRIED_BUCKETS_PER_GROUP)
    {
      ChoiceIsTried(h, key, g, TRIED_BUCKETS_PER_GROUP, h.within(key, s) % TRIED_BUCKETS_PER_GROUP);
    }
  }

  /** The tried entries of a range. */
  ghost function TriedOfGroup(k: Book, g: Group): set<int> {
    set id | id in k.info && k.info[id].fInTried && k.hasher.group(k.info[id].Ip()) == g
  }

  ghost function TriedIn(k: Book, bs: set<int>): set<int> {
    set id | id in k.info && k.info[id].fInTried && k.TriedBucket(k.Service(id)) in bs
  }

  /** The entries in one tried bucket have different positions. */
  lemma BucketHoldsFew(k: Book, b: int)
    requires k.Valid()
    ensures |TriedIn(k, {b})| <= BUCKET_SIZE
  {
    hide Book.RandomInverse, Book.AddrBijection, Book.NewCells, Book.Refs, Book.Counts;
    var ids := TriedIn(k, {b});
    var pos := map id | id in ids :: k.TriedPos(k.Service(id));
    forall a, c | a in ids && c in ids && a != c ensures pos[a] != pos[c] {
      OwnSlot(k, a);
      OwnSlot(k, c);
    }
    InjectionSize(pos, ids);
    var image := set a | a in ids :: pos[a];
    assert image <= Below(BUCKET_SIZE);
    SubsetSize(image, Below(BUCKET_SIZE));
  }

  lemma {:induction false} BucketsHoldFew(k: Book, bs: set<int>)
    requires k.Valid()
    ensures |TriedIn(k, bs)| <= BUCKET_SIZE * |bs|
  {
    hide Book.Inv;
    if exists b :: b in bs {
      var b :| b in bs;
      BucketHoldsFew(k, b);
      BucketsHoldFew(k, bs - {b});
      assert TriedIn(k, bs) == TriedIn(k, bs - {b}) + TriedIn(k, {b});
    } else {
      assert TriedIn(k, bs) == {};
    }
  }

  /** However many addresses a range has, no more than 512 of the 16384 tried slots hold one of them. */
  lemma GroupHoldsFewTried(k: Book, g: Group)
    requires k.Valid()
    ensures |TriedOfGroup(k, g)| <= 512
  {
    hide Book.Inv;
    var bs := TriedBuckets(k.hasher, k.key, g, TRIED_BUCKETS_PER_GROUP);
    GroupMeetsFewTried(k.hasher, k.key, g);
    BucketsHoldFew(k, bs);
    SubsetSize(TriedOfGroup(k, g), TriedIn(k, bs));
  }

  lemma OwnSlot(k: Book, id: int)
    requires k.Valid() && id in k.info && k.info[id].fInTried
    ensures k.triedTable[k.TriedBucket(k.Service(id))][k.TriedPos(k.Service(id))] == id
  {
  }

  // ---------------------------------------------------------------- the new table

  /** The new buckets that the first n choices of a source range lead to. */
  function NewBuckets(h: Hasher, key: Key, g: Group, n: nat): (bs: set<int>)
    ensures |bs| <= n && forall b <- bs :: 0 <= b < NEW_BUCKET_COUNT
  {
    if n == 0 then {} else NewBuckets(h, key, g, n - 1) + {h.asNew(key, g, n - 1) % NEW_BUCKET_COUNT}
  }

  lemma {:induction false} ChoiceIsNew(h: Hasher, key: Key, g: Group, n: nat, j: nat)
    requires j < n
    ensures h.asNew(key, g, j) % NEW_BUCKET_COUNT in NewBuckets(h, key, g, n)
  {
    if j < n - 1 {
      ChoiceIsNew(h, key, g, n - 1, j);
    }
  }

  /** Whatever a source range announces goes to at most 64 new buckets. */
  lemma SourceMeetsFewNew(h: Hasher, key: Key, g: Group)
    ensures var bs := NewBuckets(h, key, g, NEW_BUCKETS_PER_SOURCE_GROUP);
      |bs| <= 64 && forall s: Service, source: NetAddr | h.group(source) == g :: h.NewBucket(key, s, source) in bs
  {
    forall s: Service, source: NetAddr | h.group(source) == g
      ensures h.NewBucket(key, s, source) in NewBuckets(h, key, g, NEW_BUCKETS_PER_SOURCE_GROUP)
    {
      var j := h.heard(key, h.group(s.ip), g) % NEW_BUCKETS_PER_SOURCE_GROUP;
      ChoiceIsNew(h, key, g, NEW_BUCKETS_PER_SOURCE_GROUP, j);
    }
  }

  /** The bucket is one of those that some of the source ranges lead to. */
  ghost predicate Reached(h: Hasher, key: Key, groups: set<Group>, b: int) {
    exists g <- groups :: b in NewBuckets(h, key, g, NEW_BUCKETS_PER_SOURCE_GROUP)
  }

  lemma SourceReaches(h: Hasher, key: Key, groups: set<Group>, s: Service, source: NetAddr)
    requires h.group(source) in groups
    ensures Reached(h, key, groups, h.NewBucket(key, s, source))
  {
    SourceMeetsFewNew(h, key, h.group(source));
  }

  ghost function ReachedBy(h: Hasher, key: Key, groups: set<Group>): set<int> {
    set b | 0 <= b < NEW_BUCKET_COUNT && Reached(h, key, groups, b)
  }

  lemma {:induction false} FewReached(h: Hasher, key: Key, groups: set<Group>)
    ensures |ReachedBy(h, key, groups)| <= 64 * |groups|
  {
    if exists g :: g in groups {
      var g :| g in groups;
      FewReached(h, key, groups - {g});
      SourceMeetsFewNew(h, key, g);
      var bs := NewBuckets(h, key, g, NEW_BUCKETS_PER_SOURCE_GROUP);
      forall b | Reached(h, key, groups, b) ensures b in bs || Reached(h, key, groups - {g}, b) {
        var g' :| g' in groups && b in NewBuckets(h, key, g', NEW_BUCKETS_PER_SOURCE_GROUP);
        assert g' == g || g' in groups - {g};
      }
      SubsetSize(ReachedBy(h, key, groups), ReachedBy(h, key, groups - {g}) + bs);
    } else {
      assert ReachedBy(h, key, groups) == {};
    }
  }

  /** All was heard from sources in the ranges: the entries, and the new buckets in use. */
  ghost predicate HeardFrom(k: Book, groups: set<Group>)
    requires k.Shape()
  {
    && (forall id <- k.info :: k.hasher.group(k.info[id].source) in groups)
    && (forall b, i {:trigger k.newTable[b][i]} | 0 <= b < NEW_BUCKET_COUNT && 0 <= i < BUCKET_SIZE ::
          k.newTable[b][i] != EMPTY ==> Reached(k.hasher, k.key, groups, b))
  }

  /** The new buckets that hold anything. */
  ghost function UsedBuckets(k: Book): (bs: set<int>)
    requires k.Shape()
    ensures forall b, i {:trigger k.newTable[b][i]} | 0 <= b < 1024 && 0 <= i < 64 && k.newTable[b][i] != -1 :: b in bs
  {
    set b | 0 <= b < NEW_BUCKET_COUNT &&
            exists i {:trigger k.newTable[b][i]} :: 0 <= i < BUCKET_SIZE && k.newTable[b][i] != EMPTY
  }

  /** Sources in n ranges fill at most 64 n of the 1024 new buckets. */
  lemma FewBucketsUsed(k: Book, groups: set<Group>)
    requires k.Shape() && HeardFrom(k, groups)
    ensures |UsedBuckets(k)| <= 64 * |groups|
  {
    FewReached(k.hasher, k.key, groups);
    SubsetSize(UsedBuckets(k), ReachedBy(k.hasher, k.key, groups));
  }

  lemma BlankHeardNothing(h: Hasher, key: Key, groups: set<Group>)
    ensures Blank(h, key).Shape() && HeardFrom(Blank(h, key), groups)
  {
  }

  lemma PlacedHeard(k: Book, k': Book, b: int, i: int, id: int, nNow: int, groups: set<Group>)
    requires k.Shape() && k'.Shape() && k'.hasher == k.hasher && k'.key == k.key && HeardFrom(k, groups)
    requires 0 <= b < NEW_BUCKET_COUNT && 0 <= i < BUCKET_SIZE && id in k.info && Reached(k.hasher, k.key, groups, b)
    requires SlotOffered(k, k', b, i, id, nNow)
    ensures HeardFrom(k', groups)
  {
    hide Reached;
  }

  /** What an announcement by a source in the ranges leaves was heard from them. */
  lemma AddHeard(k: Book, k': Book, addr: Address, source: NetAddr, nTimePenalty: int, nNow: int, roll: nat, fNew: bool,
                 groups: set<Group>)
    requires k.Shape() && k'.Shape() && k'.hasher == k.hasher && k'.key == k.key && HeardFrom(k, groups)
    requires k.hasher.group(source) in groups && Added(k, k', addr, source, nTimePenalty, nNow, roll, fNew)
    ensures HeardFrom(k', groups)
  {
    hide Reached, SlotOffered;
    var s := addr.service;
    if k.hasher.routable(s.ip) {
      if s.ip in k.addr && k.addr[s.ip] in k.info {
        var id := k.addr[s.ip];
        var e := Refreshed(k.info[id], addr, nTimePenalty, nNow);
        var b := SlotBucket(k, e.addr.service, source);
        SourceReaches(k.hasher, k.key, groups, e.addr.service, source);
        if MayRelist(e, addr, roll) {
          PlacedHeard(Updated(k, id, e), k', b, k.NewPos(b, e.addr.service), id, nNow, groups);
        }
      } else {
        var b := SlotBucket(k, s, source);
        SourceReaches(k.hasher, k.key, groups, s, source);
        PlacedHeard(Enrolled(k, addr, source, nTimePenalty), k', b, k.NewPos(b, s), k.idCount, nNow, groups);
      }
    }
  }

  /** An entry that a good connection evicts goes to a bucket of its own first source. */
  lemma GoodHeard(k: Book, k': Book, s: Service, nTime: int, groups: set<Group>)
    requires k.Shape() && k'.Shape() && k'.hasher == k.hasher && k'.key == k.key && HeardFrom(k, groups)
    requires MarkedGood(k, k', s, nTime)
    ensures HeardFrom(k', groups)
  {
    hide Reached;
    if Knows(k, s) && !k.info[k.addr[s.ip]].fInTried {
      var id := k.addr[s.ip];
      var k1 := Updated(k, id, k.info[id].(nLastSuccess := nTime, nLastTry := nTime, nAttempts := 0));
      var e := Evicted(k1, id);
      if e in k1.info {
        SourceReaches(k.hasher, k.key, groups, k1.Service(e), k1.info[e].source);
      }
      forall j | j in k'.info ensures k.hasher.group(k'.info[j].source) in groups {
        assert k'.info[j].SameButPos(AfterMove(k1, id, j)) && j in k.info;
      }
    }
  }

  lemma UpdateHeard(k: Book, id: int, e: AddrInfo, groups: set<Group>)
    requires k.Shape() && HeardFrom(k, groups) && id in k.info && e.source == k.info[id].source
    ensures HeardFrom(Updated(k, id, e), groups)
  {
    hide Reached;
  }

  lemma ReorderHeard(k: Book, k': Book, groups: set<Group>)
    requires k.Shape() && k'.Shape() && Reordered(k, k') && HeardFrom(k, groups)
    ensures HeardFrom(k', groups)
  {
    hide Reached;
    forall j | j in k'.info ensures k.hasher.group(k'.info[j].source) in groups {
      assert j in k.info && k'.info[j].SameButPos(k.info[j]);
    }
  }

  // ---------------------------------------------------------------- what the hashes depend on

  /** Neither key, nor table, nor bucket, nor service is left out of the position. */
  lemma PositionDependsOnAll(key: Key, fNew: bool, b: int, s: Service, key': Key, fNew': bool, b': int, s': Service)
    requires (key, fNew, b, s) != (key', fNew', b', s')
    ensures exists h: Hasher :: h.Position(key, fNew, b, s) != h.Position(key', fNew', b', s')
  {
    var place := (k: Key, f: bool, c: int, t: Service) => if (k, f, c, t) == (key, fNew, b, s) then 1 else 0;
    var h := Hasher(ip => [], (k, t) => 0, (k, g, i) => 0, (k, g, o) => 0, (k, o, i) => 0, place, ip => true);
    assert h.Position(key, fNew, b, s) == 1 && h.Position(key', fNew', b', s') == 0;
  }

  /** Nor key, range or service out of the tried bucket. */
  lemma TriedDependsOnAll(key: Key, s: Service, key': Key, s': Service)
    requires key != key' || s != s'
    ensures exists h: Hasher :: h.TriedBucket(key, s) != h.TriedBucket(key', s')
    ensures s.ip != s'.ip ==>
              exists h: Hasher ::
                h.within(key, s) == h.within(key', s') && h.TriedBucket(key, s) != h.TriedBucket(key', s')
  {
    var within := (k: Key, t: Service) => if (k, t) == (key, s) then 1 else 0;
    var h := Hasher(ip => [], within, (k, g, i) => i, (k, g, o) => 0, (k, o, i) => 0, (k, f, b, t) => 0, ip => true);
    assert h.TriedBucket(key, s) == 1 && h.TriedBucket(key', s') == 0;
    var tried := (k: Key, g: Group, i: nat) => if g == [s.ip] then 1 else 0;
    var h' := Hasher(ip => [ip], (k, t) => 0, tried, (k, g, o) => 0, (k, o, i) => 0, (k, f, b, t) => 0, ip => true);
    assert s.ip != s'.ip ==> h'.TriedBucket(key, s) == 1 && h'.TriedBucket(key', s') == 0;
  }

  /** Nor key, range of the address or range of the source out of the new bucket. */
  lemma NewDependsOnAll(key: Key, ip: NetAddr, source: NetAddr, key': Key, ip': NetAddr, source': NetAddr, port: nat)
    requires (key, ip, source) != (key', ip', source')
    ensures exists h: Hasher ::
              h.NewBucket(key, Service(ip, port), source) != h.NewBucket(key', Service(ip', port), source')
    ensures source != source' ==> exists h: Hasher ::
              && (forall k, g, o :: h.heard(k, g, o) == 0)
              && h.NewBucket(key, Service(ip, port), source) != h.NewBucket(key', Service(ip', port), source')
  {
    var heard := (k: Key, g: Group, o: Group) => if (k, g, o) == (key, [ip], [source]) then 1 else 0;
    var h := Hasher(a => [a], (k, t) => 0, (k, g, i) => 0, heard, (k, o, i) => i, (k, f, b, t) => 0, a => true);
    assert h.NewBucket(key, Service(ip, port), source) == 1 && h.NewBucket(key', Service(ip', port), source') == 0;
    var asNew := (k: Key, o: Group, i: nat) => if o == [source] then 1 else 0;
    var h' := Hasher(a => [a], (k, t) => 0, (k, g, i) => 0, (k, g, o) => 0, asNew, (k, f, b, t) => 0, a => true);
    if source != source' {
      assert h'.NewBucket(key, Service(ip, port), source) == 1 && h'.NewBucket(key', Service(ip', port), source') == 0;
    }
  }
}
