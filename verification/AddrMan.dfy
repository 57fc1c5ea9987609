/** The stochastic address manager: five redundant indexes and two counters, changed in place. */
module AddrMan {
  import opened AddrTypes
  import opened Options
  import opened Arithmetic
  import opened AddrBook
  import opened AddrCheck
  import opened AddrSpread
  import opened AddrNews

  /** The contents of a table of slots. */
  ghost function Contents(a: array2<int>): (g: Grid)
    reads a
    ensures |g| == a.Length0
    ensures forall b | 0 <= b < a.Length0 :: |g[b]| == a.Length1
    ensures forall b, i {:trigger g[b][i]} | 0 <= b < a.Length0 && 0 <= i < a.Length1 :: g[b][i] == a[b, i]
  {
    seq(a.Length0, b requires 0 <= b < a.Length0 reads a =>
      seq(a.Length1, i requires 0 <= i < a.Length1 reads a => a[b, i]))
  }

  method SetSlot(a: array2<int>, b: int, i: int, v: int)
    requires 0 <= b < a.Length0 && 0 <= i < a.Length1
    modifies a
    ensures Contents(a) == Put(old(Contents(a)), b, i, v)
  {
    a[b, i] := v;
    forall c | 0 <= c < a.Length0
      ensures Contents(a)[c] == Put(old(Contents(a)), b, i, v)[c]
    {
    }
  }

  /** The stochastic test: with n references already, one in 2^n announcements adds another. */
  method Lottery(nRefCount: nat, roll: nat) returns (win: bool)
    ensures win <==> nRefCount == 0 || roll % Pow2(nRefCount) == 0
  {
    var nFactor := 1;
    for n := 0 to nRefCount
      invariant nFactor == Pow2(n)
    {
      nFactor := nFactor * 2;
    }
    win := !(nFactor > 1 && roll % nFactor != 0);
  }

  /** The part of Add_ for an address already known: records the news, and says whether to go on. */
  method Announce(known: AddrInfo, addr: Address, nTimePenalty: int, nNow: int, roll: nat)
    returns (info: AddrInfo, more: bool)
    requires 0 <= known.nRefCount
    ensures info == Refreshed(known, addr, nTimePenalty, nNow)
    ensures more == MayRelist(info, addr, roll)
  {
    info := known;
    if IsNews(info, addr, nTimePenalty, nNow) {
      info := info.(addr := info.addr.(nTime := ToU32(Max(0, addr.nTime - nTimePenalty))));
    }
    info := info.(addr := info.addr.(nServices := info.addr.nServices + addr.nServices));
    if addr.nTime == 0 || (info.addr.nTime != 0 && addr.nTime <= info.addr.nTime) {
      return info, false;
    }
    if info.fInTried {
      return info, false;
    }
    if info.nRefCount == NEW_BUCKETS_PER_ADDRESS {
      return info, false;
    }
    more := Lottery(info.nRefCount, roll);
  }

  class AddrMan {
    const hasher: Hasher
    var nKey: Key
    var nIdCount: int
    var mapInfo: map<int, AddrInfo>
    var mapAddr: map<NetAddr, int>
    var vRandom: seq<int>
    var nTried: int
    const vvTried: array2<int>
    var nNew: int
    const vvNew: array2<int>

    ghost function State(): Book
      reads this, vvNew, vvTried
    {
      Book(hasher, nKey, nIdCount, mapInfo, mapAddr, vRandom, Contents(vvTried), Contents(vvNew), nTried, nNew)
    }

    ghost predicate Shape()
    {
      && vvTried.Length0 == TRIED_BUCKET_COUNT && vvTried.Length1 == BUCKET_SIZE
      && vvNew.Length0 == NEW_BUCKET_COUNT && vvNew.Length1 == BUCKET_SIZE
    }

    constructor (hasher: Hasher, key: Key)
      ensures this.hasher == hasher && fresh(vvNew) && fresh(vvTried) && Shape()
      ensures State().Valid() && State().Times()
      ensures State() == Blank(hasher, key)
      ensures mapInfo == map[] && mapAddr == map[] && nKey == key
      ensures vvNew.Length0 == 1024 && vvTried.Length0 == 256 && vvNew.Length1 == vvTried.Length1 == 64
      ensures forall b, i | 0 <= b < 1024 && 0 <= i < 64 :: vvNew[b, i] == -1
      ensures forall b, i | 0 <= b < 256 && 0 <= i < 64 :: vvTried[b, i] == -1
    {
      this.hasher := hasher;
      nKey := key;
      vRandom := [];
      mapInfo := map[];
      mapAddr := map[];
      vvNew := new int[NEW_BUCKET_COUNT, BUCKET_SIZE]((b, i) => EMPTY);
      vvTried := new int[TRIED_BUCKET_COUNT, BUCKET_SIZE]((b, i) => EMPTY);
      nIdCount := 0;
      nTried := 0;
      nNew := 0;
      new;
      EmptyGrid(Contents(vvNew), NEW_BUCKET_COUNT);
      EmptyGrid(Contents(vvTried), TRIED_BUCKET_COUNT);
    }

    /** Empties the random order, the tables and the counters; the two maps are left alone. */
    method Clear(key: Key)
      requires Shape()
      modifies this`nKey, this`vRandom, this`nIdCount, this`nTried, this`nNew, vvNew, vvTried
      ensures State() == Blank(hasher, key).(info := mapInfo, addr := mapAddr)
    {
      vRandom := [];
      nKey := key;
      forall b, i | 0 <= b < NEW_BUCKET_COUNT && 0 <= i < BUCKET_SIZE {
        vvNew[b, i] := EMPTY;
      }
      forall b, i | 0 <= b < TRIED_BUCKET_COUNT && 0 <= i < BUCKET_SIZE {
        vvTried[b, i] := EMPTY;
      }
      nIdCount := 0;
      nTried := 0;
      nNew := 0;
      EmptyGrid(Contents(vvNew), NEW_BUCKET_COUNT);
      EmptyGrid(Contents(vvTried), TRIED_BUCKET_COUNT);
    }

    /** The entry known for a network address, whatever its port. */
    function Find(ip: NetAddr): Option<int>
      reads this
    {
      if ip in mapAddr && mapAddr[ip] in mapInfo then Some(mapAddr[ip]) else None
    }

    method Create(addr: Address, source: NetAddr) returns (nId: int)
      modifies this`mapInfo, this`vRandom, this`mapAddr, this`nIdCount
      ensures nId == old(nIdCount)
      ensures State() == Created(old(State()), addr, source)
    {
      nId := nIdCount;
      nIdCount := nIdCount + 1;
      mapInfo := mapInfo[nId := NewInfo(addr, source)];
      mapAddr := mapAddr[addr.service.ip := nId];
      mapInfo := mapInfo[nId := mapInfo[nId].(nRandomPos := |vRandom|)];
      vRandom := vRandom + [nId];
    }

    method SwapRandom(p1: nat, p2: nat)
      requires State().RandomInverse()
      requires p1 == p2 || (p1 < |vRandom| && p2 < |vRandom|)
      modifies this`mapInfo, this`vRandom
      ensures State().RandomInverse()
      ensures vRandom == if p1 == p2 then old(vRandom) else old(vRandom)[p1 := old(vRandom)[p2]][p2 := old(vRandom)[p1]]
      ensures mapInfo.Keys == old(mapInfo).Keys
      ensures forall id <- mapInfo :: mapInfo[id].SameButPos(old(mapInfo)[id])
    {
      if p1 == p2 {
        return;
      }
      var nId1 := vRandom[p1];
      var nId2 := vRandom[p2];
      assert nId1 in mapInfo && nId2 in mapInfo;
      mapInfo := mapInfo[nId1 := mapInfo[nId1].(nRandomPos := p2)];
      mapInfo := mapInfo[nId2 := mapInfo[nId2].(nRandomPos := p1)];
      vRandom := vRandom[p1 := nId2];
      vRandom := vRandom[p2 := nId1];
    }

    method Delete(nId: int)
      requires State().RandomInverse()
      requires nId in mapInfo && !mapInfo[nId].fInTried && mapInfo[nId].nRefCount == 0
      modifies this`mapInfo, this`vRandom, this`mapAddr, this`nNew
      ensures Erased(old(State()), State(), nId)
    {
      var ip := mapInfo[nId].Ip();
      SwapRandom(mapInfo[nId].nRandomPos, |vRandom| - 1);
      vRandom := vRandom[..|vRandom| - 1];
      mapAddr := mapAddr - {ip};
      mapInfo := mapInfo - {nId};
      nNew := nNew - 1;
    }

    /** Empties a slot; the entry in it goes when that was its last slot. */
    method ClearNew(b: int, i: int, ghost loose: set<int>, ghost uncounted: set<int>)
      requires Shape() && State().Inv(loose, uncounted) && uncounted <= loose
      requires 0 <= b < NEW_BUCKET_COUNT && 0 <= i < BUCKET_SIZE
      modifies this`mapInfo, this`vRandom, this`mapAddr, this`nNew, vvNew
      ensures State().Inv(loose, uncounted)
      ensures Cleared(old(State()), State(), b, i) && vvNew[b, i] == EMPTY
    {
      if vvNew[b, i] != EMPTY {
        var nIdDelete := vvNew[b, i];
        ghost var k := State();
        DropRefKeeps(k, b, i, loose, uncounted);
        assert mapInfo[nIdDelete].nRefCount > 0;
        hide Book.AddrBijection, Book.TriedCells, Book.NewCells, Book.Refs, Book.Counts;
        DropRefAt(b, i);
        ghost var k' := State();
        if mapInfo[nIdDelete].nRefCount == 0 {
          Delete(nIdDelete);
          EraseKeeps(k', State(), nIdDelete, loose + {nIdDelete}, uncounted);
          assert loose + {nIdDelete} - {nIdDelete} == loose;
        }
        assert Contents(vvNew)[b][i] == EMPTY;
      }
    }

    /** Empties one slot and lowers the count of the entry in it. */
    method DropRefAt(b: int, i: int)
      requires Shape() && 0 <= b < NEW_BUCKET_COUNT && 0 <= i < BUCKET_SIZE && vvNew[b, i] in mapInfo
      modifies this`mapInfo, vvNew
      ensures State() == DropRef(old(State()), b, i)
    {
      var id := vvNew[b, i];
      SetSlot(vvNew, b, i, EMPTY);
      mapInfo := mapInfo[id := mapInfo[id].(nRefCount := mapInfo[id].nRefCount - 1)];
    }

    /** The first half of MakeTried: takes the entry out of every new bucket, and out of the count. */
    method LeaveNew(nId: int)
      requires Shape() && State().Valid()
      requires nId in mapInfo && !mapInfo[nId].fInTried
      modifies this`mapInfo, this`nNew, vvNew
      ensures nId in mapInfo && mapInfo[nId].nRefCount == 0
      ensures State().Inv({nId}, {nId})
      ensures State().nNew == old(nNew) - 1
      ensures Stripped(old(State()), State().(nNew := old(nNew)), nId, NEW_BUCKET_COUNT)
    {
      ghost var k := State();
      hide Book.Inv, Stripped, DropRef;
      KnownFacts(k, nId);
      StripNone(k, nId);
      for bucket := 0 to NEW_BUCKET_COUNT
        invariant nId in mapInfo && !mapInfo[nId].fInTried && nNew == old(nNew)
        invariant Stripped(k, State(), nId, bucket)
        invariant State().Inv(if mapInfo[nId].nRefCount == 0 then {nId} else {}, {})
      {
        ghost var k1 := State();
        var pos := hasher.Position(nKey, true, bucket, mapInfo[nId].addr.service);
        if vvNew[bucket, pos] == nId {
          DropRefAt(bucket, pos);
        }
        StripStep(k, k1, State(), nId, bucket);
      }
      ghost var k1 := State();
      StripDone(k, k1, nId);
      nNew := nNew - 1;
      assert State() == k1.(nNew := k1.nNew - 1) && k1 == State().(nNew := old(nNew));
    }

    /** Takes a tried entry out of its slot. */
    method DemoteAt(id: int)
      requires Shape() && id in mapInfo
      modifies this`mapInfo, this`nTried, vvTried
      ensures State() == Demote(old(State()), id)
    {
      var s := mapInfo[id].addr.service;
      var b := hasher.TriedBucket(nKey, s);
      mapInfo := mapInfo[id := mapInfo[id].(fInTried := false)];
      SetSlot(vvTried, b, hasher.Position(nKey, false, b, s), EMPTY);
      nTried := nTried - 1;
    }

    /** Puts an entry without references into a new slot, and counts it. */
    method RelistAt(b: int, i: int, id: int)
      requires Shape() && 0 <= b < NEW_BUCKET_COUNT && 0 <= i < BUCKET_SIZE
      requires id in mapInfo && mapInfo[id].nRefCount == 0
      modifies this`mapInfo, this`nNew, vvNew
      ensures State() == AddRef(old(State()), b, i, id).(nNew := old(nNew) + 1)
    {
      mapInfo := mapInfo[id := mapInfo[id].(nRefCount := 1)];
      SetSlot(vvNew, b, i, id);
      nNew := nNew + 1;
    }

    /** Makes room in the tried slot of nId: its entry goes back to a new slot of its own. */
    method Evict(nId: int, nIdEvict: int, ghost k: Book)
      requires Shape() && k.Valid() && nId in k.info && !k.info[nId].fInTried
      requires State().Inv({nId}, {nId}) && Stripped(k, State().(nNew := nNew + 1), nId, NEW_BUCKET_COUNT)
      requires nId in mapInfo && mapInfo[nId].nRefCount == 0
      requires nIdEvict == Evicted(k, nId) != EMPTY
      modifies this`mapInfo, this`vRandom, this`mapAddr, this`nNew, this`nTried, vvNew, vvTried
      ensures nId in mapInfo && State().Inv({nId}, {nId})
      ensures Evicted(State(), nId) == EMPTY
      ensures MovedToTried(k, Promote(State(), nId), nId)
    {
      hide Book.Inv, Stripped, MovedToTried, Cleared, AddRef, Promote, Evicted, Contents, Put;
      ghost var k2 := State();
      EvictStart(k, k2, nId);
      DemoteAt(nIdEvict);
      var s := mapInfo[nIdEvict].addr.service;
      var nUBucket := hasher.NewBucket(nKey, s, mapInfo[nIdEvict].source);
      var nUBucketPos := hasher.Position(nKey, true, nUBucket, s);
      ClearNew(nUBucket, nUBucketPos, {nId} + {nIdEvict}, {nId} + {nIdEvict});
      assert vvNew[nUBucket, nUBucketPos] == EMPTY;
      EvictKeeps(k, k2, State(), nId, nIdEvict);
      EvictMoves(k, k2, State(), nId, nIdEvict);
      RelistAt(nUBucket, nUBucketPos, nIdEvict);
    }

    /** Puts an entry into its tried slot, which must be free. */
    method PromoteAt(id: int)
      requires Shape() && id in mapInfo && Evicted(State(), id) == EMPTY
      modifies this`mapInfo, this`nTried, vvTried
      ensures State() == Promote(old(State()), id)
    {
      var s := mapInfo[id].addr.service;
      var b := hasher.TriedBucket(nKey, s);
      var i := hasher.Position(nKey, false, b, s);
      assert vvTried[b, i] == EMPTY;
      SetSlot(vvTried, b, i, id);
      nTried := nTried + 1;
      mapInfo := mapInfo[id := mapInfo[id].(fInTried := true)];
    }

    /** Moves a new entry to the tried table. */
    method MakeTried(nId: int)
      requires Shape() && State().Valid()
      requires nId in mapInfo && !mapInfo[nId].fInTried
      modifies this`mapInfo, this`vRandom, this`mapAddr, this`nNew, this`nTried, vvNew, vvTried
      ensures State().Valid()
      ensures MovedToTried(old(State()), State(), nId)
    {
      ghost var k := State();
      LeaveNew(nId);
      assert mapInfo[nId].nRefCount == 0;
      hide Book.RandomInverse, Book.AddrBijection, Book.TriedCells, Book.NewCells, Book.Refs, Book.Counts;
      hide MovedToTried;
      var s := mapInfo[nId].addr.service;
      var nKBucket := hasher.TriedBucket(nKey, s);
      var nKBucketPos := hasher.Position(nKey, false, nKBucket, s);
      if vvTried[nKBucket, nKBucketPos] != EMPTY {
        Evict(nId, vvTried[nKBucket, nKBucketPos], k);
      } else {
        MoveToEmpty(k, State().(nNew := k.nNew), Promote(State(), nId), nId);
      }
      PromoteKeeps(State(), nId, {nId}, {nId});
      assert {nId} - {nId} == {};
      PromoteAt(nId);
    }

    /** Looks for a new bucket that holds the entry, from a random one on;
        MakeTried needs no more than that it is new. */
    method FindBucket(nId: int, rnd: nat) returns (nUBucket: int)
      requires Shape() && State().Valid()
      requires nId in mapInfo && !mapInfo[nId].fInTried
      ensures 0 <= nUBucket < NEW_BUCKET_COUNT
      ensures vvNew[nUBucket, hasher.Position(nKey, true, nUBucket, mapInfo[nId].addr.service)] == nId
    {
      ghost var b := SomeSlot(State(), nId);
      ghost var start := rnd % NEW_BUCKET_COUNT;
      ghost var m := if b >= start then b - start else b - start + NEW_BUCKET_COUNT;
      assert (m + rnd) % NEW_BUCKET_COUNT == b;
      hide Book.Inv;
      nUBucket := -1;
      for n := 0 to NEW_BUCKET_COUNT
        invariant m >= n
      {
        var nB := (n + rnd) % NEW_BUCKET_COUNT;
        if vvNew[nB, hasher.Position(nKey, true, nB, mapInfo[nId].addr.service)] == nId {
          return nB;
        }
      }
    }

    method Good_(addr: Service, nTime: int, rnd: nat)
      requires Shape() && State().Valid()
      modifies this`mapInfo, this`vRandom, this`mapAddr, this`nNew, this`nTried, vvNew, vvTried
      ensures State().Valid()
      ensures MarkedGood(old(State()), State(), addr, nTime)
    {
      hide Book.Inv, MovedToTried;
      var found := Find(addr.ip);
      if found == None || mapInfo[found.value].addr.service != addr {
        return;
      }
      var nId := found.value;
      ghost var k := State();
      UpdateKeeps(k, nId, mapInfo[nId].(nLastSuccess := nTime, nLastTry := nTime, nAttempts := 0));
      mapInfo := mapInfo[nId := mapInfo[nId].(nLastSuccess := nTime, nLastTry := nTime, nAttempts := 0)];
      assert State() == Updated(k, nId, mapInfo[nId]);
      if mapInfo[nId].fInTried {
        return;
      }
      var nUBucket := FindBucket(nId, rnd);
      if nUBucket == -1 {
        assert false;
        return;
      }
      MakeTried(nId);
    }

    method Attempt_(addr: Service, nTime: int)
      requires Shape() && State().Valid()
      modifies this`mapInfo
      ensures State().Valid()
      ensures State() == if !Knows(old(State()), addr) then old(State()) else
        var id := old(mapAddr[addr.ip]);
        var e := old(mapInfo[id]);
        Updated(old(State()), id, e.(nLastTry := nTime, nAttempts := e.nAttempts + 1))
    {
      hide Book.Inv;
      var found := Find(addr.ip);
      if found == None || mapInfo[found.value].addr.service != addr {
        return;
      }
      var id := found.value;
      UpdateKeeps(State(), id, mapInfo[id].(nLastTry := nTime, nAttempts := mapInfo[id].nAttempts + 1));
      mapInfo := mapInfo[id := mapInfo[id].(nLastTry := nTime)];
      mapInfo := mapInfo[id := mapInfo[id].(nAttempts := mapInfo[id].nAttempts + 1)];
      ghost var e := old(mapInfo[id]);
      assert State() == Updated(old(State()), id, e.(nLastTry := nTime, nAttempts := e.nAttempts + 1));
    }

    /** Writes the entry into an empty new slot, and raises its count. */
    method AddRefAt(b: int, i: int, id: int)
      requires Shape() && 0 <= b < NEW_BUCKET_COUNT && 0 <= i < BUCKET_SIZE && id in mapInfo
      modifies this`mapInfo, vvNew
      ensures State() == AddRef(old(State()), b, i, id)
    {
      mapInfo := mapInfo[id := mapInfo[id].(nRefCount := mapInfo[id].nRefCount + 1)];
      SetSlot(vvNew, b, i, id);
    }

    /** The second half of Add_: gives the entry the slot, or gives up. */
    method Place(nId: int, b: int, i: int, nNow: int, ghost loose: set<int>)
      requires Shape() && State().Inv(loose, {}) && (loose == {} || loose == {nId})
      requires nId in mapInfo && !mapInfo[nId].fInTried && mapInfo[nId].nRefCount < NEW_BUCKETS_PER_ADDRESS
      requires 0 <= b < NEW_BUCKET_COUNT && 0 <= i < BUCKET_SIZE
      requires i == hasher.Position(nKey, true, b, mapInfo[nId].addr.service)
      modifies this`mapInfo, this`vRandom, this`mapAddr, this`nNew, vvNew
      ensures State().Valid()
      ensures SlotOffered(old(State()), State(), b, i, nId, nNow)
    {
      ghost var k := State();
      hide Book.Inv, Cleared, Erased, Placed;
      PlaceFacts(k, nId, loose, b, i);
      if vvNew[b, i] != nId {
        var fInsert := vvNew[b, i] == EMPTY;
        if !fInsert {
          var infoExisting := mapInfo[vvNew[b, i]];
          if infoExisting.IsTerrible(nNow) || (infoExisting.nRefCount > 1 && mapInfo[nId].nRefCount == 0) {
            fInsert := true;
          }
        }
        if fInsert {
          ClearNew(b, i, loose, {});
          TakeSlot(k, State(), b, i, nId, loose);
          AddRefAt(b, i, nId);
        } else if mapInfo[nId].nRefCount == 0 {
          Delete(nId);
          EraseKeeps(k, State(), nId, loose, {});
          assert loose - {nId} == {};
        }
      }
    }

    method Add_(addr: Address, source: NetAddr, nTimePenalty: int, nNow: int, roll: nat) returns (fNew: bool)
      requires Shape() && State().Valid()
      modifies this`mapInfo, this`vRandom, this`mapAddr, this`nNew, this`nIdCount, vvNew
      ensures State().Valid()
      ensures Added(old(State()), State(), addr, source, nTimePenalty, nNow, roll, fNew)
    {
      hide Book.Inv, SlotOffered;
      ghost var k := State();
      fNew := false;
      if !hasher.routable(addr.service.ip) {
        return;
      }
      var nId: int;
      ghost var loose: set<int> := {};
      var found := Find(addr.service.ip);
      if found.Some? {
        nId := found.value;
        KnownFacts(k, nId);
        UpdateKeeps(k, nId, Refreshed(mapInfo[nId], addr, nTimePenalty, nNow));
        var info, more := Announce(mapInfo[nId], addr, nTimePenalty, nNow, roll);
        mapInfo := mapInfo[nId := info];
        if !more {
          return;
        }
      } else {
        AllKnown(k);
        EnrollKeeps(k, addr, source, nTimePenalty);
        nId := Create(addr, source);
        mapInfo := mapInfo[nId := Penalized(mapInfo[nId], nTimePenalty)];
        nNew := nNew + 1;
        fNew := true;
        loose := {nId};
        assert State() == Enrolled(k, addr, source, nTimePenalty);
      }
      var s := mapInfo[nId].addr.service;
      var nUBucket := hasher.NewBucket(nKey, s, source);
      Place(nId, nUBucket, hasher.Position(nKey, true, nUBucket, s), nNow, loose);
    }

    method Connected_(addr: Service, nTime: int)
      requires Shape() && State().Valid()
      modifies this`mapInfo
      ensures State().Valid()
      ensures State() == Reconnected(old(State()), addr, nTime)
    {
      hide Book.Inv;
      var found := Find(addr.ip);
      if found == None || mapInfo[found.value].addr.service != addr {
        return;
      }
      var info := mapInfo[found.value];
      if nTime - info.addr.nTime > 20 * 60 {
        UpdateKeeps(State(), found.value, info.(addr := info.addr.(nTime := ToU32(nTime))));
        mapInfo := mapInfo[found.value := info.(addr := info.addr.(nTime := ToU32(nTime)))];
      }
    }

    method SetServices_(addr: Service, nServices: set<nat>)
      requires Shape() && State().Valid()
      modifies this`mapInfo
      ensures State().Valid()
      ensures State() == if !Knows(old(State()), addr) then old(State()) else
        var id := old(mapAddr[addr.ip]);
        var e := old(mapInfo[id]);
        Updated(old(State()), id, e.(addr := e.addr.(nServices := nServices)))
    {
      hide Book.Inv;
      var found := Find(addr.ip);
      if found == None || mapInfo[found.value].addr.service != addr {
        return;
      }
      var info := mapInfo[found.value];
      UpdateKeeps(State(), found.value, info.(addr := info.addr.(nServices := nServices)));
      mapInfo := mapInfo[found.value := info.(addr := info.addr.(nServices := nServices))];
    }

    /** Brings some entry of the rest of the random order to the front of that rest. */
    method DrawRandom(n: nat, nRndPos: nat)
      requires Shape() && State().Valid() && n <= nRndPos < |vRandom|
      modifies this`mapInfo, this`vRandom
      ensures State().Valid() && Reordered(old(State()), State())
      ensures |vRandom| == |old(vRandom)|
      ensures vRandom[..n] == old(vRandom[..n]) && vRandom[n] == old(vRandom[nRndPos]) && vRandom[n] in mapInfo
    {
      hide Book.AddrBijection, Book.NewCells, Book.TriedCells, Book.Refs, Book.Counts;
      SwapRandom(n, nRndPos);
      ReorderKeeps(old(State()), State());
    }

    /** Hands out addresses in random order: up to 23 percent of those known, at most 2500, no terrible ones. */
    method GetAddr_(rnd: nat -> nat, nNow: int) returns (vAddr: seq<Address>, ghost n: nat)
      requires Shape() && State().Valid()
      modifies this`mapInfo, this`vRandom
      ensures State().Valid() && Reordered(old(State()), State())
      ensures n <= |vRandom| && AddressesOf(State(), Fit(State(), n, nNow), vAddr)
      ensures |vAddr| == Min(|FitIds(State(), nNow)|, Min(2500, 23 * |mapInfo| / 100))
    {
      hide Book.Inv, Book.RandomInverse, Fit, AddressesOf, Reordered;
      var nNodes := GETADDR_MAX_PCT * |vRandom| / 100;
      if nNodes > GETADDR_MAX {
        nNodes := GETADDR_MAX;
      }
      vAddr := [];
      n := 0;
      ghost var k0 := State();
      HandOutStart(k0, nNow);
      for m := 0 to |vRandom|
        invariant n == m && |vRandom| == |k0.random|
        invariant State().Valid() && Reordered(k0, State())
        invariant AddressesOf(State(), Fit(State(), m, nNow), vAddr)
        invariant |vAddr| <= nNodes
      {
        if |vAddr| >= nNodes {
          break;
        }
        ghost var k := State();
        DrawRandom(m, rnd(m) % (|vRandom| - m) + m);
        HandOutStep(k0, k, State(), m, nNow, vAddr);
        var ai := mapInfo[vRandom[m]];
        if !ai.IsTerrible(nNow) {
          vAddr := vAddr + [ai.addr];
        }
        n := m + 1;
      }
      HandsOut(State(), n, nNow, vAddr);
    }

    /** The tests of one entry; looking up an address that is missing enters it with id zero. */
    method CheckEntry(n: int) returns (err: int)
      requires n in mapInfo
      modifies this`mapAddr
      ensures err == EntryCode(old(State()), n)
      ensures err == 0 <==> EntryPasses(old(State()), n)
      ensures forall ip :: Lookup(mapAddr, ip) == Lookup(old(mapAddr), ip)
      ensures mapInfo[n].Ip() in old(mapAddr) ==> mapAddr == old(mapAddr)
    {
      var info := mapInfo[n];
      if info.fInTried {
        if info.nLastSuccess == 0 {
          return -1;
        }
        if info.nRefCount != 0 {
          return -2;
        }
      } else {
        if info.nRefCount < 0 || info.nRefCount > NEW_BUCKETS_PER_ADDRESS {
          return -3;
        }
        if info.nRefCount == 0 {
          return -4;
        }
      }
      if info.Ip() !in mapAddr {
        mapAddr := mapAddr[info.Ip() := 0];
      }
      if mapAddr[info.Ip()] != n {
        return -5;
      }
      if info.nRandomPos < 0 || info.nRandomPos >= |vRandom| || vRandom[info.nRandomPos] != n {
        return -14;
      }
      if info.nLastTry < 0 {
        return -6;
      }
      if info.nLastSuccess < 0 {
        return -8;
      }
      return 0;
    }

    method CheckEntries() returns (err: int, setTried: set<int>, mapNew: map<int, int>)
      requires Shape()
      modifies this`mapAddr
      ensures EntriesReport(old(State()), err)
      ensures err == 0 <==> forall id <- mapInfo :: EntryPasses(old(State()), id)
      ensures err == 0 ==> setTried == old(State()).TriedIds()
      ensures err == 0 ==> mapNew == (map id | id in old(State()).NewIds() :: old(mapInfo)[id].nRefCount)
      ensures (forall id <- mapInfo :: mapInfo[id].Ip() in old(mapAddr)) ==> mapAddr == old(mapAddr)
    {
      hide EntryCode, EntryPasses, Contents, EntriesReport;
      ghost var k := State();
      setTried, mapNew := {}, map[];
      var todo := mapInfo.Keys;
      while exists n :: n in todo
        invariant todo <= mapInfo.Keys
        invariant setTried == k.TriedIds() - todo
        invariant mapNew == map id | id in k.NewIds() - todo :: k.info[id].nRefCount
        invariant forall id <- mapInfo | id !in todo :: EntryPasses(k, id) && EntryCode(k, id) == 0
        invariant forall id <- mapInfo, j <- todo | id !in todo :: id < j
        invariant forall ip :: Lookup(mapAddr, ip) == Lookup(k.addr, ip)
        invariant (forall id <- mapInfo :: mapInfo[id].Ip() in k.addr) ==> mapAddr == k.addr
        decreases todo
      {
        ghost var least := LeastOf(todo);
        var n :| n in todo && forall j <- todo :: n <= j;
        ghost var k1 := State();
        err := CheckEntry(n);
        SameTests(k, k1, n);
        if err != 0 {
          FirstFault(k, n);
          return;
        }
        if mapInfo[n].fInTried {
          setTried := setTried + {n};
        } else {
          mapNew := mapNew[n := mapInfo[n].nRefCount];
        }
        todo := todo - {n};
      }
      NoFault(k);
      err := 0;
    }

    method CheckTried(tried: set<int>) returns (err: int, setTried: set<int>)
      requires Shape() && tried == State().TriedIds() && EMPTY !in mapInfo
      ensures TriedReport(State(), err)
      ensures err == 0 && setTried == {} <==> State().TriedCells()
    {
      ghost var k := State();
      setTried := tried;
      TriedStart(k);
      for n := 0 to TRIED_BUCKET_COUNT
        invariant TriedClean(k, n * BUCKET_SIZE)
        invariant TriedOkBefore(k, n * BUCKET_SIZE) && setTried == TriedLeft(k, n * BUCKET_SIZE)
      {
        for i := 0 to BUCKET_SIZE
          invariant TriedClean(k, n * BUCKET_SIZE + i)
          invariant TriedOkBefore(k, n * BUCKET_SIZE + i) && setTried == TriedLeft(k, n * BUCKET_SIZE + i)
        {
          TriedNext(k, n, i);
          TriedCleanNext(k, n, i);
          var id := vvTried[n, i];
          assert id == k.triedTable[n][i];
          if id != EMPTY {
            if id !in setTried {
              TriedBad(k, n, i);
              return -11, setTried;
            }
            if hasher.TriedBucket(nKey, mapInfo[id].addr.service) != n {
              TriedBad(k, n, i);
              return -17, setTried;
            }
            if hasher.Position(nKey, false, n, mapInfo[id].addr.service) != i {
              TriedBad(k, n, i);
              return -18, setTried;
            }
            setTried := setTried - {id};
          }
        }
      }
      TriedEnd(k);
      err := 0;
    }

    method CheckNew(counts: map<int, int>) returns (err: int, mapNew: map<int, int>)
      requires Shape() && EMPTY !in mapInfo
      requires counts == (map id | id in State().NewIds() :: mapInfo[id].nRefCount)
      requires forall id <- State().NewIds() :: mapInfo[id].nRefCount >= 1
      ensures NewReport(State(), err) && (err == 0 ==> State().NewCells())
      ensures err == 0 && mapNew == map[] <==> State().NewCells() && RefsPass(State())
    {
      ghost var k := State();
      hide NewOkBefore, NewLeft, RefsPass, Book.NewCells, NewClean, NewCode, NewReport;
      mapNew := counts;
      NewStart(k, mapNew);
      for n := 0 to NEW_BUCKET_COUNT
        invariant NewClean(k, n * BUCKET_SIZE)
        invariant NewOkBefore(k, n * BUCKET_SIZE) && NewLeft(k, n * BUCKET_SIZE, mapNew)
      {
        for i := 0 to BUCKET_SIZE
          invariant NewClean(k, n * BUCKET_SIZE + i)
          invariant NewOkBefore(k, n * BUCKET_SIZE + i) && NewLeft(k, n * BUCKET_SIZE + i, mapNew)
        {
          ghost var left := mapNew;
          NewStep(k, n, i, left);
          NewCleanNext(k, n, i);
          NewCodeIs(k, n, i, left);
          var id := vvNew[n, i];
          assert id == k.newTable[n][i];
          if id != EMPTY {
            if id !in mapNew {
              return -12, mapNew;
            }
            if hasher.Position(nKey, true, n, mapInfo[id].addr.service) != i {
              return -19, mapNew;
            }
            mapNew := mapNew[id := mapNew[id] - 1];
            if mapNew[id] == 0 {
              mapNew := mapNew - {id};
              assert mapNew == left - {id};
            }
          }
        }
      }
      NewEnd(k, mapNew);
      err := 0;
    }

    /** The manager's own consistency check: zero exactly when everything it tests holds, else the first fault. */
    method Check_() returns (err: int)
      requires Shape() && EMPTY !in mapInfo
      modifies this`mapAddr
      ensures err == 0 <==> CheckPasses(old(State()))
      ensures Reports(old(State()), err)
      ensures nKey == old(nKey)
      ensures old(State()).Valid() ==> State() == old(State())
    {
      ghost var k := State();
      hide RefsPass, Book.NewCells, Book.TriedCells, EntriesReport, TriedReport, NewReport;
      hide Contents, TriedCode, NewCode, EntryCode, Book.RandomInverse, Book.Refs, Book.Counts;
      if |vRandom| != nTried + nNew {
        return -7;
      }
      var setTried: set<int>, mapNew: map<int, int>;
      err, setTried, mapNew := CheckEntries();
      OneEntryReport(k, err, 0);
      if err != 0 {
        return;
      }
      if |setTried| != nTried {
        return -9;
      }
      assert mapNew.Keys == k.NewIds() && |mapNew| == |mapNew.Keys|;
      if |mapNew| != nNew {
        return -10;
      }
      AddrIrrelevant(k, mapAddr);
      assert State() == k.(addr := mapAddr);
      err, setTried := CheckTried(setTried);
      ReportsIgnoreAddr(k, mapAddr, err);
      OneTriedReport(k, err, 0);
      if err != 0 {
        return;
      }
      err, mapNew := CheckNew(mapNew);
      ReportsIgnoreAddr(k, mapAddr, err);
      OneNewReport(k, err, 0);
      if err != 0 {
        return;
      }
      if setTried != {} {
        return -13;
      }
      if mapNew != map[] {
        return -15;
      }
      if nKey == 0 {
        return -16;
      }
      return 0;
    }

    /** One public operation. */
    method Execute(op: Operation)
      requires Shape() && State().Valid() && State().Times() && op.TimeOk()
      modifies this, vvNew, vvTried
      ensures State().Valid() && State().Times()
      ensures Happened(old(State()), State(), op)
    {
      hide Book.Inv, Added, MarkedGood, Reordered;
      ghost var k := State();
      match op {
        case Announced(addr, source, nTimePenalty, nNow, roll) =>
          var fNew := Add_(addr, source, nTimePenalty, nNow, roll);
          AddTimes(k, State(), addr, source, nTimePenalty, nNow, roll, fNew);
        case WasGood(addr, nTime, rnd) =>
          Good_(addr, nTime, rnd);
          GoodTimes(k, State(), addr, nTime);
        case WasTried(addr, nTime) =>
          Attempt_(addr, nTime);
        case IsConnected(addr, nTime) =>
          Connected_(addr, nTime);
        case Offers(addr, nServices) =>
          Connected_(addr, ToI64(nServices));
        case SetsServices(addr, nServices) =>
          SetServices_(addr, nServices);
        case AskedFor(rnd, nNow) =>
          var vAddr, n := GetAddr_(rnd, nNow);
          ReorderTimes(k, State());
      }
    }

    /** One public operation, with the consistency check before and after it as in a debug build. */
    method Perform(op: Operation) returns (errBefore: int, errAfter: int)
      requires Shape() && State().Valid() && State().Times() && nKey != 0
      requires op.TimeOk()
      modifies this, vvNew, vvTried
      ensures State().Valid() && State().Times()
      ensures Happened(old(State()), State(), op)
      ensures errBefore == 0 && errAfter == 0
    {
      hide Book.Inv, CheckPasses, Reports, Happened, Book.Times;
      KeepsOutEmpty(State());
      ValidPasses(State());
      errBefore := Check_();
      Execute(op);
      SameKey(old(State()), State(), op);
      KeepsOutEmpty(State());
      ValidPasses(State());
      errAfter := Check_();
    }
  }

  lemma HandsOut(k: Book, n: nat, nNow: int, vAddr: seq<Address>)
    requires k.Valid() && n <= |k.random| && AddressesOf(k, Fit(k, n, nNow), vAddr)
    requires |vAddr| <= MaxHandedOut(|k.random|) && (|vAddr| < MaxHandedOut(|k.random|) ==> n == |k.random|)
    ensures |vAddr| == Min(|FitIds(k, nNow)|, Min(2500, 23 * |k.info| / 100))
  {
    HandedOut(k, n, nNow, |vAddr|);
  }

  /** A call of a public operation, with the random numbers and clock readings it draws. */
  datatype Operation =
    | Announced(addr: Address, source: NetAddr, nTimePenalty: int, nNow: int, roll: nat)
    | WasGood(service: Service, nTime: int, start: nat)
    | WasTried(service: Service, nTime: int)
    | IsConnected(service: Service, nTime: int)
    | Offers(service: Service, nServices: nat)            // the public call, which passes the number on as a time
    | SetsServices(service: Service, bits: set<nat>)      // the protected step, which no public call reaches
    | AskedFor(draws: nat -> nat, nNow: int)
  {
    /** What callers must pass for the clock clauses of the check. */
    predicate TimeOk() {
      (WasGood? ==> nTime > 0) && (WasTried? ==> nTime >= 0)
    }
  }

  /** What an operation does to the indexes. */
  ghost predicate Happened(k: Book, k': Book, op: Operation)
    requires k.Shape()
  {
    && k'.Shape() && k'.hasher == k.hasher && k'.key == k.key
    && match op
       case Announced(addr, source, nTimePenalty, nNow, roll) =>
         exists fNew :: Added(k, k', addr, source, nTimePenalty, nNow, roll, fNew)
       case WasGood(s, nTime, _) => MarkedGood(k, k', s, nTime)
       case WasTried(s, nTime) =>
         k' == if !Knows(k, s) then k else
           var e := k.info[k.addr[s.ip]];
           Updated(k, k.addr[s.ip], e.(nLastTry := nTime, nAttempts := e.nAttempts + 1))
       case IsConnected(s, nTime) => k' == Reconnected(k, s, nTime)
       case Offers(s, nServices) => k' == Reconnected(k, s, ToI64(nServices))
       case SetsServices(s, bits) =>
         k' == if !Knows(k, s) then k else
           var e := k.info[k.addr[s.ip]];
           Updated(k, k.addr[s.ip], e.(addr := e.addr.(nServices := bits)))
       case AskedFor(_, _) => Reordered(k, k')
  }

  /** The clock clauses survive an operation exactly if its time is what callers must pass, or the service unknown. */
  lemma TimesSurvive(k: Book, k': Book, op: Operation)
    requires k.Valid() && k'.Valid() && k.Times() && Happened(k, k', op)
    ensures k'.Times() <==>
              match op
              case WasGood(s, nTime, _) => Knows(k, s) ==> op.TimeOk()
              case WasTried(s, nTime) => Knows(k, s) ==> op.TimeOk()
              case _ => true
  {
    hide Book.Inv, Added, MarkedGood, Reordered;
    IsShaped(k);
    match op
    case Announced(addr, source, nTimePenalty, nNow, roll) =>
      var fNew :| Added(k, k', addr, source, nTimePenalty, nNow, roll, fNew);
      AddTimes(k, k', addr, source, nTimePenalty, nNow, roll, fNew);
    case WasGood(s, nTime, _) => GoodTimes(k, k', s, nTime);
    case WasTried(s, nTime) =>
      if Knows(k, s) {
        assert k'.info[k.addr[s.ip]].nLastTry == nTime;
      }
    case AskedFor(_, _) => ReorderTimes(k, k');
    case _ =>
  }

  lemma IsShaped(k: Book)
    requires k.Valid()
    ensures k.Shape()
  {
  }

  lemma SameKey(k: Book, k': Book, op: Operation)
    requires k.Shape() && Happened(k, k', op)
    ensures k'.Shape() && k'.hasher == k.hasher && k'.key == k.key
  {
  }

  /** The ranges of the sources that announce anything. */
  function Sources(h: Hasher, ops: seq<Operation>): set<Group> {
    set i | 0 <= i < |ops| && ops[i].Announced? :: h.group(ops[i].source)
  }

  /** An operation leaves nothing that was not heard from the ranges. */
  lemma HappenedHeard(k: Book, k': Book, op: Operation, groups: set<Group>)
    requires k.Shape() && k.AddrBijection() && HeardFrom(k, groups) && Happened(k, k', op)
    requires op.Announced? ==> k.hasher.group(op.source) in groups
    ensures k'.Shape() && HeardFrom(k', groups)
  {
    hide HeardFrom, Added, MarkedGood, Reordered;
    match op
    case Announced(addr, source, nTimePenalty, nNow, roll) =>
      var fNew :| Added(k, k', addr, source, nTimePenalty, nNow, roll, fNew);
      AddHeard(k, k', addr, source, nTimePenalty, nNow, roll, fNew, groups);
    case WasGood(s, nTime, _) => GoodHeard(k, k', s, nTime, groups);
    case AskedFor(_, _) => ReorderHeard(k, k', groups);
    case _ =>
      if k' != k {
        var id := k.addr[op.service.ip];
        UpdateHeard(k, id, k'.info[id], groups);
        assert k' == Updated(k, id, k'.info[id]);
      }
  }

  /** Every run of public operations from an empty manager keeps the check at zero, and keeps what it
      hears in the new buckets of its sources. */
  method Run(hasher: Hasher, key: Key, ops: seq<Operation>) returns (m: AddrMan, errs: seq<int>)
    requires key != 0 && forall op <- ops :: op.TimeOk()
    ensures m.Shape() && m.State().Valid() && m.State().Times() && m.hasher == hasher && m.nKey == key
    ensures HeardFrom(m.State(), Sources(hasher, ops))
    ensures |UsedBuckets(m.State())| <= 64 * |Sources(hasher, ops)|
    ensures forall g :: |TriedOfGroup(m.State(), g)| <= 512
    ensures |errs| == |ops| && forall err <- errs :: err == 0
  {
    hide Book.Inv, Book.Times, HeardFrom, Happened, UsedBuckets, TriedOfGroup;
    m := new AddrMan(hasher, key);
    BlankHeardNothing(hasher, key, Sources(hasher, ops));
    errs := [];
    for i := 0 to |ops|
      invariant m.Shape() && m.State().Valid() && m.State().Times() && m.nKey == key && m.hasher == hasher
      invariant HeardFrom(m.State(), Sources(hasher, ops))
      invariant fresh(m) && fresh(m.vvNew) && fresh(m.vvTried)
      invariant |errs| == i && forall err <- errs :: err == 0
    {
      ghost var k := m.State();
      var before, after := m.Perform(ops[i]);
      SameKey(k, m.State(), ops[i]);
      IsAddrBijection(k);
      HappenedHeard(k, m.State(), ops[i], Sources(hasher, ops));
      errs := errs + [if before != 0 then before else after];
    }
    FewBucketsUsed(m.State(), Sources(hasher, ops));
    forall g ensures |TriedOfGroup(m.State(), g)| <= 512 {
      GroupHoldsFewTried(m.State(), g);
    }
  }

  lemma IsAddrBijection(k: Book)
    requires k.Valid()
    ensures k.AddrBijection()
  {
  }
}
