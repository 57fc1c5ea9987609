/** What an announcement records, in numbers, and which entries are not worth keeping. */
module AddrNews {
  import opened Arithmetic
  import opened AddrTypes
  import opened AddrBook
  import opened AddrCheck

  // ---------------------------------------------------------------- what is recorded

  /** An address not known before that is stored: its time is the announced one less the penalty, and the rest
      is as announced, never tried and in one slot. */
  lemma NewIsRecorded(k: Book, k': Book, addr: Address, source: NetAddr, nTimePenalty: int, nNow: int, roll: nat)
    requires k.Valid() && k'.Valid() && Added(k, k', addr, source, nTimePenalty, nNow, roll, true)
    requires addr.service.ip in k'.addr && addr.nTime < 0x1_0000_0000
    ensures k'.addr[addr.service.ip] in k'.info
    ensures var e := k'.info[k'.addr[addr.service.ip]];
      && e.addr.service == addr.service && e.addr.nServices == addr.nServices && e.source == source
      && (0 <= nTimePenalty <= addr.nTime ==> e.addr.nTime + nTimePenalty == addr.nTime)
      && (nTimePenalty > addr.nTime ==> e.addr.nTime == 0)
      && e.nLastSuccess == 0 && e.nLastTry == 0 && e.nAttempts == 0 && e.nRefCount == 1 && !e.fInTried
  {
    hide Book.RandomInverse, Book.TriedCells, Book.NewCells, Book.Refs, Book.Counts;
    var s, id := addr.service, k.idCount;
    var b := SlotBucket(k, s, source);
    var k1 := Enrolled(k, addr, source, nTimePenalty);
    OfferedToNew(k, k', b, k.NewPos(b, s), addr, source, nTimePenalty, nNow);
    var e := k1.info[id];
    assert id in k'.info && k'.info[id].SameButPos(e.(nRefCount := 1));
    assert k'.info[id].Ip() == s.ip;
  }

  /** What is recorded of a known address: the announced time less the penalty, exactly if nothing was recorded
      or that is older by more than the penalty and an hour, or a day if the announced time is a day ago. */
  lemma KnownIsUpdated(k: Book, k': Book, addr: Address, source: NetAddr, nTimePenalty: int, nNow: int, roll: nat)
    requires k.Valid() && Added(k, k', addr, source, nTimePenalty, nNow, roll, false)
    requires k.hasher.routable(addr.service.ip) && nTimePenalty >= 0 && addr.nTime < 0x1_0000_0000
    ensures addr.service.ip in k.addr && k.addr[addr.service.ip] in k.info && k.addr[addr.service.ip] in k'.info
    ensures var e, e' := k.info[k.addr[addr.service.ip]], k'.info[k.addr[addr.service.ip]];
      && e'.addr.nServices == e.addr.nServices + addr.nServices
      && e'.addr.nTime == (if IsNewer(e.addr.nTime, addr.nTime, nTimePenalty, nNow)
                           then Max(0, addr.nTime - nTimePenalty) else e.addr.nTime)
      && e'.addr.service == e.addr.service && e'.source == e.source && e'.fInTried == e.fInTried
      && e'.nLastSuccess == e.nLastSuccess && e'.nLastTry == e.nLastTry && e'.nAttempts == e.nAttempts
  {
    hide Book.RandomInverse, Book.TriedCells, Book.NewCells, Book.Refs, Book.Counts;
    var id := k.addr[addr.service.ip];
    KnownFacts(k, id);
    assert id in k'.info;
  }

  predicate IsNewer(recorded: nat, announced: nat, nTimePenalty: int, nNow: int) {
    && announced > 0
    && (recorded == 0 || announced - recorded > nTimePenalty + if nNow < announced + 86400 then 3600 else 86400)
  }

  /** Nothing is recorded of any other address. */
  lemma OthersAreKept(k: Book, k': Book, addr: Address, source: NetAddr, nTimePenalty: int, nNow: int, roll: nat,
                      fNew: bool, j: int)
    requires k.Valid() && Added(k, k', addr, source, nTimePenalty, nNow, roll, fNew)
    requires j in k.info && j in k'.info && k.info[j].Ip() != addr.service.ip
    ensures k'.info[j].(nRefCount := 0, nRandomPos := 0) == k.info[j].(nRefCount := 0, nRandomPos := 0)
    ensures k'.info[j].nRefCount == k.info[j].nRefCount || k'.info[j].nRefCount == k.info[j].nRefCount - 1
  {
    hide Book.RandomInverse, Book.TriedCells, Book.NewCells, Book.Refs, Book.Counts;
  }

  /** A known address may get a further slot: on an announcement later than what is then recorded, while it is new
      and in fewer than eight, and then for one in 2^n rolls. */
  predicate MaySpread(e: AddrInfo, recorded: nat, announced: nat, roll: nat) {
    announced > recorded && !e.fInTried && 0 < e.nRefCount < 8 && roll % Pow2(e.nRefCount) == 0
  }

  /** A further slot is only given where it may be, and is given if it is free. */
  lemma SpreadsOnNews(k: Book, k': Book, addr: Address, source: NetAddr, nTimePenalty: int, nNow: int, roll: nat)
    requires k.Valid() && Added(k, k', addr, source, nTimePenalty, nNow, roll, false)
    requires k.hasher.routable(addr.service.ip)
    ensures addr.service.ip in k.addr && k.addr[addr.service.ip] in k.info && k.addr[addr.service.ip] in k'.info
    ensures var id := k.addr[addr.service.ip];
      var b := SlotBucket(k, k.Service(id), source);
      var may := MaySpread(k.info[id], k'.info[id].addr.nTime, addr.nTime, roll);
      && (k'.newTable != k.newTable ==> may)
      && (may && k.newTable[b][k.NewPos(b, k.Service(id))] == EMPTY ==>
            k'.newTable == Put(k.newTable, b, k.NewPos(b, k.Service(id)), id))
  {
    hide Book.RandomInverse, Book.TriedCells, Book.NewCells, Book.Counts;
    var id := k.addr[addr.service.ip];
    KnownFacts(k, id);
    assert id in k'.info;
  }

  /** A time is kept in 32 bits, and a number read as a signed one in 64: both agree with it up to what wraps. */
  lemma WrapsAround(t: int, n: nat)
    ensures 0 <= ToU32(t) < 0x1_0000_0000 && (t - ToU32(t)) % 0x1_0000_0000 == 0
    ensures -0x8000_0000_0000_0000 <= ToI64(n) < 0x8000_0000_0000_0000
    ensures (n - ToI64(n)) % 0x1_0000_0000_0000_0000 == 0
  {
  }

  // ---------------------------------------------------------------- which entries are handed out

  /** The time of an address is neither missing, nor more than thirty days ago, nor more than ten minutes ahead. */
  predicate SeenLately(e: AddrInfo, nNow: int) {
    0 < e.addr.nTime <= nNow + 600 && nNow - e.addr.nTime <= 2592000
  }

  /** Which entries are terrible: none within a minute of being tried; then those not seen lately, those tried three
      times without any success, and those tried ten times without one in the last seven days. */
  lemma TerribleMeans(e: AddrInfo, nNow: int)
    ensures e.nLastTry != 0 && nNow - e.nLastTry <= 60 ==> !e.IsTerrible(nNow)
    ensures (e.nLastTry == 0 || nNow - e.nLastTry > 60) && !SeenLately(e, nNow) ==> e.IsTerrible(nNow)
    ensures SeenLately(e, nNow) && e.nAttempts < 3 ==> !e.IsTerrible(nNow)
    ensures SeenLately(e, nNow) && e.nAttempts < 10 && e.nLastSuccess != 0 ==> !e.IsTerrible(nNow)
    ensures SeenLately(e, nNow) && e.nLastSuccess != 0 && nNow - e.nLastSuccess <= 604800 ==> !e.IsTerrible(nNow)
    ensures (e.nLastTry == 0 || nNow - e.nLastTry > 60) && e.nAttempts >= 3 && e.nLastSuccess == 0 ==>
              e.IsTerrible(nNow)
    ensures (e.nLastTry == 0 || nNow - e.nLastTry > 60) && e.nAttempts >= 10 && nNow - e.nLastSuccess > 604800 ==>
              e.IsTerrible(nNow)
  {
  }

  /** The entries fit to be handed out. */
  ghost function FitIds(k: Book, nNow: int): set<int> {
    set id | id in k.info && !k.info[id].IsTerrible(nNow)
  }

  lemma {:induction false} DistinctSize(s: seq<int>)
    requires forall i, j | 0 <= i < j < |s| :: s[i] != s[j]
    ensures |set x | x in s| == |s|
  {
    if s != [] {
      var n := |s| - 1;
      DistinctSize(s[..n]);
      assert s == s[..n] + [s[n]];
      assert (set x | x in s) == (set x | x in s[..n]) + {s[n]};
      assert s[n] !in s[..n];
    }
  }

  /** So many of the fit entries are at the front of the order, and all of them in the whole. */
  lemma FitSize(k: Book, n: nat, nNow: int)
    requires k.RandomInverse() && n <= |k.random|
    ensures |Fit(k, n, nNow)| <= |FitIds(k, nNow)|
    ensures n == |k.random| ==> |Fit(k, n, nNow)| == |FitIds(k, nNow)|
  {
    hide AddrInfo.IsTerrible;
    var s := Fit(k, n, nNow);
    FitIsComplete(k, n, nNow);
    DistinctSize(s);
    SubsetSize((set x | x in s), FitIds(k, nNow));
    if n == |k.random| {
      forall id ensures id in s <==> id in FitIds(k, nNow) {
        if id in FitIds(k, nNow) {
          assert id in k.info && !k.info[id].IsTerrible(nNow);
        }
      }
      assert (set x | x in s) == FitIds(k, nNow);
    }
  }

  /** As many addresses as are fit, and no more than 23 in a hundred of those known, nor than 2500. */
  lemma HandedOut(k: Book, n: nat, nNow: int, handed: nat)
    requires k.RandomInverse() && n <= |k.random| && handed == |Fit(k, n, nNow)| <= MaxHandedOut(|k.random|)
    requires handed < MaxHandedOut(|k.random|) ==> n == |k.random|
    ensures handed == Min(|FitIds(k, nNow)|, Min(2500, 23 * |k.info| / 100))
  {
    FitSize(k, n, nNow);
    RandomSize(k);
    hide Fit, FitIds;
    assert |k.info| == |k.info.Keys|;
  }

  /** If nothing known is terrible, the limit is reached. */
  lemma AllFit(k: Book, nNow: int)
    requires forall id <- k.info :: !k.info[id].IsTerrible(nNow)
    ensures Min(|FitIds(k, nNow)|, Min(2500, 23 * |k.info| / 100)) == Min(2500, 23 * |k.info| / 100)
  {
    hide AddrInfo.IsTerrible;
    forall id ensures id in FitIds(k, nNow) <==> id in k.info.Keys {
      if id in k.info {
        assert !k.info[id].IsTerrible(nNow);
      }
    }
    assert FitIds(k, nNow) == k.info.Keys;
    assert |k.info| == |k.info.Keys|;
  }
}
