/** The values the address manager works on: services, table entries and the keyed hashes. */
module AddrTypes {
  import opened Arithmetic

  const TRIED_BUCKET_COUNT := 256
  const NEW_BUCKET_COUNT := 1024
  const BUCKET_SIZE := 64
  const NEW_BUCKETS_PER_ADDRESS := 8
  const HORIZON_DAYS := 30
  const RETRIES := 3
  const MAX_FAILURES := 10
  const MIN_FAIL_DAYS := 7
  const GETADDR_MAX_PCT := 23
  const GETADDR_MAX := 2500
  const EMPTY := -1

  type Key = nat
  /** The sixteen address bytes, read as a number; the port is not part of it. */
  type NetAddr = nat

  datatype Service = Service(ip: NetAddr, port: nat)

  datatype Address = Address(service: Service, nServices: set<nat>, nTime: nat)

  datatype AddrInfo = AddrInfo(
    addr: Address,
    source: NetAddr,
    nLastSuccess: int,
    nLastTry: int,
    nAttempts: int,
    nRefCount: int,
    fInTried: bool,
    nRandomPos: int)
  {
    function Ip(): NetAddr { addr.service.ip }

    /** Everything but the position in the random order. */
    predicate SameButPos(other: AddrInfo) {
      this == other.(nRandomPos := nRandomPos)
    }

    /** Nothing the tables and the random order depend on differs. */
    predicate SamePlace(other: AddrInfo) {
      && addr.service == other.addr.service
      && nRefCount == other.nRefCount
      && fInTried == other.fInTried
      && nRandomPos == other.nRandomPos
    }

    predicate IsTerrible(nNow: int) {
      if nLastTry != 0 && nLastTry >= nNow - 60 then false
      else if addr.nTime > nNow + 10 * 60 then true
      else if addr.nTime == 0 || nNow - addr.nTime > HORIZON_DAYS * 24 * 60 * 60 then true
      else if nLastSuccess == 0 && nAttempts >= RETRIES then true
      else nNow - nLastSuccess > MIN_FAIL_DAYS * 24 * 60 * 60 && nAttempts >= MAX_FAILURES
    }
  }

  function NewInfo(addr: Address, source: NetAddr): AddrInfo {
    AddrInfo(addr, source, 0, 0, 0, 0, false, -1)
  }

  /** Truncation to the 32-bit unsigned field that holds an address time. */
  function ToU32(t: int): nat { t % 0x1_0000_0000 }

  /** A 64-bit unsigned number passed where a signed time is expected. */
  function ToI64(n: nat): int {
    var v := n % 0x1_0000_0000_0000_0000;
    if v < 0x8000_0000_0000_0000 then v else v - 0x1_0000_0000_0000_0000
  }

  /** The bytes that an address range is known by. */
  type Group = seq<nat>

  const TRIED_BUCKETS_PER_GROUP := 8
  const NEW_BUCKETS_PER_SOURCE_GROUP := 64

  /** The keyed hashes stay uninterpreted; how they are chained, and reduced to a bucket or a position, is fixed. */
  datatype Hasher = Hasher(
    group: NetAddr -> Group,
    within: (Key, Service) -> nat,
    tried: (Key, Group, nat) -> nat,
    heard: (Key, Group, Group) -> nat,
    asNew: (Key, Group, nat) -> nat,
    place: (Key, bool, int, Service) -> nat,
    routable: NetAddr -> bool)
  {
    function TriedBucket(key: Key, s: Service): (b: nat)
      ensures b < TRIED_BUCKET_COUNT
    {
      var hash1 := within(key, s);
      var hash2 := tried(key, group(s.ip), hash1 % TRIED_BUCKETS_PER_GROUP);
      hash2 % TRIED_BUCKET_COUNT
    }

    function NewBucket(key: Key, s: Service, source: NetAddr): (b: nat)
      ensures b < NEW_BUCKET_COUNT
    {
      var hash1 := heard(key, group(s.ip), group(source));
      var hash2 := asNew(key, group(source), hash1 % NEW_BUCKETS_PER_SOURCE_GROUP);
      hash2 % NEW_BUCKET_COUNT
    }

    function Position(key: Key, fNew: bool, bucket: int, s: Service): (i: nat)
      ensures i < BUCKET_SIZE
    {
      place(key, fNew, bucket, s) % BUCKET_SIZE
    }
  }

  /** Whether an announcement is newer than what the entry records, by more than the update interval. */
  predicate IsNews(info: AddrInfo, addr: Address, nTimePenalty: int, nNow: int) {
    var nUpdateInterval := if nNow - addr.nTime < 24 * 60 * 60 then 60 * 60 else 24 * 60 * 60;
    addr.nTime != 0 && (info.addr.nTime == 0 || info.addr.nTime < addr.nTime - nUpdateInterval - nTimePenalty)
  }

  /** A known entry after an announcement of its address. */
  function Refreshed(info: AddrInfo, addr: Address, nTimePenalty: int, nNow: int): AddrInfo {
    var t :=
      if IsNews(info, addr, nTimePenalty, nNow) then ToU32(Max(0, addr.nTime - nTimePenalty)) else info.addr.nTime;
    info.(addr := info.addr.(nTime := t, nServices := info.addr.nServices + addr.nServices))
  }

  /** A fresh entry, with the penalty on its time. */
  function Penalized(info: AddrInfo, nTimePenalty: int): AddrInfo {
    info.(addr := info.addr.(nTime := ToU32(Max(0, info.addr.nTime - nTimePenalty))))
  }

  /** Whether a known entry may get one more slot: only on news, only while new and below the
      maximum, and then with probability one in 2^nRefCount. */
  predicate MayRelist(info: AddrInfo, addr: Address, roll: nat)
  {
    && addr.nTime != 0 && !(info.addr.nTime != 0 && addr.nTime <= info.addr.nTime)
    && !info.fInTried && 0 <= info.nRefCount != NEW_BUCKETS_PER_ADDRESS
    && (info.nRefCount == 0 || roll % Pow2(info.nRefCount) == 0)
  }

  /** How many of the known addresses may be handed out at once. */
  function MaxHandedOut(known: nat): nat {
    if GETADDR_MAX_PCT * known / 100 > GETADDR_MAX then GETADDR_MAX else GETADDR_MAX_PCT * known / 100
  }
}
