/** What the manager's own consistency check establishes, and how that relates to the invariant. */
module AddrCheck {
  import opened AddrTypes
  import opened AddrBook

  /** The id a lookup of an address yields: looking up a missing one gives zero. */
  ghost function Lookup(m: map<NetAddr, int>, ip: NetAddr): int {
    if ip in m then m[ip] else 0
  }

  ghost predicate EntryPasses(k: Book, id: int)
    requires id in k.info
  {
    var e := k.info[id];
    && (if e.fInTried then e.nLastSuccess != 0 && e.nRefCount == 0 else 1 <= e.nRefCount <= NEW_BUCKETS_PER_ADDRESS)
    && Lookup(k.addr, e.Ip()) == id
    && 0 <= e.nRandomPos < |k.random| && k.random[e.nRandomPos] == id
    && e.nLastTry >= 0 && e.nLastSuccess >= 0
  }

  ghost predicate RefsPass(k: Book)
    requires k.Shape()
  {
    forall id <- k.info | !k.info[id].fInTried :: k.info[id].nRefCount == |k.Slots(id, k.Service(id))|
  }

  /** Exactly what the check tests. */
  ghost predicate CheckPasses(k: Book)
    requires k.Shape()
  {
    && |k.random| == k.nTried + k.nNew
    && (forall id <- k.info :: EntryPasses(k, id))
    && |k.TriedIds()| == k.nTried && |k.NewIds()| == k.nNew
    && k.TriedCells() && k.NewCells() && RefsPass(k)
    && k.key != 0
  }

  // ---------------------------------------------------------------- which error is reported

  /** The error of an entry, zero for none. */
  ghost function EntryCode(k: Book, id: int): int
    requires id in k.info
  {
    var e := k.info[id];
    if e.fInTried && e.nLastSuccess == 0 then -1
    else if e.fInTried && e.nRefCount != 0 then -2
    else if !e.fInTried && !(0 <= e.nRefCount <= NEW_BUCKETS_PER_ADDRESS) then -3
    else if !e.fInTried && e.nRefCount == 0 then -4
    else if Lookup(k.addr, e.Ip()) != id then -5
    else if !(0 <= e.nRandomPos < |k.random| && k.random[e.nRandomPos] == id) then -14
    else if e.nLastTry < 0 then -6
    else if e.nLastSuccess < 0 then -8
    else 0
  }

  /** The error of a tried slot: its id is not that of a tried entry that is still to be met,
      or is in the wrong place. */
  ghost function TriedCode(k: Book, b: int, i: int): int
    requires k.Shape() && 0 <= b < TRIED_BUCKET_COUNT && 0 <= i < BUCKET_SIZE
  {
    var id := k.triedTable[b][i];
    if id == EMPTY then 0
    else if id !in TriedLeft(k, b * BUCKET_SIZE + i) then -11
    else if k.TriedBucket(k.Service(id)) != b then -17
    else if k.TriedPos(k.Service(id)) != i then -18
    else 0
  }

  /** The error of a new slot: its id is not that of a new entry with references still to be met,
      or is in the wrong place. */
  ghost function NewCode(k: Book, b: int, i: int): int
    requires k.Shape() && 0 <= b < NEW_BUCKET_COUNT && 0 <= i < BUCKET_SIZE
  {
    var id := k.newTable[b][i];
    if id == EMPTY then 0
    else if !(id in k.NewIds() && |SlotsBefore(k, id, b * BUCKET_SIZE + i)| < k.info[id].nRefCount) then -12
    else if k.NewPos(b, k.Service(id)) != i then -19
    else 0
  }

  /** The error of the entries: that of the first one, in order of id, that has any. */
  ghost predicate EntriesReport(k: Book, err: int) {
    if forall id <- k.info :: EntryCode(k, id) == 0 then err == 0
    else exists id <- k.info :: (forall j <- k.info | j < id :: EntryCode(k, j) == 0) && err == EntryCode(k, id) != 0
  }

  ghost predicate TriedClean(k: Book, t: int)
    requires k.Shape()
  {
    forall c, j {:trigger TriedCode(k, c, j)} |
      0 <= c < TRIED_BUCKET_COUNT && 0 <= j < BUCKET_SIZE && c * BUCKET_SIZE + j < t :: TriedCode(k, c, j) == 0
  }

  /** The error of the first tried slot that has any. */
  ghost predicate TriedReport(k: Book, err: int)
    requires k.Shape()
  {
    if TriedClean(k, TRIED_BUCKET_COUNT * BUCKET_SIZE) then err == 0
    else exists b, i {:trigger TriedCode(k, b, i)} | 0 <= b < TRIED_BUCKET_COUNT && 0 <= i < BUCKET_SIZE ::
      TriedClean(k, b * BUCKET_SIZE + i) && err == TriedCode(k, b, i) != 0
  }

  ghost predicate NewClean(k: Book, t: int)
    requires k.Shape()
  {
    forall c, j {:trigger NewCode(k, c, j)} |
      0 <= c < NEW_BUCKET_COUNT && 0 <= j < BUCKET_SIZE && c * BUCKET_SIZE + j < t :: NewCode(k, c, j) == 0
  }

  /** The error of the first new slot that has any. */
  ghost predicate NewReport(k: Book, err: int)
    requires k.Shape()
  {
    if NewClean(k, NEW_BUCKET_COUNT * BUCKET_SIZE) then err == 0
    else exists b, i {:trigger NewCode(k, b, i)} | 0 <= b < NEW_BUCKET_COUNT && 0 <= i < BUCKET_SIZE ::
      NewClean(k, b * BUCKET_SIZE + i) && err == NewCode(k, b, i) != 0
  }

  /** What the check answers: the first fault, in the order in which it tests. */
  ghost predicate Reports(k: Book, err: int)
    requires k.Shape()
  {
    if |k.random| != k.nTried + k.nNew then err == -7
    else if !EntriesReport(k, 0) then EntriesReport(k, err)
    else if |k.TriedIds()| != k.nTried then err == -9
    else if |k.NewIds()| != k.nNew then err == -10
    else if !TriedReport(k, 0) then TriedReport(k, err)
    else if !NewReport(k, 0) then NewReport(k, err)
    else if !k.TriedCells() then err == -13
    else if !RefsPass(k) then err == -15
    else if k.key == 0 then err == -16
    else err == 0
  }

  lemma FirstFault(k: Book, id: int)
    requires id in k.info && EntryCode(k, id) != 0 && forall j <- k.info | j < id :: EntryCode(k, j) == 0
    ensures EntriesReport(k, EntryCode(k, id))
  {
    hide EntryCode;
  }

  lemma NoFault(k: Book)
    requires forall id <- k.info :: EntryCode(k, id) == 0
    ensures EntriesReport(k, 0)
  {
  }

  /** The tests of the slots, up to the next one. */
  lemma TriedCleanNext(k: Book, b: int, i: int)
    requires k.Shape() && 0 <= b < TRIED_BUCKET_COUNT && 0 <= i < BUCKET_SIZE && TriedClean(k, b * BUCKET_SIZE + i)
    ensures if TriedCode(k, b, i) == 0 then TriedClean(k, b * BUCKET_SIZE + i + 1)
            else TriedReport(k, TriedCode(k, b, i))
  {
    hide TriedCode;
  }

  lemma NewCleanNext(k: Book, b: int, i: int)
    requires k.Shape() && 0 <= b < NEW_BUCKET_COUNT && 0 <= i < BUCKET_SIZE && NewClean(k, b * BUCKET_SIZE + i)
    ensures if NewCode(k, b, i) == 0 then NewClean(k, b * BUCKET_SIZE + i + 1) else NewReport(k, NewCode(k, b, i))
  {
    hide NewCode;
  }

  /** The scans do not depend on the address index. */
  lemma ReportsIgnoreAddr(k: Book, m: map<NetAddr, int>, err: int)
    requires k.Shape()
    ensures var k' := k.(addr := m);
      (TriedReport(k', err) <==> TriedReport(k, err)) && (NewReport(k', err) <==> NewReport(k, err))
  {
    var k' := k.(addr := m);
    forall id, s ensures k'.Slots(id, s) == k.Slots(id, s) {}
    forall id, t | id in k.info ensures SlotsBefore(k', id, t) == SlotsBefore(k, id, t) {}
    forall t ensures TriedLeft(k', t) == TriedLeft(k, t) {}
    forall b, i | 0 <= b < TRIED_BUCKET_COUNT && 0 <= i < BUCKET_SIZE
      ensures TriedCode(k', b, i) == TriedCode(k, b, i)
    {
    }
    forall b, i | 0 <= b < NEW_BUCKET_COUNT && 0 <= i < BUCKET_SIZE
      ensures NewCode(k', b, i) == NewCode(k, b, i)
    {
    }
    hide TriedCode, NewCode;
    forall t ensures (TriedClean(k', t) <==> TriedClean(k, t)) && (NewClean(k', t) <==> NewClean(k, t)) {}
  }

  lemma {:induction false} LeastOf(s: set<int>) returns (n: int)
    requires exists x :: x in s
    ensures n in s && forall j <- s :: n <= j
  {
    n :| n in s;
    if exists y :: y in s - {n} {
      var m := LeastOf(s - {n});
      assert forall j <- s :: j == n || j in s - {n};
      n := if n < m then n else m;
    } else {
      assert forall j <- s :: j == n || j in s - {n};
    }
  }

  /** The tests of an entry depend on lookups alone. */
  lemma SameTests(k: Book, k': Book, id: int)
    requires id in k.info && k' == k.(addr := k'.addr)
    requires forall ip :: Lookup(k'.addr, ip) == Lookup(k.addr, ip)
    ensures EntryPasses(k', id) == EntryPasses(k, id) && EntryCode(k', id) == EntryCode(k, id)
  {
  }

  /** A state has one answer. */
  lemma OneAnswer(k: Book, err: int, other: int)
    requires k.Shape() && Reports(k, err) && Reports(k, other)
    ensures err == other
  {
    hide EntryCode, TriedCode, NewCode, RefsPass, Book.TriedCells, Book.TriedIds, Book.NewIds;
    OneEntryReport(k, err, other);
    OneTriedReport(k, err, other);
    OneNewReport(k, err, other);
  }

  lemma OneEntryReport(k: Book, err: int, other: int)
    ensures EntriesReport(k, err) && EntriesReport(k, other) ==> err == other
  {
    hide EntryCode;
  }

  lemma OneTriedReport(k: Book, err: int, other: int)
    requires k.Shape()
    ensures TriedReport(k, err) && TriedReport(k, other) ==> err == other
  {
    hide TriedCode;
  }

  lemma OneNewReport(k: Book, err: int, other: int)
    requires k.Shape()
    ensures NewReport(k, err) && NewReport(k, other) ==> err == other
  {
    hide NewCode;
  }

  /** The two clauses the check does not test: addresses of dead entries, and the id counter. */
  ghost predicate Untested(k: Book) {
    && 0 <= k.idCount && (forall id <- k.info :: 0 <= id < k.idCount && k.info[id].Ip() in k.addr)
    && (forall ip <- k.addr :: k.addr[ip] in k.info && k.info[k.addr[ip]].Ip() == ip)
  }

  lemma SizeOfInfo(k: Book)
    ensures |k.info.Keys| == |k.TriedIds()| + |k.NewIds()|
  {
    assert k.info.Keys == k.TriedIds() + k.NewIds();
    assert k.TriedIds() !! k.NewIds();
  }

  ghost function Below(n: nat): (s: set<int>)
    ensures |s| == n
    ensures forall i :: i in s <==> 0 <= i < n
  {
    if n == 0 then {} else Below(n - 1) + {n - 1}
  }

  lemma {:induction false} InjectionSize(pos: map<int, int>, ids: set<int>)
    requires (forall a <- ids :: a in pos) && forall a, b | a in ids && b in ids && a != b :: pos[a] != pos[b]
    ensures |set a | a in ids :: pos[a]| == |ids|
  {
    if exists x :: x in ids {
      var x :| x in ids;
      InjectionSize(pos, ids - {x});
      assert (set a | a in ids :: pos[a]) == (set a | a in ids - {x} :: pos[a]) + {pos[x]};
    } else {
      assert |ids| == 0;
    }
  }

  /** As many entries as places, each at a place that points back: so every place holds an entry. */
  lemma PlacesFilled(k: Book)
    requires |k.info.Keys| == |k.random|
    requires forall id <- k.info :: 0 <= k.info[id].nRandomPos < |k.random| && k.random[k.info[id].nRandomPos] == id
    ensures k.RandomInverse()
  {
    var pos := map id | id in k.info :: k.info[id].nRandomPos;
    InjectionSize(pos, k.info.Keys);
    var image := set a | a in k.info.Keys :: pos[a];
    assert image <= Below(|k.random|);
    SubsetOfSameSize(image, Below(|k.random|));
    forall i | 0 <= i < |k.random|
      ensures k.random[i] in k.info && k.info[k.random[i]].nRandomPos == i
    {
      assert i in image;
    }
  }

  lemma SubsetOfSameSize(a: set<int>, b: set<int>)
    requires a <= b && |a| == |b|
    ensures a == b
  {
    assert |b - a| == |b| - |a|;
  }

  /** The check passes on every state that satisfies the invariant. */
  lemma ValidPasses(k: Book)
    requires k.Valid() && k.Times() && k.key != 0
    ensures CheckPasses(k)
  {
    RandomSize(k);
    SizeOfInfo(k);
    forall id | id in k.info ensures EntryPasses(k, id) {}
    assert k.NewIds() - {} == k.NewIds();
  }

  lemma RandomSize(k: Book)
    requires k.RandomInverse()
    ensures |k.random| == |k.info.Keys|
  {
    var pos := map id | id in k.info :: k.info[id].nRandomPos;
    InjectionSize(pos, k.info.Keys);
    var image := set a | a in k.info.Keys :: pos[a];
    forall i | 0 <= i < |k.random|
      ensures i in image
    {
      var a := k.random[i];
      assert a in k.info.Keys;
      assert pos[a] in image;
    }
    assert image == Below(|k.random|);
  }

  lemma PassedEntries(k: Book)
    requires k.Shape() && (forall id <- k.info :: EntryPasses(k, id)) && RefsPass(k)
    ensures k.Times() && k.Refs({})
    ensures Untested(k) ==> k.AddrBijection()
  {
    forall id | id in k.info ensures EntryPasses(k, id) {}
  }

  lemma PassedIndexes(k: Book)
    requires |k.random| == |k.info.Keys| && forall id <- k.info :: EntryPasses(k, id)
    ensures k.RandomInverse()
  {
    forall id | id in k.info ensures EntryPasses(k, id) {}
    PlacesFilled(k);
  }

  /** Passing the check is the invariant, but for the clauses it does not test. */
  lemma PassesIsValid(k: Book)
    requires k.Shape()
    ensures CheckPasses(k) && Untested(k) <==> k.Valid() && k.Times() && k.key != 0
  {
    if CheckPasses(k) && Untested(k) {
      hide EntryPasses, Book.RandomInverse, Book.AddrBijection, Book.NewCells, Book.TriedCells;
      hide Book.Refs, Book.Times, RefsPass, Untested;
      SizeOfInfo(k);
      PassedIndexes(k);
      PassedEntries(k);
      assert k.NewIds() - {} == k.NewIds();
    }
    if k.Valid() && k.Times() && k.key != 0 {
      hide EntryPasses, Book.RandomInverse, Book.NewCells, Book.TriedCells;
      hide Book.Refs, Book.Counts, Book.Times, RefsPass;
      ValidPasses(k);
    }
  }

  // ---------------------------------------------------------------- scanning the tried table

  ghost predicate TriedCellOk(k: Book, b: int, i: int)
    requires k.Shape() && 0 <= b < TRIED_BUCKET_COUNT && 0 <= i < BUCKET_SIZE
  {
    var id := k.triedTable[b][i];
    id != EMPTY ==>
      id in k.info && k.info[id].fInTried && k.TriedBucket(k.Service(id)) == b && k.TriedPos(k.Service(id)) == i
  }

  /** Every slot before the t-th, the table read row by row, is fine. */
  ghost predicate TriedOkBefore(k: Book, t: int)
    requires k.Shape()
  {
    forall c, j {:trigger TriedCellOk(k, c, j)} {:trigger k.triedTable[c][j]} |
      0 <= c < TRIED_BUCKET_COUNT && 0 <= j < BUCKET_SIZE && c * BUCKET_SIZE + j < t ::
      TriedCellOk(k, c, j)
  }

  /** The tried ids not yet met before the t-th slot. */
  ghost function TriedLeft(k: Book, t: int): set<int>
    requires k.Shape()
  {
    set id | id in k.TriedIds() &&
      var c := k.TriedBucket(k.Service(id));
      var j := k.TriedPos(k.Service(id));
      !(c * BUCKET_SIZE + j < t && k.triedTable[c][j] == id)
  }

  lemma TriedStart(k: Book)
    requires k.Shape()
    ensures TriedOkBefore(k, 0) && TriedLeft(k, 0) == k.TriedIds()
  {
  }

  lemma TriedNext(k: Book, b: int, i: int)
    requires k.Shape() && 0 <= b < TRIED_BUCKET_COUNT && 0 <= i < BUCKET_SIZE && TriedOkBefore(k, b * BUCKET_SIZE + i)
    requires EMPTY !in k.info
    ensures TriedCellOk(k, b, i) ==> TriedOkBefore(k, b * BUCKET_SIZE + i + 1)
    ensures var id := k.triedTable[b][i];
      && (TriedCellOk(k, b, i) ==> TriedLeft(k, b * BUCKET_SIZE + i + 1) == TriedLeft(k, b * BUCKET_SIZE + i) - {id})
      && (TriedCellOk(k, b, i) && id != EMPTY ==> id in TriedLeft(k, b * BUCKET_SIZE + i))
  {
  }

  lemma TriedBad(k: Book, b: int, i: int)
    requires k.Shape() && 0 <= b < TRIED_BUCKET_COUNT && 0 <= i < BUCKET_SIZE && !TriedCellOk(k, b, i)
    ensures !k.TriedCells()
  {
  }

  lemma TriedEnd(k: Book)
    requires k.Shape() && TriedOkBefore(k, TRIED_BUCKET_COUNT * BUCKET_SIZE)
    ensures TriedLeft(k, TRIED_BUCKET_COUNT * BUCKET_SIZE) == {} <==> k.TriedCells()
  {
    if TriedLeft(k, TRIED_BUCKET_COUNT * BUCKET_SIZE) == {} {
      forall id | id in k.info && k.info[id].fInTried
        ensures k.triedTable[k.TriedBucket(k.Service(id))][k.TriedPos(k.Service(id))] == id
      {
        assert id in k.TriedIds() && id !in TriedLeft(k, TRIED_BUCKET_COUNT * BUCKET_SIZE);
      }
    }
  }

  // ---------------------------------------------------------------- scanning the new table

  ghost predicate NewCellOk(k: Book, b: int, i: int)
    requires k.Shape() && 0 <= b < NEW_BUCKET_COUNT && 0 <= i < BUCKET_SIZE
  {
    var id := k.newTable[b][i];
    id != EMPTY ==> id in k.info && !k.info[id].fInTried && k.NewPos(b, k.Service(id)) == i
  }

  ghost predicate NewOkBefore(k: Book, t: int)
    requires k.Shape()
  {
    forall c, j {:trigger NewCellOk(k, c, j)} {:trigger k.newTable[c][j]} |
      0 <= c < NEW_BUCKET_COUNT && 0 <= j < BUCKET_SIZE && c * BUCKET_SIZE + j < t ::
      NewCellOk(k, c, j)
  }

  /** The buckets of a new id before the t-th slot. */
  ghost function SlotsBefore(k: Book, id: int, t: int): set<int>
    requires k.Shape() && id in k.info
  {
    set c | c in k.Slots(id, k.Service(id)) && c * BUCKET_SIZE + k.NewPos(c, k.Service(id)) < t
  }

  /** The references not yet met before the t-th slot: only positive counts are kept. */
  ghost predicate NewLeft(k: Book, t: int, left: map<int, int>)
    requires k.Shape()
  {
    && (forall id <- left :: id in k.NewIds())
    && (forall id <- k.NewIds() ::
          var n := k.info[id].nRefCount - |SlotsBefore(k, id, t)|;
          n >= 0 && (id in left <==> n > 0) && (id in left ==> left[id] == n))
  }

  lemma NewStart(k: Book, left: map<int, int>)
    requires k.Shape() && left == (map id | id in k.NewIds() :: k.info[id].nRefCount)
    requires forall id <- k.NewIds() :: k.info[id].nRefCount >= 1
    ensures NewOkBefore(k, 0) && NewLeft(k, 0, left) && NewClean(k, 0)
  {
    forall id | id in k.NewIds() ensures SlotsBefore(k, id, 0) == {} {}
  }

  lemma SlotsNext(k: Book, id: int, b: int, i: int)
    requires k.Shape() && id in k.info && 0 <= b < NEW_BUCKET_COUNT && 0 <= i < BUCKET_SIZE
    ensures b !in SlotsBefore(k, id, b * BUCKET_SIZE + i) || k.NewPos(b, k.Service(id)) != i
    ensures SlotsBefore(k, id, b * BUCKET_SIZE + i + 1) ==
            if k.newTable[b][i] == id && k.NewPos(b, k.Service(id)) == i
            then SlotsBefore(k, id, b * BUCKET_SIZE + i) + {b}
            else SlotsBefore(k, id, b * BUCKET_SIZE + i)
  {
  }

  lemma NewOkNext(k: Book, b: int, i: int)
    requires k.Shape() && 0 <= b < NEW_BUCKET_COUNT && 0 <= i < BUCKET_SIZE
    requires NewOkBefore(k, b * BUCKET_SIZE + i) && NewCellOk(k, b, i)
    ensures NewOkBefore(k, b * BUCKET_SIZE + i + 1)
  {
  }

  /** A cell that passes takes one from the count of its id. */
  lemma NewNext(k: Book, b: int, i: int, left: map<int, int>, left': map<int, int>)
    requires k.Shape() && 0 <= b < NEW_BUCKET_COUNT && 0 <= i < BUCKET_SIZE
    requires NewLeft(k, b * BUCKET_SIZE + i, left) && NewCellOk(k, b, i) && EMPTY !in k.info
    requires var id := k.newTable[b][i];
      if id == EMPTY then left' == left
      else id in left && left' == if left[id] == 1 then left - {id} else left[id := left[id] - 1]
    ensures NewLeft(k, b * BUCKET_SIZE + i + 1, left')
  {
    var t := b * BUCKET_SIZE + i;
    forall id | id in k.NewIds()
      ensures |SlotsBefore(k, id, t + 1)| == |SlotsBefore(k, id, t)| + if k.newTable[b][i] == id then 1 else 0
    {
      SlotsNext(k, id, b, i);
    }
    hide SlotsBefore;
    forall id | id in k.NewIds()
      ensures var n := k.info[id].nRefCount - |SlotsBefore(k, id, t + 1)|;
        n >= 0 && (id in left' <==> n > 0) && (id in left' ==> left'[id] == n)
    {
    }
  }

  /** A cell that fails, or whose id has no count left, shows that the references are wrong. */
  lemma NewBad(k: Book, b: int, i: int, left: map<int, int>)
    requires k.Shape() && 0 <= b < NEW_BUCKET_COUNT && 0 <= i < BUCKET_SIZE && k.newTable[b][i] != EMPTY
    requires NewLeft(k, b * BUCKET_SIZE + i, left)
    requires !NewCellOk(k, b, i) || k.newTable[b][i] !in left
    ensures !(k.NewCells() && RefsPass(k))
  {
    var id := k.newTable[b][i];
    if k.NewCells() && RefsPass(k) {
      assert id in k.NewIds();
      SlotsNext(k, id, b, i);
      assert b in k.Slots(id, k.Service(id));
      assert SlotsBefore(k, id, b * BUCKET_SIZE + i) + {b} <= k.Slots(id, k.Service(id));
      SubsetSize(SlotsBefore(k, id, b * BUCKET_SIZE + i) + {b}, k.Slots(id, k.Service(id)));
    }
  }

  lemma SubsetSize(a: set<int>, b: set<int>)
    requires a <= b
    ensures |a| <= |b|
  {
    assert |b - a| == |b| - |a|;
  }

  lemma NewEnd(k: Book, left: map<int, int>)
    requires k.Shape() && NewOkBefore(k, NEW_BUCKET_COUNT * BUCKET_SIZE)
    requires NewLeft(k, NEW_BUCKET_COUNT * BUCKET_SIZE, left)
    ensures left == map[] <==> k.NewCells() && RefsPass(k)
    ensures k.NewCells()
    ensures NewClean(k, NEW_BUCKET_COUNT * BUCKET_SIZE) ==> NewReport(k, 0)
  {
    forall id | id in k.NewIds()
      ensures SlotsBefore(k, id, NEW_BUCKET_COUNT * BUCKET_SIZE) == k.Slots(id, k.Service(id))
    {
    }
    assert k.NewCells();
    if RefsPass(k) {
      assert forall id :: id !in left;
    } 
    if left == map[] {
      forall id | id in k.info && !k.info[id].fInTried
        ensures k.info[id].nRefCount == |k.Slots(id, k.Service(id))|
      {
        assert id in k.NewIds() && id !in left;
      }
    }
  }

  /** The scans of the tables do not depend on the address index. */
  lemma AddrIrrelevant(k: Book, m: map<NetAddr, int>)
    requires k.Shape()
    ensures var k' := k.(addr := m);
      && k'.TriedIds() == k.TriedIds() && k'.NewIds() == k.NewIds()
      && (k'.TriedCells() <==> k.TriedCells()) && (k'.NewCells() <==> k.NewCells()) && (RefsPass(k') <==> RefsPass(k))
  {
    var k' := k.(addr := m);
    forall id, s ensures k'.Slots(id, s) == k.Slots(id, s) {}
  }

  /** One slot of the new table tested: what an error means, and what passing leaves. */
  lemma NewStep(k: Book, b: int, i: int, left: map<int, int>)
    requires k.Shape() && 0 <= b < NEW_BUCKET_COUNT && 0 <= i < BUCKET_SIZE && EMPTY !in k.info
    requires NewOkBefore(k, b * BUCKET_SIZE + i) && NewLeft(k, b * BUCKET_SIZE + i, left)
    ensures var id := k.newTable[b][i];
      && (id == EMPTY ==> NewOkBefore(k, b * BUCKET_SIZE + i + 1) && NewLeft(k, b * BUCKET_SIZE + i + 1, left))
      && (id != EMPTY && id !in left ==> !(k.NewCells() && RefsPass(k)))
      && (id != EMPTY && id in left ==>
            && id in k.info
            && (k.NewPos(b, k.Service(id)) != i ==> !(k.NewCells() && RefsPass(k)))
            && (k.NewPos(b, k.Service(id)) == i ==>
                  NewOkBefore(k, b * BUCKET_SIZE + i + 1)
                  && NewLeft(k, b * BUCKET_SIZE + i + 1,
                             if left[id] == 1 then left - {id} else left[id := left[id] - 1])))
  {
    var id := k.newTable[b][i];
    if id == EMPTY {
      NewOkNext(k, b, i);
      NewNext(k, b, i, left, left);
    } else if id !in left {
      NewBad(k, b, i, left);
    } else {
      assert id in k.NewIds();
      if k.NewPos(b, k.Service(id)) != i {
        NewBad(k, b, i, left);
      } else {
        NewOkNext(k, b, i);
        NewNext(k, b, i, left, if left[id] == 1 then left - {id} else left[id := left[id] - 1]);
      }
    }
  }

  /** The code of a new slot by the references left to be met. */
  lemma NewCodeIs(k: Book, b: int, i: int, left: map<int, int>)
    requires k.Shape() && 0 <= b < NEW_BUCKET_COUNT && 0 <= i < BUCKET_SIZE && NewLeft(k, b * BUCKET_SIZE + i, left)
    ensures var id := k.newTable[b][i];
      && (id in left ==> id in k.info)
      && NewCode(k, b, i) == (if id == EMPTY then 0
                              else if id !in left then -12
                              else if k.NewPos(b, k.Service(id)) != i then -19 else 0)
  {
    hide SlotsBefore;
  }

  lemma KeepsOutEmpty(k: Book)
    requires k.Valid()
    ensures EMPTY !in k.info
  {
  }

  lemma ReorderTimes(k: Book, k': Book)
    requires Reordered(k, k') && k.Times()
    ensures k'.Times()
  {
    forall j | j in k'.info
      ensures k'.info[j].nLastTry >= 0 && k'.info[j].nLastSuccess >= 0
      ensures k'.info[j].fInTried ==> k'.info[j].nLastSuccess != 0
    {
      assert j in k.info && k'.info[j].SameButPos(k.info[j]);
    }
  }
}
