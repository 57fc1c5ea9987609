/** Block indexes, their skip pointers, and the active chain as a vector of ancestors. */
module Chain {
  import opened Arithmetic
  import opened SkipList

  // Blocks

  class BlockIndex {
    const pprev: BlockIndex?
    const nHeight: nat
    const pskip: BlockIndex?
    const hash: nat
    const fProofOfStake: bool

    /** Every block down to the first has one before it, one lower. */
    ghost predicate Linked()
      decreases nHeight
    {
      if pprev == null then nHeight == 0
      else nHeight == pprev.nHeight + 1 && pprev.Linked()
    }

    /** The skip pointers of the block and of all before it point to the right ancestors. */
    ghost predicate Skips()
      requires Linked()
      decreases nHeight
    {
      pprev != null ==> pskip == Ancestor(pprev, GetSkipHeight(nHeight)) && pprev.Skips()
    }

    ghost predicate Valid() {
      Linked() && Skips()
    }

    constructor (pprev: BlockIndex?, hash: nat, fProofOfStake: bool)
      requires pprev != null ==> pprev.Valid()
      ensures Valid() && this.pprev == pprev && this.hash == hash && this.fProofOfStake == fProofOfStake
      ensures nHeight == if pprev == null then 0 else pprev.nHeight + 1
    {
      this.pprev, this.hash, this.fProofOfStake := pprev, hash, fProofOfStake;
      if pprev == null {
        nHeight := 0;
        pskip := null;
      } else {
        nHeight := pprev.nHeight + 1;
        var skip, n := pprev.GetAncestor(GetSkipHeight(pprev.nHeight + 1));
        pskip := skip;
      }
    }

    /** The ancestor at a height, found by skip pointers where they help. */
    method GetAncestor(height: int) returns (r: BlockIndex?, ghost nSteps: nat)
      requires Valid()
      ensures r == if height > nHeight || height < 0 then null else Ancestor(this, height)
      ensures forall n: nat | n > 0 && nHeight < Pow2(n) :: 2 * nSteps <= n * n + 3 * n - 2
    {
      hide GetSkipHeight, Pow2, Steps;
      nSteps := 0;
      forall n: nat | n > 0 ensures 0 <= n * n + 3 * n - 2 {
        MulMonotone(n, 1, n);
      }
      if height > nHeight || height < 0 {
        return null, 0;
      }
      var pindexWalk, heightWalk := this, nHeight;
      while heightWalk > height
        invariant pindexWalk != null && height <= heightWalk == pindexWalk.nHeight <= nHeight && pindexWalk.Valid()
        invariant pindexWalk == Ancestor(this, heightWalk)
        invariant nSteps + Steps(heightWalk, height) == Steps(nHeight, height)
        decreases heightWalk
      {
        StepsNext(heightWalk, height);
        nSteps := nSteps + 1;
        var heightSkip, heightSkipPrev := GetSkipHeight(heightWalk), GetSkipHeight(heightWalk - 1);
        assert TakesSkip(heightWalk, height) ==
          (heightSkip == height ||
           (heightSkip > height && !(heightSkipPrev < heightSkip - 2 && heightSkipPrev >= height)));
        if heightSkip == height ||
           (heightSkip > height && !(heightSkipPrev < heightSkip - 2 && heightSkipPrev >= height)) {
          AncestorSkips(pindexWalk.pprev, heightSkip);
          AncestorTwice(this, heightWalk, heightSkip);
          pindexWalk := pindexWalk.pskip;
          heightWalk := heightSkip;
        } else {
          AncestorTwice(this, heightWalk, heightWalk - 1);
          pindexWalk := pindexWalk.pprev;
          heightWalk := heightWalk - 1;
        }
      }
      forall n: nat | n > 0 && nHeight < Pow2(n) ensures 2 * nSteps <= n * n + 3 * n - 2 {
        WalksAreShort(n, nHeight, height);
      }
      return pindexWalk, nSteps;
    }
  }

  /** The ancestor at a height, by going back one block at a time. */
  ghost function Ancestor(b: BlockIndex, h: nat): (r: BlockIndex)
    requires b.Linked() && h <= b.nHeight
    ensures r.nHeight == h && r.Linked()
    decreases b.nHeight
  {
    if h == b.nHeight then b else Ancestor(b.pprev, h)
  }

  lemma {:induction false} AncestorSkips(b: BlockIndex, h: nat)
    requires b.Valid() && h <= b.nHeight
    ensures Ancestor(b, h).Valid()
    decreases b.nHeight
  {
    if h < b.nHeight {
      AncestorSkips(b.pprev, h);
    }
  }

  /** An ancestor's ancestor. */
  lemma {:induction false} AncestorTwice(b: BlockIndex, h: nat, k: nat)
    requires b.Linked() && k <= h <= b.nHeight
    ensures Ancestor(Ancestor(b, h), k) == Ancestor(b, k)
    decreases b.nHeight
  {
    if h < b.nHeight {
      AncestorTwice(b.pprev, h, k);
    }
  }

  // The active chain

  /** The ancestors of a block, lowest first, and the block itself. */
  ghost function Path(tip: BlockIndex?): (p: seq<BlockIndex?>)
    requires tip != null ==> tip.Linked()
    ensures |p| == if tip == null then 0 else tip.nHeight + 1
    ensures forall h: nat | h < |p| :: p[h] == Ancestor(tip, h)
  {
    if tip == null then [] else seq(tip.nHeight + 1, h requires 0 <= h <= tip.nHeight => Ancestor(tip, h))
  }

  /** Keeping the first n entries, or filling up with nothing. */
  function Resized(v: seq<BlockIndex?>, n: nat): (r: seq<BlockIndex?>)
    ensures |r| == n && forall h: nat | h < n :: r[h] == if h < |v| then v[h] else null
  {
    seq(n, h requires 0 <= h < n => if h < |v| then v[h] else null)
  }

  /** The block is one of the chain of the other. */
  ghost predicate OnPath(b: BlockIndex, tip: BlockIndex?)
    requires b.Linked() && (tip != null ==> tip.Linked())
  {
    tip != null && b.nHeight <= tip.nHeight && Ancestor(tip, b.nHeight) == b
  }

  class CChain {
    var vChain: seq<BlockIndex?>

    /** The block the chain leads to. */
    ghost function Top(): BlockIndex?
      reads this
    {
      if vChain == [] then null else vChain[|vChain| - 1]
    }

    /** The vector is exactly the ancestor path of its last entry. */
    ghost predicate Valid()
      reads this
    {
      && (vChain != [] ==> Top() != null)
      && (Top() != null ==> Top().Valid())
      && vChain == Path(Top())
    }

    constructor ()
      ensures Valid() && vChain == []
    {
      vChain := [];
    }

    function At(nHeight: int): BlockIndex?
      reads this
    {
      if nHeight < 0 || nHeight >= |vChain| then null else vChain[nHeight]
    }

    function Height(): (h: int)
      reads this
      ensures h >= -1 && (Valid() ==> h == if Top() == null then -1 else Top().nHeight)
    {
      |vChain| - 1
    }

    /** The highest block, or the highest that was staked; the first block stands in for that if there is none. */
    method Tip(fProofOfStake: bool) returns (r: BlockIndex?)
      requires Valid()
      ensures r == null <==> vChain == []
      ensures r != null ==> r in vChain && r.Linked()
      ensures r != null && !fProofOfStake ==>
                r == Top() && forall b <- vChain :: b != null && (b == r || b.nHeight < r.nHeight)
      ensures r != null && fProofOfStake ==>
                && (r.fProofOfStake || r.nHeight == 0)
                && forall h | r.nHeight < h < |vChain| :: vChain[h] != null && !vChain[h].fProofOfStake
    {
      if |vChain| < 1 {
        return null;
      }
      r := vChain[|vChain| - 1];
      ghost var top := Top();
      if fProofOfStake {
        while r != null && r.pprev != null && !r.fProofOfStake
          invariant r != null && r.Linked() && r.nHeight < |vChain| && vChain[r.nHeight] == r
          invariant forall h | r.nHeight < h < |vChain| :: vChain[h] != null && !vChain[h].fProofOfStake
          decreases if r == null then 0 else r.nHeight + 1
        {
          StepBack(top, r.nHeight - 1);
          r := r.pprev;
        }
      }
    }

    method Contains(pindex: BlockIndex) returns (r: bool)
      requires Valid() && pindex.Linked()
      ensures r <==> OnPath(pindex, Top())
      ensures r <==> pindex in vChain
    {
      r := At(pindex.nHeight) == pindex;
    }

    /** The block after one of the chain. */
    method Next(pindex: BlockIndex) returns (r: BlockIndex?)
      requires Valid() && pindex.Linked()
      ensures r != null <==> OnPath(pindex, Top()) && pindex != Top()
      ensures r != null ==> r in vChain && r.pprev == pindex
    {
      var contained := Contains(pindex);
      if contained {
        r := At(pindex.nHeight + 1);
        if r != null {
          StepBack(Top(), pindex.nHeight);
        }
      } else {
        r := null;
      }
    }

    /** Moves the chain to another tip, stopping where the old chain and the new one meet. */
    method SetTip(tip: BlockIndex?)
      requires Valid() && (tip != null ==> tip.Valid())
      modifies this
      ensures Valid() && vChain == Path(tip) && Top() == tip
    {
      if tip == null {
        vChain := [];
        return;
      }
      ghost var was, before := vChain, Top();
      vChain := Resized(vChain, tip.nHeight + 1);
      ghost var resized := vChain;
      var pindex: BlockIndex? := tip;
      while pindex != null && vChain[pindex.nHeight] != pindex
        invariant |vChain| == tip.nHeight + 1
        invariant pindex != null ==>
                    pindex.Linked() && pindex.nHeight <= tip.nHeight && Ancestor(tip, pindex.nHeight) == pindex
        invariant var c := if pindex == null then -1 else pindex.nHeight;
                  && (forall h: nat | c < h <= tip.nHeight :: vChain[h] == Ancestor(tip, h))
                  && (forall h: nat | h <= c :: vChain[h] == resized[h])
        decreases if pindex == null then 0 else pindex.nHeight + 1
      {
        vChain := vChain[pindex.nHeight := pindex];
        if pindex.pprev != null {
          AncestorTwice(tip, pindex.nHeight, pindex.nHeight - 1);
        }
        pindex := pindex.pprev;
      }
      if pindex != null {
        forall h: nat | h <= pindex.nHeight ensures vChain[h] == Ancestor(tip, h) {
          AncestorTwice(tip, pindex.nHeight, h);
          AncestorTwice(before, pindex.nHeight, h);
        }
      }
      assert vChain == Path(tip);
    }

    /** The last block the chain has in common with another one's. */
    method FindFork(pindex: BlockIndex) returns (r: BlockIndex?)
      requires Valid() && pindex.Valid()
      ensures r != null ==> r.Linked() && OnPath(r, Top()) && OnPath(r, pindex)
      ensures forall b: BlockIndex | b.Linked() && OnPath(b, Top()) && OnPath(b, pindex) ::
                r != null && b.nHeight <= r.nHeight
    {
      r := pindex;
      if pindex.nHeight > Height() {
        ghost var n;
        r, n := pindex.GetAncestor(Height());
      }
      while true
        invariant r != null ==> r.Linked() && r.nHeight <= Height() && OnPath(r, pindex)
        invariant forall h: nat :: Common(Top(), pindex, h) ==> r != null && h <= r.nHeight
        decreases if r == null then 0 else r.nHeight + 1
      {
        if r == null {
          break;
        }
        var contained := Contains(r);
        if contained {
          break;
        }
        if r.pprev != null {
          StepBack(pindex, r.pprev.nHeight);
        }
        r := r.pprev;
      }
      forall b: BlockIndex | b.Linked() && OnPath(b, Top()) && OnPath(b, pindex)
        ensures r != null && b.nHeight <= r.nHeight
      {
        assert Common(Top(), pindex, b.nHeight);
      }
    }

    /**
     * Hashes from a block back to the first: the first eleven steps go back one block each, the later
     * ones twice as far every time.
     */
    method GetLocator(start: BlockIndex?) returns (vHave: seq<nat>, ghost blocks: seq<BlockIndex>)
      requires Valid() && (start != null ==> start.Valid())
      ensures var from := if start == null then Top() else start;
              if from == null then blocks == [] else IsLocator(blocks, from)
      ensures |vHave| == |blocks| && forall i | 0 <= i < |blocks| :: vHave[i] == blocks[i].hash
      ensures var from := if start == null then Top() else start;
              if from == null then vHave == []
              else vHave != [] && vHave[0] == from.hash && (|vHave| > 12 ==> Pow2(|vHave| - 12) + 9 < from.nHeight)
    {
      hide Pow2;
      hide IsLocator, Locating, StepAt, BackAt, EntryAt;
      var nStep := 1;
      vHave, blocks := [], [];
      var pindex := start;
      if pindex == null {
        pindex := Tip(false);
      }
      if pindex == null {
        return;
      }
      ghost var from := pindex;
      LocatorStarts(from);
      while true
        invariant pindex != null && pindex.Valid() && Locating(blocks, from, pindex)
        invariant nStep == StepAt(|blocks|)
        invariant |vHave| == |blocks| && forall i | 0 <= i < |blocks| :: vHave[i] == blocks[i].hash
        decreases pindex.nHeight
      {
        ghost var before, b := blocks, pindex;
        vHave := vHave + [pindex.hash];
        blocks := blocks + [pindex];
        if pindex.nHeight == 0 {
          LocatorEnds(before, from, b);
          LocatorIsShort(blocks, from);
          return;
        }
        var nHeight := Max(pindex.nHeight - nStep, 0);
        var contained := Contains(pindex);
        if contained {
          AncestorTwice(Top(), pindex.nHeight, nHeight);
          pindex := At(nHeight);
        } else {
          ghost var n;
          pindex, n := pindex.GetAncestor(nHeight);
        }
        AncestorSkips(b, nHeight);
        LocatorStep(before, from, b, pindex);
        if |vHave| > 10 {
          nStep := nStep * 2;
        }
      }
    }
  }

  /** The two have the same block at this height. */
  ghost predicate Common(a: BlockIndex?, b: BlockIndex, h: nat)
    requires (a != null ==> a.Linked()) && b.Linked()
  {
    a != null && h <= a.nHeight && h <= b.nHeight && Ancestor(a, h) == Ancestor(b, h)
  }

  // Locators

  /** How far the step after so many entries goes. */
  function StepAt(k: nat): (d: nat)
    ensures d > 0
  {
    if k <= 10 then 1 else Pow2(k - 10)
  }

  /** How far back the entry with so many before it is, unless the first block comes earlier. */
  function BackAt(k: nat): nat {
    if k <= 10 then k else 9 + Pow2(k - 10)
  }

  lemma BackMore(k: nat)
    ensures BackAt(k + 1) == BackAt(k) + StepAt(k)
  {
    assert Pow2(0) == 1 && Pow2(1) == 2;
    if k > 10 {
      assert Pow2(k - 9) == 2 * Pow2(k - 10);
    }
  }

  ghost predicate EntryAt(blocks: seq<BlockIndex>, from: BlockIndex, i: nat)
    requires from.Linked() && i < |blocks|
  {
    blocks[i] == Ancestor(from, Max(from.nHeight - BackAt(i), 0))
  }

  /** The entries so far, none of them the first block, and the one that comes next. */
  ghost predicate Locating(blocks: seq<BlockIndex>, from: BlockIndex, pindex: BlockIndex)
    requires from.Linked()
  {
    && (forall i | 0 <= i < |blocks| :: EntryAt(blocks, from, i))
    && (|blocks| > 0 ==> BackAt(|blocks| - 1) < from.nHeight)
    && pindex == Ancestor(from, Max(from.nHeight - BackAt(|blocks|), 0))
  }

  /** A locator: ancestors at exactly these distances, ending with the first block, and not before it. */
  ghost predicate IsLocator(blocks: seq<BlockIndex>, from: BlockIndex)
    requires from.Linked()
  {
    && blocks != []
    && (forall i | 0 <= i < |blocks| :: EntryAt(blocks, from, i))
    && BackAt(|blocks| - 1) >= from.nHeight
    && (|blocks| > 1 ==> BackAt(|blocks| - 2) < from.nHeight)
  }

  lemma StepBack(tip: BlockIndex, h: nat)
    requires tip.Linked() && h < tip.nHeight
    ensures Ancestor(tip, h + 1).pprev == Ancestor(tip, h)
  {
    AncestorTwice(tip, h + 1, h);
  }

  lemma LocatorStarts(from: BlockIndex)
    requires from.Linked()
    ensures Locating([], from, from) && StepAt(0) == 1
  {
  }

  lemma MoreEntries(blocks: seq<BlockIndex>, from: BlockIndex, b: BlockIndex)
    requires from.Linked() && Locating(blocks, from, b)
    ensures forall i | 0 <= i < |blocks| + 1 :: EntryAt(blocks + [b], from, i)
  {
    forall i | 0 <= i < |blocks| ensures EntryAt(blocks + [b], from, i) {
      assert EntryAt(blocks, from, i);
    }
  }

  /** From an entry that is not the first block to the next. */
  lemma LocatorStep(blocks: seq<BlockIndex>, from: BlockIndex, b: BlockIndex, next: BlockIndex)
    requires from.Linked() && Locating(blocks, from, b) && b.nHeight > 0
    requires next == Ancestor(b, Max(b.nHeight - StepAt(|blocks|), 0))
    ensures Locating(blocks + [b], from, next)
    ensures StepAt(|blocks| + 1) == StepAt(|blocks|) * (if |blocks| + 1 > 10 then 2 else 1)
  {
    hide EntryAt;
    MoreEntries(blocks, from, b);
    BackMore(|blocks|);
    AncestorTwice(from, b.nHeight, next.nHeight);
    StepMore(|blocks|);
  }

  lemma StepMore(k: nat)
    ensures StepAt(k + 1) == StepAt(k) * (if k + 1 > 10 then 2 else 1)
  {
    assert Pow2(1) == 2;
    if k > 10 {
      assert Pow2(k - 9) == 2 * Pow2(k - 10);
    }
  }

  lemma LocatorEnds(blocks: seq<BlockIndex>, from: BlockIndex, b: BlockIndex)
    requires from.Linked() && Locating(blocks, from, b) && b.nHeight == 0
    ensures IsLocator(blocks + [b], from)
  {
    MoreEntries(blocks, from, b);
  }

  /**
   * A locator starts at its block, ends at the first one, goes strictly down, and is short: more than
   * twelve entries only for chains whose height is beyond the matching power of two.
   */
  lemma LocatorIsShort(blocks: seq<BlockIndex>, from: BlockIndex)
    requires from.Linked() && IsLocator(blocks, from)
    ensures blocks[0] == from && blocks[|blocks| - 1].nHeight == 0
    ensures forall i, j | 0 <= i < j < |blocks| :: blocks[j].nHeight < blocks[i].nHeight
    ensures |blocks| > 12 ==> Pow2(|blocks| - 12) + 9 < from.nHeight
  {
    assert EntryAt(blocks, from, 0) && EntryAt(blocks, from, |blocks| - 1);
    forall i, j | 0 <= i < j < |blocks|
      ensures blocks[j].nHeight < blocks[i].nHeight
    {
      assert EntryAt(blocks, from, i) && EntryAt(blocks, from, j);
      BackOrder(i, j);
      BackOrder(i, |blocks| - 1);
      if |blocks| > 1 && i < |blocks| - 2 {
        BackOrder(i, |blocks| - 2);
      }
    }
  }

  lemma {:induction false} BackOrder(i: nat, j: nat)
    requires i < j
    ensures BackAt(i) < BackAt(j)
  {
    BackMore(j - 1);
    if i < j - 1 {
      BackOrder(i, j - 1);
    }
  }
}
