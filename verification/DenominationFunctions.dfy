/** Choosing the coins to spend, and the change to give back. */
module DenominationFunctions {
  import opened Arithmetic
  import opened Denominations

  /** What is no denomination; it is below them all. */
  const ZQ_ERROR := -1

  type MaybeDenom = d: int | ZQ_ERROR <= d < DENOMS

  method GetNumberOfCoinsUsed(mapChange: Counts) returns (nChangeCount: nat)
    ensures nChangeCount == Number(mapChange, DENOMS)
  {
    nChangeCount := 0;
    for d := 0 to DENOMS
      invariant nChangeCount == Number(mapChange, d)
    {
      nChangeCount := nChangeCount + mapChange[d];
    }
  }

  method GetMaxDenomHeld(held: Counts) returns (maxDenom: MaybeDenom)
    ensures maxDenom != ZQ_ERROR ==> held[maxDenom] > 0
    ensures forall d | maxDenom < d < DENOMS :: held[d] == 0
  {
    for d := DENOMS downto 0
      invariant forall e | d <= e < DENOMS :: held[e] == 0
    {
      if held[d] > 0 {
        return d;
      }
    }
    return ZQ_ERROR;
  }

  method GetNextLowerDenomHeld(thisDenom: MaybeDenom, held: Counts) returns (nextValue: MaybeDenom)
    ensures nextValue != ZQ_ERROR ==> nextValue < thisDenom && held[nextValue] > 0
    ensures forall d | nextValue < d < thisDenom :: held[d] == 0
  {
    for d := DENOMS downto 0
      invariant forall e | d <= e < DENOMS && e < thisDenom :: held[e] == 0
    {
      if d < thisDenom && held[d] != 0 {
        return d;
      }
    }
    return ZQ_ERROR;
  }

  /** Coins of one denomination, one at a time: the inner loop of every selection. */
  method TakeCoins(rule: Rule, d: Denom, nHeld: nat, nRemaining: int) returns (nUsed: nat, nLeft: int)
    ensures nUsed == Taken(rule, nHeld, nRemaining, d)
    ensures nLeft == nRemaining - Worth(rule, nHeld, nRemaining, d)
  {
    hide Amount, Threshold;
    var nValue := Amount(d);
    nUsed, nLeft := 0, nRemaining;
    while nLeft >= Threshold(rule, nValue) && nUsed < nHeld
      invariant nUsed <= nHeld
      invariant Take(nHeld, nRemaining, nValue, Threshold(rule, nValue)) ==
                nUsed + Take(nHeld - nUsed, nLeft, nValue, Threshold(rule, nValue))
      invariant nLeft == nRemaining - nUsed * nValue
    {
      OneMore(nUsed, nValue);
      nUsed := nUsed + 1;
      nLeft := nLeft - nValue;
    }
  }

  lemma OneMore(k: int, v: int)
    ensures (k + 1) * v == k * v + v
  {
  }

  /** A selection in progress, from the highest denomination down to d. */
  ghost predicate Selecting(rule: Rule, h: Counts, r: int, d: nat, used: Counts, left: int)
    requires d <= DENOMS
  {
    && Greedy(rule, h, r, DENOMS) == Greedy(rule, h, left, d) + used[d..]
    && (forall i | 0 <= i < d :: used[i] == 0)
    && left == r - Value(used, DENOMS)
  }

  lemma SelectingMeans(rule: Rule, h: Counts, r: int, d: nat, used: Counts, left: int)
    requires d <= DENOMS && Selecting(rule, h, r, d, used, left)
    ensures (forall i | 0 <= i < d :: used[i] == 0) && left == r - Value(used, DENOMS)
  {
  }

  lemma SelectingStarts(rule: Rule, h: Counts, r: int)
    ensures Selecting(rule, h, r, DENOMS, Zeros(), r)
  {
    ValueZeros(Zeros(), DENOMS);
    assert Zeros()[DENOMS..] == [];
  }

  lemma SelectingSteps(rule: Rule, h: Counts, r: int, d: Denom, used: Counts, left: int)
    requires Selecting(rule, h, r, d + 1, used, left)
    ensures Selecting(rule, h, r, d, used[d := Taken(rule, h[d], left, d)], left - Worth(rule, h[d], left, d))
  {
    hide Value, Taken, Worth, Amount, Greedy;
    var k, w := Taken(rule, h[d], left, d), Worth(rule, h[d], left, d);
    ValueUpdate(used, d, k, DENOMS);
    WorthIs(rule, h[d], left, d);
    OneDown(rule, h, left, d);
    Regroup(Greedy(rule, h, r, DENOMS), Greedy(rule, h, left - w, d), used, d, k);
  }

  lemma OneDown(rule: Rule, h: Counts, left: int, d: Denom)
    ensures Greedy(rule, h, left, d + 1) ==
            Greedy(rule, h, left - Worth(rule, h[d], left, d), d) + [Taken(rule, h[d], left, d)]
  {
  }

  lemma Regroup(all: seq<nat>, g: seq<nat>, used: Counts, d: Denom, k: nat)
    requires all == (g + [k]) + used[d + 1..]
    ensures all == g + used[d := k][d..]
  {
    assert used[d := k][d..] == [k] + used[d + 1..];
  }

  lemma SelectingEnds(rule: Rule, h: Counts, r: int, used: Counts, left: int)
    requires Selecting(rule, h, r, 0, used, left)
    ensures used == Greedy(rule, h, r, DENOMS)
  {
    assert Greedy(rule, h, left, 0) == [];
    assert used[0..] == used;
  }

  /** Meets an amount with coins held, as far as can be. */
  method GetSpendCoins(nValueTarget: int, held: Counts) returns (mapUsed: Counts)
    ensures mapUsed == Greedy(AtMost, held, nValueTarget, DENOMS)
  {
    hide Selecting, Greedy, Taken, Worth, Value, Amount;
    mapUsed := Zeros();
    var nRemainingValue := nValueTarget;
    SelectingStarts(AtMost, held, nValueTarget);
    for d := DENOMS downto 0
      invariant Selecting(AtMost, held, nValueTarget, d, mapUsed, nRemainingValue)
    {
      SelectingSteps(AtMost, held, nValueTarget, d, mapUsed, nRemainingValue);
      var nUsed, nLeft := TakeCoins(AtMost, d, held[d], nRemainingValue);
      mapUsed, nRemainingValue := mapUsed[d := nUsed], nLeft;
    }
    SelectingEnds(AtMost, held, nValueTarget, mapUsed, nRemainingValue);
  }

  /** Change for an amount, without limits. */
  method GetChange(nValueTarget: int) returns (mapChange: Counts)
    ensures mapChange == Change(nValueTarget)
  {
    hide Selecting, Greedy, Taken, Worth, Value, Amount;
    mapChange := Zeros();
    var nRemainingValue := nValueTarget;
    ghost var plenty := Plenty(nValueTarget);
    SelectingStarts(AtMost, plenty, nValueTarget);
    for d := DENOMS downto 0
      invariant Selecting(AtMost, plenty, nValueTarget, d, mapChange, nRemainingValue)
      invariant nRemainingValue <= nValueTarget
    {
      SelectingSteps(AtMost, plenty, nValueTarget, d, mapChange, nRemainingValue);
      var nUsed, nLeft := ChangeInto(d, nRemainingValue, plenty[d]);
      mapChange, nRemainingValue := mapChange[d := nUsed], nLeft;
    }
    SelectingEnds(AtMost, plenty, nValueTarget, mapChange, nRemainingValue);
  }

  /** Coins of one denomination without limit, which is any limit the amount cannot reach. */
  method ChangeInto(d: Denom, nRemaining: int, ghost plenty: nat) returns (nUsed: nat, nLeft: int)
    requires nRemaining <= plenty
    ensures nUsed == Taken(AtMost, plenty, nRemaining, d)
    ensures nLeft == nRemaining - Worth(AtMost, plenty, nRemaining, d) <= nRemaining
  {
    hide Amount;
    var nValue := Amount(d);
    nUsed, nLeft := 0, nRemaining;
    while nLeft >= nValue
      invariant nLeft <= plenty - nUsed && nUsed <= plenty
      invariant Take(plenty, nRemaining, nValue, nValue) == nUsed + Take(plenty - nUsed, nLeft, nValue, nValue)
      invariant nLeft == nRemaining - nUsed * nValue <= nRemaining
    {
      OneMore(nUsed, nValue);
      nUsed := nUsed + 1;
      nLeft := nLeft - nValue;
    }
  }

  // Minimizing change

  /** Only the coins up to the given denomination. */
  function UpTo(held: Counts, top: MaybeDenom): Counts {
    seq(DENOMS, i requires 0 <= i < DENOMS => if i <= top then held[i] else 0)
  }

  /** Coins that stay strictly below the amount, the higher denominations first. */
  function StayUnder(held: Counts, top: MaybeDenom, nValueTarget: int): Counts {
    Greedy(Under, UpTo(held, top), nValueTarget, DENOMS)
  }

  /** No coin is left that is larger than what staying under has left. */
  ghost predicate Stuck(held: Counts, top: MaybeDenom, nValueTarget: int) {
    && nValueTarget > 0
    && forall d: Denom ::
         StayUnder(held, top, nValueTarget)[d] >= held[d] ||
         Amount(d) <= nValueTarget - Value(StayUnder(held, top, nValueTarget), DENOMS)
  }

  /** From the given denomination up, the smallest coin left over that is worth more than what remains. */
  function Filler(held: Counts, under: Counts, left: int, from: nat): (d: MaybeDenom)
    requires from <= DENOMS
    ensures d != ZQ_ERROR ==>
              && under[d] < held[d] && Amount(d) > left
              && forall e: nat | from <= e < d :: under[e] >= held[e] || Amount(e) <= left
    ensures d == ZQ_ERROR && left >= 0 ==> forall e: Denom | from <= e :: under[e] >= held[e] || Amount(e) <= left
    decreases DENOMS - from
  {
    if from == DENOMS then ZQ_ERROR
    else if under[from] < held[from] && Amount(from) > left then from
    else if left < 0 then ZQ_ERROR
    else Filler(held, under, left, from + 1)
  }

  /** Coins below the amount, and one more that carries them over it. */
  function Filled(held: Counts, top: MaybeDenom, nValueTarget: int): Counts {
    var under := StayUnder(held, top, nValueTarget);
    var d := Filler(held, under, nValueTarget - Value(under, DENOMS), 0);
    if d == ZQ_ERROR then under else under[d := under[d] + 1]
  }

  /** The coins of both collections. */
  function Common(c: Counts, e: Counts): (r: Counts)
    ensures Within(r, c, DENOMS) && Within(r, e, DENOMS)
    ensures forall d: Denom :: r[d] == c[d] || r[d] == e[d]
  {
    seq(DENOMS, d requires 0 <= d < DENOMS => Min(c[d], e[d]))
  }

  /** The coins of both what is spent and what comes back. */
  function Overlap(held: Counts, top: MaybeDenom, nValueTarget: int): Counts {
    var spent := Filled(held, top, nValueTarget);
    Common(spent, Change(Value(spent, DENOMS) - nValueTarget))
  }

  /** What is paid when these are not spent. */
  function AltWorth(held: Counts, top: MaybeDenom, nValueTarget: int): int {
    Value(Filled(held, top, nValueTarget), DENOMS) - Value(Overlap(held, top, nValueTarget), DENOMS)
  }

  /** The coins that this is paid with. */
  function Alternative(held: Counts, top: MaybeDenom, nValueTarget: int): Counts {
    Greedy(AtMost, held, AltWorth(held, top, nValueTarget), DENOMS)
  }

  /** The number of coins that come back when these are spent. */
  function ChangeCount(used: Counts, nValueTarget: int): nat {
    Number(Change(Value(used, DENOMS) - nValueTarget), DENOMS)
  }

  /** The alternative gives back fewer coins, and keeps the limit. */
  predicate Improves(nMaxNumberOfSpends: int, nChangeCount: nat, held: Counts, top: MaybeDenom, nValueTarget: int) {
    && Number(Alternative(held, top, nValueTarget), DENOMS) <= nMaxNumberOfSpends
    && ChangeCount(Alternative(held, top, nValueTarget), nValueTarget) < nChangeCount
  }

  lemma FilledMeans(held: Counts, top: MaybeDenom, nValueTarget: int)
    ensures Within(Filled(held, top, nValueTarget), held, DENOMS)
    ensures Value(Filled(held, top, nValueTarget), DENOMS) >= nValueTarget || Stuck(held, top, nValueTarget)
  {
    hide Amount, Value, Greedy;
    UnderMeans(UpTo(held, top), nValueTarget, DENOMS);
    var under := StayUnder(held, top, nValueTarget);
    var left := nValueTarget - Value(under, DENOMS);
    var d := Filler(held, under, left, 0);
    if d != ZQ_ERROR {
      ValueUpdate(under, d, under[d] + 1, DENOMS);
    }
  }

  /** The alternative can be paid, and covers the target if there was a coin to fill up with. */
  lemma AlternativeIsPaid(held: Counts, top: MaybeDenom, nValueTarget: int)
    ensures Value(Alternative(held, top, nValueTarget), DENOMS) == AltWorth(held, top, nValueTarget)
    ensures AltWorth(held, top, nValueTarget) >= nValueTarget || Stuck(held, top, nValueTarget)
  {
    hide Amount, Value, Number, Greedy, Stuck, Filled;
    var spent, both := Filled(held, top, nValueTarget), Overlap(held, top, nValueTarget);
    var worth := Value(spent, DENOMS);
    FilledMeans(held, top, nValueTarget);
    ValueWithout(spent, both, DENOMS);
    Complete(held, Without(spent, both, DENOMS), DENOMS);
    ChangeFits(worth - nValueTarget);
    hide Change;
    ValueWithin(both, Change(worth - nValueTarget), DENOMS);
    ValueWithin(both, spent, DENOMS);
  }

  /** It has no more coins than anything else worth as much. */
  lemma AlternativeIsShort(held: Counts, top: MaybeDenom, nValueTarget: int, c: Counts)
    requires Within(c, held, DENOMS) && Value(c, DENOMS) == AltWorth(held, top, nValueTarget)
    ensures Number(Alternative(held, top, nValueTarget), DENOMS) <= Number(c, DENOMS)
  {
    hide Amount, Value, Number, Greedy, AltWorth;
    Complete(held, c, DENOMS);
  }

  /** With the overlap left out, no denomination is both spent and given back. */
  lemma NothingBothWays(held: Counts, top: MaybeDenom, nValueTarget: int, d: Denom)
    ensures var spent, both := Filled(held, top, nValueTarget), Overlap(held, top, nValueTarget);
      && both[d] <= spent[d]
      && (spent[d] == both[d] || Change(AltWorth(held, top, nValueTarget) - nValueTarget)[d] == 0)
  {
    hide Amount, Value, Number, Greedy, Filled, Change;
    var spent, both := Filled(held, top, nValueTarget), Overlap(held, top, nValueTarget);
    var r := Value(spent, DENOMS) - nValueTarget;
    if r >= 0 {
      ChangeOfRest(r, both);
    } else {
      NoChangeBelow(r, both, d);
    }
  }

  /** Below the target nothing comes back, whatever is left out. */
  lemma NoChangeBelow(r: int, both: Counts, d: Denom)
    requires r < 0 && Within(both, Change(r), DENOMS)
    ensures Change(r - Value(both, DENOMS))[d] == 0
  {
    hide Amount, Value, Number, Greedy, Change;
    ValueZeros(both, DENOMS);
    ChangeFits(r - Value(both, DENOMS));
    ValueZeros(Change(r - Value(both, DENOMS)), DENOMS);
  }

  /** First stage: as near below the amount as the higher denominations come. */
  method SelectUnder(top: MaybeDenom, nValueTarget: int, held: Counts)
      returns (used: Counts, nRemainingValue: int, amountUsed: int)
    ensures used == StayUnder(held, top, nValueTarget)
    ensures amountUsed == Value(used, DENOMS) == nValueTarget - nRemainingValue
  {
    hide Selecting, Greedy, Taken, Worth, Value, Amount;
    used, nRemainingValue, amountUsed := Zeros(), nValueTarget, 0;
    ghost var h := UpTo(held, top);
    SelectingStarts(Under, h, nValueTarget);
    for d := DENOMS downto 0
      invariant Selecting(Under, h, nValueTarget, d, used, nRemainingValue)
      invariant amountUsed == nValueTarget - nRemainingValue
    {
      SelectingSteps(Under, h, nValueTarget, d, used, nRemainingValue);
      if d <= top {
        var nUsed, nLeft := TakeCoins(Under, d, held[d], nRemainingValue);
        amountUsed := amountUsed + (nRemainingValue - nLeft);
        used, nRemainingValue := used[d := nUsed], nLeft;
      } else {
        TakenMeans(Under, 0, nRemainingValue, d);
        SelectingMeans(Under, h, nValueTarget, d + 1, used, nRemainingValue);
        assert used[d := 0] == used;
      }
    }
    SelectingEnds(Under, h, nValueTarget, used, nRemainingValue);
    SelectingMeans(Under, h, nValueTarget, 0, used, nRemainingValue);
  }

  /** Second stage: one coin just bigger than what remains. */
  method FillUp(nValueTarget: int, held: Counts, under: Counts, nRemaining: int)
      returns (used: Counts, amountUsed: int)
    requires nRemaining == nValueTarget - Value(under, DENOMS)
    ensures var d := Filler(held, under, nRemaining, 0);
      used == if d == ZQ_ERROR then under else under[d := under[d] + 1]
    ensures amountUsed == Value(used, DENOMS)
  {
    hide Amount, Value;
    used, amountUsed := under, nValueTarget - nRemaining;
    var nRemainingValue := nRemaining;
    for d := 0 to DENOMS
      invariant used == under && amountUsed == Value(used, DENOMS) && nRemainingValue == nRemaining
      invariant Filler(held, under, nRemaining, 0) == Filler(held, under, nRemaining, d)
    {
      if Amount(d) > nRemainingValue && used[d] < held[d] {
        ValueUpdate(used, d, used[d] + 1, DENOMS);
        used := used[d := used[d] + 1];
        nRemainingValue := nRemainingValue - Amount(d);
        amountUsed := amountUsed + Amount(d);
      }
      if nRemainingValue < 0 {
        return;
      }
    }
  }

  /** Third stage: coins that would come back as change are not spent. */
  method RemoveOverlap(spent: Counts, alt: Counts, nSpent: int)
      returns (used: Counts, amountUsed: int)
    requires nSpent == Value(spent, DENOMS)
    ensures used == Without(spent, Common(spent, alt), DENOMS)
    ensures amountUsed == Value(used, DENOMS) == nSpent - Value(Common(spent, alt), DENOMS)
  {
    hide Amount, Value;
    used, amountUsed := spent, nSpent;
    var mapAltChange := alt;
    ghost var both := Common(spent, alt);
    for d := 0 to DENOMS
      invariant amountUsed == Value(used, DENOMS)
      invariant forall e: nat | e < d :: used[e] == spent[e] - both[e]
      invariant forall e: Denom | d <= e :: used[e] == spent[e] && mapAltChange[e] == alt[e]
    {
      while mapAltChange[d] > 0 && used[d] > 0
        invariant amountUsed == Value(used, DENOMS)
        invariant forall e: nat | e < d :: used[e] == spent[e] - both[e]
        invariant forall e: Denom | d < e :: used[e] == spent[e] && mapAltChange[e] == alt[e]
        invariant used[d] <= spent[d] && used[d] + alt[d] == spent[d] + mapAltChange[d]
        decreases used[d]
      {
        ValueUpdate(used, d, used[d] - 1, DENOMS);
        used := used[d := used[d] - 1];
        mapAltChange := mapAltChange[d := mapAltChange[d] - 1];
        amountUsed := amountUsed - Amount(d);
      }
    }
    ValueWithout(spent, both, DENOMS);
    assert used == Without(spent, both, DENOMS);
  }

  /**
   * Looks for a way to spend more coins and get fewer back: taken exactly if it is one and keeps the limit,
   * and otherwise what was saved stays.
   */
  method MinimizeChange(nMaxNumberOfSpends: int, nChangeCount: nat, nextToMaxDenom: MaybeDenom, nValueTarget: int,
                        held: Counts, saved: Counts)
      returns (nCount: nat, used: Counts)
    ensures nCount < nChangeCount <==> Improves(nMaxNumberOfSpends, nChangeCount, held, nextToMaxDenom, nValueTarget)
    ensures nCount < nChangeCount ==>
              && used == Alternative(held, nextToMaxDenom, nValueTarget)
              && nCount == ChangeCount(used, nValueTarget)
    ensures nCount >= nChangeCount ==> nCount == nChangeCount && used == saved
  {
    hide Amount, Value, Greedy, Number, Filler, Common, Without, Change, StayUnder, Stuck;
    var under, nRemainingValue, _ := SelectUnder(nextToMaxDenom, nValueTarget, held);
    var filled, amountUsed := FillUp(nValueTarget, held, under, nRemainingValue);
    var mapAltChange := GetChange(amountUsed - nValueTarget);
    used, amountUsed := RemoveOverlap(filled, mapAltChange, amountUsed);
    assert amountUsed == AltWorth(held, nextToMaxDenom, nValueTarget);
    AlternativeIsPaid(held, nextToMaxDenom, nValueTarget);
    used := GetSpendCoins(amountUsed, held);
    var nCoinCount := GetNumberOfCoinsUsed(used);
    mapAltChange := GetChange(amountUsed - nValueTarget);
    nCount := GetNumberOfCoinsUsed(mapAltChange);
    if nCount < nChangeCount && nCoinCount <= nMaxNumberOfSpends {
      return;
    }
    nCount, used := nChangeCount, saved;
  }

  // Change for a target that was not met exactly

  /** Coins from the highest denomination down until the target is covered. */
  method CoverTarget(nValueTarget: int, held: Counts)
      returns (used: Counts, nCoinCount: nat, amountUsed: int)
    ensures used == Greedy(Until, held, nValueTarget, DENOMS)
    ensures amountUsed == Value(used, DENOMS) && nCoinCount == Number(used, DENOMS)
  {
    hide Selecting, Greedy, Taken, Worth, Value, Amount, Number;
    used, nCoinCount, amountUsed := Zeros(), 0, 0;
    var nRemainingValue := nValueTarget;
    SelectingStarts(Until, held, nValueTarget);
    ValueZeros(Zeros(), DENOMS);
    for d := DENOMS downto 0
      invariant Selecting(Until, held, nValueTarget, d, used, nRemainingValue)
      invariant amountUsed == nValueTarget - nRemainingValue && nCoinCount == Number(used, DENOMS)
      invariant amountUsed == Value(used, DENOMS)
      invariant nRemainingValue < 0 ==> d == DENOMS
    {
      SelectingMeans(Until, held, nValueTarget, d + 1, used, nRemainingValue);
      SelectingSteps(Until, held, nValueTarget, d, used, nRemainingValue);
      var nUsed, nLeft := TakeCoins(Until, d, held[d], nRemainingValue);
      assert used[d] == 0;
      ValueUpdate(used, d, nUsed, DENOMS);
      amountUsed := amountUsed + (nRemainingValue - nLeft);
      used, nRemainingValue, nCoinCount := used[d := nUsed], nLeft, nCoinCount + nUsed;
      SelectingMeans(Until, held, nValueTarget, d, used, nRemainingValue);
      if nRemainingValue < 0 {
        NothingMore(held, nValueTarget, d, used, nRemainingValue);
        break;
      }
    }
    assert used == Greedy(Until, held, nValueTarget, DENOMS) by {
      if nRemainingValue >= 0 {
        SelectingEnds(Until, held, nValueTarget, used, nRemainingValue);
      }
    }
  }

  /** Once the target is covered no more coins are taken. */
  lemma NothingMore(h: Counts, r: int, d: Denom, used: Counts, left: int)
    requires Selecting(Until, h, r, d, used, left) && left <= 0
    ensures used == Greedy(Until, h, r, DENOMS)
  {
    UntilNothing(h, left, d);
    ValueZeros(Greedy(Until, h, left, d), d);
    assert used == used[..d] + used[d..];
  }

  /** The smallest held coin above the target, if there is one. */
  ghost predicate SmallestOver(held: Counts, nValueTarget: int, d: MaybeDenom) {
    if d == ZQ_ERROR then forall e: Denom :: held[e] > 0 ==> Amount(e) <= nValueTarget
    else held[d] > 0 && nValueTarget < Amount(d) &&
         forall e: Denom :: e < d && held[e] > 0 ==> Amount(e) <= nValueTarget
  }

  method MinDenomOver(nValueTarget: int, held: Counts) returns (minDenomOverTarget: MaybeDenom)
    ensures SmallestOver(held, nValueTarget, minDenomOverTarget)
  {
    hide Amount;
    for d := 0 to DENOMS
      invariant forall e: nat | e < d :: held[e] > 0 ==> Amount(e) <= nValueTarget
    {
      if nValueTarget < Amount(d) && held[d] > 0 {
        return d;
      }
    }
    return ZQ_ERROR;
  }

  /** What the result of calculating change must be, whichever way it was found. */
  ghost predicate CoversWithChange(nValueTarget: int, held: Counts, used: Counts, nChange: int) {
    && Within(used, held, DENOMS)
    && (Value(used, DENOMS) >= nValueTarget <==> Value(held, DENOMS) >= nValueTarget)
    && nChange == Number(Change(Value(used, DENOMS) - nValueTarget), DENOMS)
  }

  /** No more than so many of the coins held are worth the target or more. */
  ghost predicate CanCover(held: Counts, nValueTarget: int, nMaxNumberOfSpends: int) {
    exists c: Counts ::
      Within(c, held, DENOMS) && Value(c, DENOMS) >= nValueTarget && Number(c, DENOMS) <= nMaxNumberOfSpends
  }

  /** The first coins that cover a target stay within the limit if any coins that cover it do. */
  lemma FirstCover(held: Counts, nValueTarget: int, nMaxNumberOfSpends: int)
    ensures CanCover(held, nValueTarget, nMaxNumberOfSpends) ==>
              Number(Greedy(Until, held, nValueTarget, DENOMS), DENOMS) <= nMaxNumberOfSpends
  {
    hide Greedy, Value, Number;
    if CanCover(held, nValueTarget, nMaxNumberOfSpends) {
      var c: Counts :| Within(c, held, DENOMS) && Value(c, DENOMS) >= nValueTarget &&
                       Number(c, DENOMS) <= nMaxNumberOfSpends;
      FewestToCover(held, c, nValueTarget, DENOMS);
    }
  }

  /** A positive target takes at least one coin to cover. */
  lemma OneNeeded(held: Counts, nValueTarget: int, nMaxNumberOfSpends: int)
    requires nValueTarget > 0 && CanCover(held, nValueTarget, nMaxNumberOfSpends)
    ensures nMaxNumberOfSpends >= 1
  {
    hide Value, Number;
    var c: Counts :| Within(c, held, DENOMS) && Value(c, DENOMS) >= nValueTarget &&
                     Number(c, DENOMS) <= nMaxNumberOfSpends;
    ValueZeros(c, DENOMS);
  }

  /** The coins used are no more than the limit exactly when some coins held cover the target within it. */
  ghost predicate KeepsLimit(nValueTarget: int, held: Counts, used: Counts, nMaxNumberOfSpends: int) {
    nValueTarget > 0 && Value(held, DENOMS) >= nValueTarget ==>
      (Number(used, DENOMS) <= nMaxNumberOfSpends <==> CanCover(held, nValueTarget, nMaxNumberOfSpends))
  }

  lemma LimitKept(nValueTarget: int, held: Counts, used: Counts, nMaxNumberOfSpends: int)
    requires Within(used, held, DENOMS)
    requires Value(held, DENOMS) >= nValueTarget ==> Value(used, DENOMS) >= nValueTarget
    requires || Number(used, DENOMS) <= nMaxNumberOfSpends || used == Greedy(Until, held, nValueTarget, DENOMS)
             || Number(used, DENOMS) == 1
    ensures KeepsLimit(nValueTarget, held, used, nMaxNumberOfSpends)
  {
    hide Value, Number, Greedy;
    FirstCover(held, nValueTarget, nMaxNumberOfSpends);
    if nValueTarget > 0 && CanCover(held, nValueTarget, nMaxNumberOfSpends) {
      OneNeeded(held, nValueTarget, nMaxNumberOfSpends);
    }
  }

  /** With a coin above the target: that coin, or more coins and less change, if that is wanted
      and there is such a way. */
  method ChangeFromOne(nMaxNumberOfSpends: int, fMinimizeChange: bool, nValueTarget: int, held: Counts, d: Denom)
      returns (nChange: nat, used: Counts)
    requires SmallestOver(held, nValueTarget, d)
    ensures CoversWithChange(nValueTarget, held, used, nChange)
    ensures used == FromOne(nMaxNumberOfSpends, fMinimizeChange, nValueTarget, held, d)
    ensures nChange <= Number(Change(Amount(d) - nValueTarget), DENOMS)
    ensures KeepsLimit(nValueTarget, held, used, nMaxNumberOfSpends)
  {
    hide Amount, Value, Greedy, Number, KeepsLimit, AltWorth, Stuck;
    used := Zeros()[d := 1];
    OneCoin(d);
    ValueWithin(used, held, DENOMS);
    LimitKept(nValueTarget, held, used, nMaxNumberOfSpends);
    var mapChange := GetChange(Amount(d) - nValueTarget);
    var nChangeCount := GetNumberOfCoinsUsed(mapChange);
    if fMinimizeChange {
      var nextToMaxDenom := GetNextLowerDenomHeld(d, held);
      assert UpTo(held, nextToMaxDenom) == UpTo(held, d - 1);
      AlternativeBelow(held, nextToMaxDenom, d - 1, nValueTarget);
      AlternativeIsPaid(held, nextToMaxDenom, nValueTarget);
      var newChangeCount, other :=
        MinimizeChange(nMaxNumberOfSpends, nChangeCount, nextToMaxDenom, nValueTarget, held, used);
      if newChangeCount < nChangeCount {
        NotStuck(held, nextToMaxDenom, nValueTarget, d);
        ValueWithin(other, held, DENOMS);
        LimitKept(nValueTarget, held, other, nMaxNumberOfSpends);
        return newChangeCount, other;
      }
    }
    return nChangeCount, used;
  }

  lemma OneCoin(d: Denom)
    ensures Value(Zeros()[d := 1], DENOMS) == Amount(d) && Number(Zeros()[d := 1], DENOMS) == 1
  {
    hide Amount, Value, Number;
    ValueUpdate(Zeros(), d, 1, DENOMS);
    ValueZeros(Zeros(), DENOMS);
  }

  /** Denominations of which nothing is held do not matter. */
  lemma AlternativeBelow(held: Counts, top: MaybeDenom, top': MaybeDenom, nValueTarget: int)
    requires UpTo(held, top) == UpTo(held, top')
    ensures Alternative(held, top, nValueTarget) == Alternative(held, top', nValueTarget)
  {
    hide Greedy, Value, Amount, Filler, Common, Change;
  }

  /** What is used when some coin is worth more than the target: that one, or the alternative below it. */
  function FromOne(nMax: int, fMinimizeChange: bool, nValueTarget: int, held: Counts, d: Denom): Counts {
    var one: Counts := Zeros()[d := 1];
    if fMinimizeChange && Improves(nMax, ChangeCount(one, nValueTarget), held, d - 1, nValueTarget)
    then Alternative(held, d - 1, nValueTarget)
    else one
  }

  /** What is used otherwise: as few coins as cover the target, or the alternative, which must be preferred
      or be no more coins. */
  function FromMany(nMax: int, fMinimizeChange: bool, nValueTarget: int, held: Counts): Counts {
    var few: Counts := Greedy(Until, held, nValueTarget, DENOMS);
    var alt := Alternative(held, DENOMS - 1, nValueTarget);
    if Improves(nMax, ChangeCount(few, nValueTarget), held, DENOMS - 1, nValueTarget) &&
       (fMinimizeChange || Number(alt, DENOMS) <= Number(few, DENOMS))
    then alt
    else few
  }

  lemma NotStuck(held: Counts, top: MaybeDenom, nValueTarget: int, d: Denom)
    requires top < d && held[d] > 0 && nValueTarget < Amount(d)
    ensures !Stuck(held, top, nValueTarget)
  {
    hide Greedy, Value, Amount;
    assert StayUnder(held, top, nValueTarget)[d] <= UpTo(held, top)[d] == 0;
  }

  /** The coins used, by whether some coin held is worth more than the target. */
  ghost predicate Chooses(nMax: int, fMinimizeChange: bool, nValueTarget: int, held: Counts, used: Counts) {
    && (forall d: Denom | SmallestOver(held, nValueTarget, d) ::
          used == FromOne(nMax, fMinimizeChange, nValueTarget, held, d))
    && (SmallestOver(held, nValueTarget, ZQ_ERROR) ==> used == FromMany(nMax, fMinimizeChange, nValueTarget, held))
  }

  lemma SomeSmallest(held: Counts, nValueTarget: int, from: nat) returns (d: MaybeDenom)
    requires from <= DENOMS && forall e: Denom | e < from :: held[e] > 0 ==> Amount(e) <= nValueTarget
    ensures SmallestOver(held, nValueTarget, d)
    decreases DENOMS - from
  {
    if from == DENOMS {
      d := ZQ_ERROR;
    } else if held[from] > 0 && nValueTarget < Amount(from) {
      d := from;
    } else {
      d := SomeSmallest(held, nValueTarget, from + 1);
    }
  }

  /** There is only one choice. */
  lemma OneChoice(nMax: int, fMinimizeChange: bool, nValueTarget: int, held: Counts, used: Counts, other: Counts)
    requires Chooses(nMax, fMinimizeChange, nValueTarget, held, used)
    requires Chooses(nMax, fMinimizeChange, nValueTarget, held, other)
    ensures used == other
  {
    hide FromOne, FromMany, Amount;
    var d := SomeSmallest(held, nValueTarget, 0);
  }

  /** Without such a coin: several coins, either as few as cover the target or with less change. */
  method ChangeFromMany(nMaxNumberOfSpends: int, fMinimizeChange: bool, nValueTarget: int, held: Counts)
      returns (nChange: nat, used: Counts)
    ensures CoversWithChange(nValueTarget, held, used, nChange)
    ensures used == FromMany(nMaxNumberOfSpends, fMinimizeChange, nValueTarget, held)
    ensures Number(used, DENOMS) <= nMaxNumberOfSpends || used == Greedy(Until, held, nValueTarget, DENOMS)
    ensures KeepsLimit(nValueTarget, held, used, nMaxNumberOfSpends)
  {
    hide Amount, Value, Greedy, Number, KeepsLimit, AltWorth, Stuck;
    var nCoinCount, amountUsed;
    used, nCoinCount, amountUsed := CoverTarget(nValueTarget, held);
    UntilMeans(held, nValueTarget, DENOMS);
    ValueWithin(used, held, DENOMS);
    LimitKept(nValueTarget, held, used, nMaxNumberOfSpends);
    var mapChange := GetChange(amountUsed - nValueTarget);
    var nMaxChangeCount := GetNumberOfCoinsUsed(mapChange);
    var maxDenomHeld := GetMaxDenomHeld(held);
    assert UpTo(held, maxDenomHeld) == UpTo(held, DENOMS - 1);
    AlternativeBelow(held, maxDenomHeld, DENOMS - 1, nValueTarget);
    AlternativeIsPaid(held, maxDenomHeld, nValueTarget);
    var nChangeCount, mapOfMinDenomsUsed :=
      MinimizeChange(nMaxNumberOfSpends, nMaxChangeCount, maxDenomHeld, nValueTarget, held, used);
    if Stuck(held, maxDenomHeld, nValueTarget) {
      StuckNeedsNoChange(held, maxDenomHeld, nValueTarget);
    }
    var nNumSpends := GetNumberOfCoinsUsed(mapOfMinDenomsUsed);
    if !fMinimizeChange && nCoinCount < nNumSpends {
      return nMaxChangeCount, used;
    }
    ValueWithin(mapOfMinDenomsUsed, held, DENOMS);
    LimitKept(nValueTarget, held, mapOfMinDenomsUsed, nMaxNumberOfSpends);
    return nChangeCount, mapOfMinDenomsUsed;
  }

  /** When nothing larger was left to fill up with, covering the target needed no change at all. */
  lemma StuckNeedsNoChange(held: Counts, top: MaybeDenom, nValueTarget: int)
    requires forall d | top < d < DENOMS :: held[d] == 0
    requires Stuck(held, top, nValueTarget)
    ensures Number(Change(Value(Greedy(Until, held, nValueTarget, DENOMS), DENOMS) - nValueTarget), DENOMS) == 0
  {
    hide Amount, Value, Greedy, Number;
    assert UpTo(held, top) == held;
    var c := StayUnder(held, top, nValueTarget);
    StuckIsExact(held, nValueTarget, DENOMS, nValueTarget - Value(c, DENOMS));
    ChangeFits(Value(Greedy(Until, held, nValueTarget, DENOMS), DENOMS) - nValueTarget);
  }

  /**
   * Change for a target, through all its branches: nothing is used that is not held, the target is
   * covered exactly when what is held covers it, and the answer is the number of coins in the change.
   * No more coins are used than allowed exactly if the coins held can do it with no more, and the
   * answer says nothing about that: for a whole target it is zero exactly if there is no change.
   * With fMinimizeChange a selection that gives back fewer coins within the limit is taken.
   */
  method CalculateChange(nMaxNumberOfSpends: int, fMinimizeChange: bool, nValueTarget: int, held: Counts)
      returns (nChange: nat, used: Counts)
    ensures CoversWithChange(nValueTarget, held, used, nChange)
    ensures KeepsLimit(nValueTarget, held, used, nMaxNumberOfSpends)
    ensures IsWhole(nValueTarget) ==> (nChange == 0 <==> Value(used, DENOMS) <= nValueTarget)
    ensures Chooses(nMaxNumberOfSpends, fMinimizeChange, nValueTarget, held, used)
    ensures forall d: Denom :: SmallestOver(held, nValueTarget, d) ==>
              nChange <= Number(Change(Amount(d) - nValueTarget), DENOMS)
  {
    hide Amount, Value, Number, Greedy, FromOne, FromMany, KeepsLimit;
    var minDenomOverTarget := MinDenomOver(nValueTarget, held);
    if minDenomOverTarget != ZQ_ERROR {
      nChange, used := ChangeFromOne(nMaxNumberOfSpends, fMinimizeChange, nValueTarget, held, minDenomOverTarget);
    } else {
      nChange, used := ChangeFromMany(nMaxNumberOfSpends, fMinimizeChange, nValueTarget, held);
    }
    NoChange(used, nValueTarget);
  }

  /** For a whole target there is no change exactly if no more is used. */
  lemma NoChange(used: Counts, nValueTarget: int)
    ensures IsWhole(nValueTarget) ==>
              (Number(Change(Value(used, DENOMS) - nValueTarget), DENOMS) == 0 <==> Value(used, DENOMS) <= nValueTarget)
  {
    hide Value, Number, Greedy;
    ChangeFits(Value(used, DENOMS) - nValueTarget);
    if IsWhole(nValueTarget) && Value(used, DENOMS) > nValueTarget {
      SomethingBack(used, nValueTarget / COIN);
    }
  }

  /** Two fives for a target of seven, one coin allowed: both are used, and the answer is not zero. */
  method ExceedsLimit() returns (nChange: nat, used: Counts)
    ensures Number(used, DENOMS) == 2 && nChange > 0
  {
    hide Value, Number, Greedy, CanCover, SmallestOver;
    var held: Counts := TWO_FIVES;
    TwoFives();
    nChange, used := CalculateChange(1, true, 7 * COIN, held);
    if used[1] < 2 {
      OneFive(used);
    }
    assert used == held;
  }

  const TWO_FIVES: Counts := [0, 2, 0, 0, 0, 0, 0, 0]

  lemma TwoFives()
    ensures Value(TWO_FIVES, DENOMS) == 10 * COIN && Number(TWO_FIVES, DENOMS) == 2
  {
  }

  lemma OneFive(c: Counts)
    requires Within(c, [0, 1, 0, 0, 0, 0, 0, 0], DENOMS)
    ensures Value(c, DENOMS) <= 5 * COIN
  {
    var five := [0, 1, 0, 0, 0, 0, 0, 0];
    ValueWithin(c, five, DENOMS);
    assert Value(five, DENOMS) == 5 * COIN;
  }

  const TENS_AND_FIFTY: Counts := [0, 0, 3, 1, 0, 0, 0, 0]
  const TWO_TENS: Counts := [0, 0, 2, 0, 0, 0, 0, 0]
  const THREE_TENS: Counts := [0, 0, 3, 0, 0, 0, 0, 0]
  const FOUR_ONES: Counts := [4, 0, 0, 0, 0, 0, 0, 0]
  const TWENTY_FOUR: Counts := [4, 0, 2, 0, 0, 0, 0, 0]

  lemma {:induction false} NoneOf(rule: Rule, h: seq<nat>, r: int, m: nat, n: nat)
    requires m <= n <= |h| && n <= DENOMS && forall i | m <= i < n :: h[i] == 0
    ensures Greedy(rule, h, r, n)[..m] == Greedy(rule, h, r, m)
    ensures forall i | m <= i < n :: Greedy(rule, h, r, n)[i] == 0
  {
    hide Amount, Taken, Worth;
    if m < n {
      NoneTaken(rule, r, n - 1);
      NoneOf(rule, h, r, m, n - 1);
      assert Greedy(rule, h, r, n) == Greedy(rule, h, r, n - 1) + [0];
      assert Greedy(rule, h, r, n)[..m] == Greedy(rule, h, r, n - 1)[..m];
    }
  }

  lemma NoneTaken(rule: Rule, r: int, d: Denom)
    ensures Taken(rule, 0, r, d) == 0 && Worth(rule, 0, r, d) == 0
  {
  }

  lemma TwoOf(r: int)
    requires r == 26 * COIN
    ensures Greedy(Under, THREE_TENS, r, 3) == Greedy(Under, THREE_TENS, 6 * COIN, 2) + [2]
  {
    TakeIs(3, r, 10 * COIN, 10 * COIN + 1, 2);
    hide Take;
  }

  lemma TwoTensBelow()
    ensures StayUnder(TENS_AND_FIFTY, 2, 26 * COIN) == TWO_TENS
  {
    var r := 26 * COIN;
    assert UpTo(TENS_AND_FIFTY, 2) == THREE_TENS;
    hide Greedy;
    NoneOf(Under, THREE_TENS, r, 3, DENOMS);
    NoneOf(Under, THREE_TENS, 6 * COIN, 0, 2);
    TwoOf(r);
    var c := Greedy(Under, THREE_TENS, r, DENOMS);
    assert c[..3] == Greedy(Under, THREE_TENS, 6 * COIN, 2) + [2];
    forall i: Denom ensures c[i] == TWO_TENS[i] {
      if i < 3 {
        assert c[i] == c[..3][i];
      }
    }
  }

  lemma ChangeOfFifty()
    ensures Change(24 * COIN) == TWENTY_FOUR && Number(TWENTY_FOUR, DENOMS) == 6
    ensures Change(4 * COIN) == FOUR_ONES && Number(FOUR_ONES, DENOMS) == 4
  {
    hide Change, Canonical, Value, Number;
    FewOfEach(FOUR_ONES, DENOMS);
    FewOfEach(TWENTY_FOUR, DENOMS);
    assert FOUR_ONES == Zeros()[2 := 0][0 := 4] && TWENTY_FOUR == Zeros()[2 := 2][0 := 4];
    OnesAndTens(4, 0);
    OnesAndTens(4, 2);
    ChangeIs(FOUR_ONES, 4 * COIN);
    ChangeIs(TWENTY_FOUR, 24 * COIN);
  }

  lemma OnesAndTens(p: nat, q: nat)
    ensures Value(Zeros()[2 := q][0 := p], DENOMS) == p * COIN + q * (10 * COIN)
    ensures Number(Zeros()[2 := q][0 := p], DENOMS) == p + q
  {
    hide Value, Number;
    Tens(Zeros()[2 := q], q);
    ValueUpdate(Zeros()[2 := q], 0, p, DENOMS);
  }

  lemma Tens(c: Counts, q: nat)
    requires c == Zeros()[2 := q]
    ensures Value(c, DENOMS) == q * (10 * COIN) && Number(c, DENOMS) == q
  {
    hide Value, Number;
    ValueUpdate(Zeros(), 2, q, DENOMS);
    ValueZeros(Zeros(), DENOMS);
  }

  lemma ThirdTenFills()
    ensures Filled(TENS_AND_FIFTY, 2, 26 * COIN) == THREE_TENS
  {
    TwoTensBelow();
    Tens(TWO_TENS, 2);
    hide StayUnder, Value;
    assert Filler(TENS_AND_FIFTY, TWO_TENS, 6 * COIN, 2) == 2;
    assert Filler(TENS_AND_FIFTY, TWO_TENS, 6 * COIN, 0) == 2;
  }

  lemma ThreeTensPay()
    ensures Alternative(TENS_AND_FIFTY, 2, 26 * COIN) == THREE_TENS
    ensures Value(THREE_TENS, DENOMS) == 30 * COIN && Number(THREE_TENS, DENOMS) == 3
  {
    hide Filled, Change, Greedy, Value, Number, Canonical, Amount;
    ThirdTenFills();
    Tens(THREE_TENS, 3);
    ChangeOfFifty();
    assert Overlap(TENS_AND_FIFTY, 2, 26 * COIN) == Zeros();
    ValueZeros(Zeros(), DENOMS);
    FewOfEach(THREE_TENS, DENOMS);
    OnlyCanonical(TENS_AND_FIFTY, THREE_TENS, 30 * COIN, DENOMS);
  }

  /** Twenty-six out of three tens and a fifty: the tens give back four coins where the fifty gives back six. */
  method TakesThreeTens(nMaxNumberOfSpends: int, fMinimizeChange: bool) returns (nChange: nat, used: Counts)
    ensures if fMinimizeChange && nMaxNumberOfSpends >= 3 then nChange == 4 && used == THREE_TENS
            else nChange == 6 && used == Zeros()[3 := 1]
  {
    ThreeTensPay();
    ChangeOfFifty();
    hide Value, Number, Greedy, CanCover, Alternative, Change, KeepsLimit;
    var held: Counts := TENS_AND_FIFTY;
    assert SmallestOver(held, 26 * COIN, 3);
    OneCoin(3);
    nChange, used := CalculateChange(nMaxNumberOfSpends, fMinimizeChange, 26 * COIN, held);
  }

  // Choosing from a list of mints

  datatype Mint = Mint(hashSerial: nat, denom: MaybeDenom, isUsed: bool)

  /** How many mints of a denomination can still be spent. */
  function Unspent(mints: seq<Mint>, d: Denom): nat {
    if mints == [] then 0
    else (if !mints[0].isUsed && mints[0].denom == d then 1 else 0) + Unspent(mints[1..], d)
  }

  function Supply(mints: seq<Mint>): Counts {
    seq(DENOMS, d requires 0 <= d < DENOMS => Unspent(mints, d))
  }

  function Sum(c: Counts, e: Counts): Counts {
    seq(DENOMS, d requires 0 <= d < DENOMS => c[d] + e[d])
  }

  /** One pass over the list for one denomination. */
  method TakeMints(listMints: seq<Mint>, d: Denom, nRemaining: int) returns (nUsed: nat, nLeft: int)
    ensures nUsed == Taken(AtMost, Unspent(listMints, d), nRemaining, d)
    ensures nLeft == nRemaining - Worth(AtMost, Unspent(listMints, d), nRemaining, d)
  {
    hide Amount;
    nUsed, nLeft := 0, nRemaining;
    var nValue := Amount(d);
    ghost var all := Unspent(listMints, d);
    assert listMints[0..] == listMints;
    for i := 0 to |listMints|
      invariant Take(all, nRemaining, nValue, nValue) == nUsed + Take(Unspent(listMints[i..], d), nLeft, nValue, nValue)
      invariant nLeft == nRemaining - nUsed * nValue
    {
      assert listMints[i..][1..] == listMints[i + 1..];
      if listMints[i].isUsed {
        continue;
      }
      if nLeft >= nValue && listMints[i].denom == d {
        OneMore(nUsed, nValue);
        nUsed := nUsed + 1;
        nLeft := nLeft - nValue;
      }
      if nLeft < nValue {
        break;
      }
    }
  }

  /** Some of the unspent mints are worth exactly this much. */
  ghost predicate CanMeetExactly(listMints: seq<Mint>, nValueTarget: int) {
    exists c: Counts :: Within(c, Supply(listMints), DENOMS) && Value(c, DENOMS) == nValueTarget
  }

  /** Tries to meet the target exactly; succeeds exactly when some of the unspent mints make it up. */
  method GetIdealSpends(nValueTarget: int, listMints: seq<Mint>, mapOfDenomsUsed: Counts)
      returns (fExact: bool, used: Counts)
    ensures used == Sum(mapOfDenomsUsed, Greedy(AtMost, Supply(listMints), nValueTarget, DENOMS))
    ensures fExact <==> CanMeetExactly(listMints, nValueTarget)
    ensures fExact ==> Value(Greedy(AtMost, Supply(listMints), nValueTarget, DENOMS), DENOMS) == nValueTarget
  {
    hide Selecting, Greedy, Taken, Worth, Value, Amount;
    used := mapOfDenomsUsed;
    ghost var picked := Zeros();
    var nRemainingValue := nValueTarget;
    ghost var supply := Supply(listMints);
    SelectingStarts(AtMost, supply, nValueTarget);
    for d := DENOMS downto 0
      invariant Selecting(AtMost, supply, nValueTarget, d, picked, nRemainingValue)
      invariant used == Sum(mapOfDenomsUsed, picked)
    {
      SelectingMeans(AtMost, supply, nValueTarget, d + 1, picked, nRemainingValue);
      SelectingSteps(AtMost, supply, nValueTarget, d, picked, nRemainingValue);
      var nUsed, nLeft := TakeMints(listMints, d, nRemainingValue);
      picked := picked[d := nUsed];
      used, nRemainingValue := used[d := used[d] + nUsed], nLeft;
    }
    SelectingEnds(AtMost, supply, nValueTarget, picked, nRemainingValue);
    SelectingMeans(AtMost, supply, nValueTarget, 0, picked, nRemainingValue);
    if nValueTarget >= 0 {
      GreedyDecides(supply, nValueTarget);
    }
    return nRemainingValue == 0, used;
  }

  /** The mints a pass picks: the first k unspent ones of the denomination. */
  function FirstMints(mints: seq<Mint>, d: Denom, k: nat): (r: seq<Mint>)
  {
    if mints == [] || k == 0 then []
    else if !mints[0].isUsed && mints[0].denom == d then [mints[0]] + FirstMints(mints[1..], d, k - 1)
    else FirstMints(mints[1..], d, k)
  }

  lemma {:induction false} FirstMintsAre(mints: seq<Mint>, d: Denom, k: nat)
    ensures |FirstMints(mints, d, k)| == Min(k, Unspent(mints, d))
    ensures multiset(FirstMints(mints, d, k)) <= multiset(mints)
    ensures forall m <- FirstMints(mints, d, k) :: m.denom == d && !m.isUsed
  {
    if mints != [] && k > 0 {
      assert mints == [mints[0]] + mints[1..];
      if !mints[0].isUsed && mints[0].denom == d {
        FirstMintsAre(mints[1..], d, k - 1);
      } else {
        FirstMintsAre(mints[1..], d, k);
      }
    } else if mints != [] {
      assert FirstMints(mints, d, 0) == [];
    }
  }

  method PassOver(listMints: seq<Mint>, d: Denom, nWanted: nat)
      returns (vSelected: seq<Mint>, nSpent: nat, nStill: nat)
    ensures vSelected == FirstMints(listMints, d, nWanted)
    ensures nStill == nWanted - Min(nWanted, Unspent(listMints, d))
    ensures nSpent == |vSelected| * Amount(d)
  {
    hide Amount, FirstMints, Unspent;
    vSelected, nSpent, nStill := [], 0, nWanted;
    assert listMints[0..] == listMints;
    for i := 0 to |listMints|
      invariant FirstMints(listMints, d, nWanted) == vSelected + FirstMints(listMints[i..], d, nStill)
      invariant nStill <= nWanted
      invariant nStill - Min(nStill, Unspent(listMints[i..], d)) == nWanted - Min(nWanted, Unspent(listMints, d))
      invariant nSpent == |vSelected| * Amount(d)
    {
      NextMint(listMints, i, d, nStill);
      if listMints[i].isUsed {
        continue;
      }
      if d == listMints[i].denom && nStill > 0 {
        OneMore(|vSelected|, Amount(d));
        vSelected := vSelected + [listMints[i]];
        nSpent := nSpent + Amount(d);
        nStill := nStill - 1;
      }
    }
    NoMints(listMints[|listMints|..], d, nStill);
  }

  lemma NextMint(mints: seq<Mint>, i: nat, d: Denom, k: nat)
    requires i < |mints|
    ensures var fits := !mints[i].isUsed && mints[i].denom == d;
            && FirstMints(mints[i..], d, k) ==
                 (if fits && k > 0 then [mints[i]] + FirstMints(mints[i + 1..], d, k - 1)
                  else FirstMints(mints[i + 1..], d, k))
            && Unspent(mints[i..], d) == (if fits then 1 else 0) + Unspent(mints[i + 1..], d)
  {
    assert mints[i..][1..] == mints[i + 1..];
  }

  lemma NoMints(mints: seq<Mint>, d: Denom, k: nat)
    requires mints == []
    ensures FirstMints(mints, d, k) == [] && Unspent(mints, d) == 0
  {
  }

  /** What a list of mints is worth. */
  function TotalWorth(mints: seq<Mint>): nat {
    if mints == [] then 0
    else
      var d := mints[|mints| - 1].denom;
      TotalWorth(mints[..|mints| - 1]) + (if d == ZQ_ERROR then 0 else Amount(d))
  }

  lemma {:induction false} WorthOfDenom(mints: seq<Mint>, more: seq<Mint>, d: Denom)
    requires forall m <- more :: m.denom == d
    ensures TotalWorth(mints + more) == TotalWorth(mints) + |more| * Amount(d)
  {
    hide Amount;
    if more == [] {
      assert mints + more == mints;
    } else {
      var rest := more[..|more| - 1];
      assert (mints + more)[..|mints + more| - 1] == mints + rest;
      assert (mints + more)[|mints + more| - 1] == more[|more| - 1];
      OneMore(|rest|, Amount(d));
      WorthOfDenom(mints, rest, d);
    }
  }

  /** How many coins are still wanted after so many passes over the list. */
  function StillWanted(nWanted: nat, nUnspent: nat, passes: nat): nat {
    if passes == 0 then nWanted else StillWanted(nWanted - Min(nWanted, nUnspent), nUnspent, passes - 1)
  }

  /** The passes come to an end exactly when nothing is wanted or something can be spent. */
  lemma PassesEnd(nWanted: nat, nUnspent: nat)
    ensures (exists passes: nat :: StillWanted(nWanted, nUnspent, passes) == 0) <==> nWanted == 0 || nUnspent > 0
  {
    if nUnspent > 0 || nWanted == 0 {
      EnoughPasses(nWanted, nUnspent, nWanted);
    } else if exists passes: nat :: StillWanted(nWanted, nUnspent, passes) == 0 {
      var passes: nat :| StillWanted(nWanted, nUnspent, passes) == 0;
      NoPassHelps(nWanted, passes);
    }
  }

  lemma {:induction false} EnoughPasses(nWanted: nat, nUnspent: nat, passes: nat)
    requires nWanted == 0 || nUnspent > 0
    requires nWanted <= passes
    ensures StillWanted(nWanted, nUnspent, passes) == 0
  {
    if passes > 0 {
      EnoughPasses(nWanted - Min(nWanted, nUnspent), nUnspent, passes - 1);
    }
  }

  lemma {:induction false} NoPassHelps(nWanted: nat, passes: nat)
    ensures StillWanted(nWanted, 0, passes) == nWanted
  {
    if passes > 0 {
      NoPassHelps(nWanted, passes - 1);
    }
  }

  /** Mints of one denomination, passing over the list until there are enough. */
  method SpendDenom(listMints: seq<Mint>, d: Denom, nWanted: nat) returns (vSelected: seq<Mint>, nSpent: nat)
    requires nWanted == 0 || Unspent(listMints, d) > 0
    ensures |vSelected| == nWanted && nSpent == nWanted * Amount(d)
    ensures forall m <- vSelected :: m in listMints && m.denom == d && !m.isUsed
    ensures nWanted <= Unspent(listMints, d) ==> vSelected == FirstMints(listMints, d, nWanted)
  {
    hide Amount, Unspent, FirstMints;
    FirstMintsAre(listMints, d, nWanted);
    InList(FirstMints(listMints, d, nWanted), listMints);
    var nStill;
    vSelected, nSpent, nStill := PassOver(listMints, d, nWanted);
    while nStill > 0
      invariant |vSelected| == nWanted - nStill && nSpent == |vSelected| * Amount(d)
      invariant nStill > 0 ==> Unspent(listMints, d) > 0
      invariant forall m <- vSelected :: m in listMints && m.denom == d && !m.isUsed
      invariant nWanted <= Unspent(listMints, d) ==> nStill == 0 && vSelected == FirstMints(listMints, d, nWanted)
    {
      FirstMintsAre(listMints, d, nStill);
      InList(FirstMints(listMints, d, nStill), listMints);
      var again, nMore;
      again, nMore, nStill := PassOver(listMints, d, nStill);
      SumTimes(|vSelected|, |again|, Amount(d));
      vSelected, nSpent := vSelected + again, nSpent + nMore;
    }
  }

  lemma SumTimes(a: nat, b: nat, v: int)
    ensures (a + b) * v == a * v + b * v
  {
  }

  lemma InList(part: seq<Mint>, all: seq<Mint>)
    requires multiset(part) <= multiset(all)
    ensures forall m <- part :: m in all
  {
    forall m | m in part ensures m in all {
      assert m in multiset(part);
    }
  }

  /** What is selected for the denominations from n up is no more than the list has. */
  ghost predicate NoneTwice(selected: seq<Mint>, listMints: seq<Mint>, n: nat) {
    forall m :: multiset(selected)[m] <= if m.denom >= n then multiset(listMints)[m] else 0
  }

  lemma {:induction false} UnspentOf(mints: seq<Mint>, d: Denom, e: Denom)
    requires forall m <- mints :: m.denom == d && !m.isUsed
    ensures Unspent(mints, e) == if e == d then |mints| else 0
  {
    if mints != [] {
      UnspentOf(mints[1..], d, e);
    }
  }

  lemma {:induction false} UnspentAppend(mints: seq<Mint>, more: seq<Mint>, d: Denom)
    ensures Unspent(mints + more, d) == Unspent(mints, d) + Unspent(more, d)
  {
    if mints == [] {
      assert mints + more == more;
    } else {
      assert (mints + more)[1..] == mints[1..] + more;
      UnspentAppend(mints[1..], more, d);
    }
  }

  /** A mint of a list, and the list without it. */
  lemma TakeOut(m: Mint, all: seq<Mint>, d: Denom) returns (rest: seq<Mint>)
    requires m in all
    ensures multiset(all) == multiset(rest) + multiset{m}
    ensures Unspent(all, d) == Unspent(rest, d) + Unspent([m], d)
  {
    hide Unspent;
    var i :| 0 <= i < |all| && all[i] == m;
    var before, after := all[..i], all[i + 1..];
    assert all == before + ([m] + after);
    rest := before + after;
    UnspentAppend(before, after, d);
    UnspentAppend(before, [m] + after, d);
    UnspentAppend([m], after, d);
  }

  /** A part of a list has no more to spend than the list. */
  lemma {:induction false} UnspentOfPart(part: seq<Mint>, all: seq<Mint>, d: Denom)
    requires multiset(part) <= multiset(all)
    ensures Unspent(part, d) <= Unspent(all, d)
    decreases |part|
  {
    if part == [] {
      NothingSelected();
    } else {
      hide Unspent;
      var m := part[0];
      assert m in multiset(all);
      var rest := TakeOut(m, all, d);
      assert part == [m] + part[1..];
      assert multiset(part) == multiset(part[1..]) + multiset{m};
      UnspentAppend([m], part[1..], d);
      forall x ensures multiset(part[1..])[x] <= multiset(rest)[x] {
        assert multiset(part)[x] <= multiset(all)[x];
      }
      UnspentOfPart(part[1..], rest, d);
    }
  }

  /** Whether the passes for every denomination come to an end. */
  predicate PassesEndFor(listMints: seq<Mint>, wanted: Counts) {
    forall d: Denom :: wanted[d] == 0 || Unspent(listMints, d) > 0
  }

  /**
   * The mints to spend for the coins to use: of each denomination exactly as many, worth as much, and
   * none of them used before. No mint is taken twice exactly if no more are wanted than there are. The
   * call does not come back exactly if some are wanted of a denomination that has none, which the
   * answer false stands for.
   */
  method GetSpends(listMints: seq<Mint>, mapOfDenomsUsed: Counts)
      returns (fReturns: bool, vSelected: seq<Mint>, used: Counts, nCoinsSpentValue: nat)
    ensures fReturns <==> PassesEndFor(listMints, mapOfDenomsUsed)
    ensures fReturns ==>
              && used == Zeros()
              && Supply(vSelected) == mapOfDenomsUsed
              && |vSelected| == Number(mapOfDenomsUsed, DENOMS)
              && nCoinsSpentValue == Value(mapOfDenomsUsed, DENOMS) == TotalWorth(vSelected)
              && (forall m <- vSelected :: m in listMints && !m.isUsed)
              && (multiset(vSelected) <= multiset(listMints) <==> Within(mapOfDenomsUsed, Supply(listMints), DENOMS))
  {
    hide Amount, Unspent, FirstMints, Value, Number, TotalWorth;
    vSelected, used, nCoinsSpentValue := [], mapOfDenomsUsed, 0;
    ghost var fits := Within(mapOfDenomsUsed, Supply(listMints), DENOMS);
    NothingSelected();
    for d := DENOMS downto 0
      invariant forall e: nat | e < DENOMS :: used[e] == if e < d then mapOfDenomsUsed[e] else 0
      invariant forall e: nat | d <= e < DENOMS :: mapOfDenomsUsed[e] == 0 || Unspent(listMints, e) > 0
      invariant forall e: nat | e < DENOMS :: Unspent(vSelected, e) == if e < d then 0 else mapOfDenomsUsed[e]
      invariant |vSelected| == Number(mapOfDenomsUsed, DENOMS) - Number(mapOfDenomsUsed, d)
      invariant nCoinsSpentValue == Value(mapOfDenomsUsed, DENOMS) - Value(mapOfDenomsUsed, d)
      invariant nCoinsSpentValue == TotalWorth(vSelected)
      invariant forall m <- vSelected :: m in listMints && !m.isUsed
      invariant fits ==> NoneTwice(vSelected, listMints, d)
    {
      if used[d] > 0 && Unspent(listMints, d) == 0 {
        return false, [], used, 0;
      }
      var more, nMore := SpendDenom(listMints, d, used[d]);
      if fits {
        FirstMintsAre(listMints, d, used[d]);
        StillNoneTwice(vSelected, more, listMints, d);
      }
      MoreSelected(vSelected, more, d);
      ValueTop(mapOfDenomsUsed, d + 1);
      NumberTop(mapOfDenomsUsed, d + 1);
      vSelected, nCoinsSpentValue := vSelected + more, nCoinsSpentValue + nMore;
      used := used[d := 0];
    }
    assert used == Zeros() && Supply(vSelected) == mapOfDenomsUsed;
    NothingBelow(mapOfDenomsUsed);
    if multiset(vSelected) <= multiset(listMints) {
      forall d: nat | d < DENOMS ensures mapOfDenomsUsed[d] <= Supply(listMints)[d] {
        UnspentOfPart(vSelected, listMints, d);
      }
    }
    fReturns := true;
  }

  lemma NothingSelected()
    ensures TotalWorth([]) == 0 && forall d: Denom :: Unspent([], d) == 0
  {
  }

  lemma NothingBelow(c: Counts)
    ensures Value(c, 0) == 0 && Number(c, 0) == 0
  {
  }

  lemma NumberTop(c: Counts, n: nat)
    requires 0 < n <= DENOMS
    ensures Number(c, n) == Number(c, n - 1) + c[n - 1]
  {
  }

  /** Mints of one denomination added to those selected. */
  lemma MoreSelected(selected: seq<Mint>, more: seq<Mint>, d: Denom)
    requires forall m <- more :: m.denom == d && !m.isUsed
    ensures TotalWorth(selected + more) == TotalWorth(selected) + |more| * Amount(d)
    ensures forall e: Denom :: Unspent(selected + more, e) == Unspent(selected, e) + (if e == d then |more| else 0)
  {
    hide Amount, Unspent;
    WorthOfDenom(selected, more, d);
    forall e: Denom
      ensures Unspent(selected + more, e) == Unspent(selected, e) + (if e == d then |more| else 0)
    {
      UnspentOf(more, d, e);
      UnspentAppend(selected, more, e);
    }
  }

  lemma StillNoneTwice(selected: seq<Mint>, more: seq<Mint>, listMints: seq<Mint>, d: Denom)
    requires NoneTwice(selected, listMints, d + 1)
    requires multiset(more) <= multiset(listMints) && forall m <- more :: m.denom == d
    ensures NoneTwice(selected + more, listMints, d)
  {
    forall m
      ensures multiset(selected + more)[m] <= if m.denom >= d then multiset(listMints)[m] else 0
    {
      assert multiset(selected + more) == multiset(selected) + multiset(more);
      assert m !in more ==> multiset(more)[m] == 0;
    }
  }

  // The whole selection

  lemma {:induction false} WholeValue(c: seq<nat>, n: nat) returns (q: nat)
    requires n <= |c| && n <= DENOMS
    ensures Value(c, n) == q * COIN
  {
    if n == 0 {
      q := 0;
    } else {
      var p := WholeValue(c, n - 1);
      q := p + c[n - 1] * DenomInt(n - 1);
      assert c[n - 1] * Amount(n - 1) == c[n - 1] * DenomInt(n - 1) * COIN;
    }
  }

  /** A whole amount left over means coins to give back. */
  lemma SomethingBack(used: Counts, nCoins: nat)
    requires Value(used, DENOMS) > nCoins * COIN
    ensures Number(Change(Value(used, DENOMS) - nCoins * COIN), DENOMS) > 0
  {
    hide Value, Number, Greedy;
    var q := WholeValue(used, DENOMS);
    assert q > nCoins;
    WholeCoins(q - nCoins);
    ValueZeros(Change((q - nCoins) * COIN), DENOMS);
  }

  /** A whole number of coins, which is all the wallet asks for. */
  predicate IsWhole(nValueTarget: int) {
    nValueTarget >= 0 && nValueTarget % COIN == 0
  }

  /** Some coins within the limit, of those listed for the exact target or of those held, will do. */
  ghost predicate CanSelect(listMints: seq<Mint>, held: Counts, nValueTarget: int, nMaxNumberOfSpends: int) {
    || CanCover(held, nValueTarget, nMaxNumberOfSpends)
    || exists c: Counts :: Within(c, Supply(listMints), DENOMS) && Value(c, DENOMS) == nValueTarget &&
                           Number(c, DENOMS) <= nMaxNumberOfSpends
  }

  /** The mints selected are those of the coins chosen, if any change is due, and none otherwise. */
  ghost predicate SelectsChosen(nMax: int, fMinimizeChange: bool, nValueTarget: int, held: Counts,
                                vSelected: seq<Mint>, nCoinsReturned: nat) {
    exists used: Counts ::
      && Chooses(nMax, fMinimizeChange, nValueTarget, held, used)
      && nCoinsReturned == ChangeCount(used, nValueTarget)
      && if nCoinsReturned == 0 then vSelected == [] else Supply(vSelected) == used
  }

  /** No coins listed make up the target with fewer. */
  ghost predicate NoneShorter(listMints: seq<Mint>, nValueTarget: int, n: nat) {
    forall c: Counts :: Within(c, Supply(listMints), DENOMS) && Value(c, DENOMS) == nValueTarget ==>
                          n <= Number(c, DENOMS)
  }

  /** A short enough exact selection is one. */
  lemma ExactIsSelect(listMints: seq<Mint>, held: Counts, nValueTarget: int, nMax: int)
    ensures var best := Greedy(AtMost, Supply(listMints), nValueTarget, DENOMS);
            Value(best, DENOMS) == nValueTarget && Number(best, DENOMS) <= nMax ==>
              CanSelect(listMints, held, nValueTarget, nMax)
  {
    hide Value, Number, Greedy, CanCover;
    var best: Counts := Greedy(AtMost, Supply(listMints), nValueTarget, DENOMS);
    assert Within(best, Supply(listMints), DENOMS);
  }

  /**
   * The whole selection. What it selects is unspent, covers the target, and its change is counted
   * right. A target that can be met exactly is met with the fewest mints that do, if these are no more
   * than allowed, and otherwise their number is reported. As long as no more is held than listed,
   * nothing is selected twice, something is selected for every whole amount that is held but cannot be
   * met exactly, and what is selected stays within the limit exactly if it can. The call comes back if
   * every denomination held has a mint to be spent.
   */
  method SelectMintsFromList(nValueTarget: int, nSelectedBefore: int, nMaxNumberOfSpends: int, fMinimizeChange: bool,
                             listMints: seq<Mint>, held: Counts)
      returns (fReturns: bool, vSelected: seq<Mint>, nSelectedValue: int, nCoinsReturned: nat, nNeededSpends: nat)
    ensures CanMeetExactly(listMints, nValueTarget) && nNeededSpends == 0 ==>
              nCoinsReturned == 0 && Supply(vSelected) == Greedy(AtMost, Supply(listMints), nValueTarget, DENOMS)
    ensures fReturns && (!CanMeetExactly(listMints, nValueTarget) || nNeededSpends > 0) ==>
              SelectsChosen(nMaxNumberOfSpends, fMinimizeChange, nValueTarget, held, vSelected, nCoinsReturned)
    ensures PassesEndFor(listMints, held) ==> fReturns
    ensures forall m <- vSelected :: m in listMints && !m.isUsed
    ensures Within(held, Supply(listMints), DENOMS) ==> fReturns && multiset(vSelected) <= multiset(listMints)
    ensures vSelected != [] ==>
              && nSelectedValue == TotalWorth(vSelected) >= nValueTarget
              && nCoinsReturned == Number(Change(nSelectedValue - nValueTarget), DENOMS)
    ensures CanMeetExactly(listMints, nValueTarget) && nNeededSpends == 0 ==>
              && fReturns && TotalWorth(vSelected) == nValueTarget
              && multiset(vSelected) <= multiset(listMints)
              && NoneShorter(listMints, nValueTarget, |vSelected|)
    ensures CanMeetExactly(listMints, nValueTarget) ==>
              var n := Number(Greedy(AtMost, Supply(listMints), nValueTarget, DENOMS), DENOMS);
              if nMaxNumberOfSpends < 0 || n <= nMaxNumberOfSpends
              then nNeededSpends == 0 && |vSelected| == n
              else nNeededSpends == n
    ensures !CanMeetExactly(listMints, nValueTarget) ==> nNeededSpends == 0
    ensures Within(held, Supply(listMints), DENOMS) && IsWhole(nValueTarget) && Value(held, DENOMS) >= nValueTarget &&
            !CanMeetExactly(listMints, nValueTarget)
            ==> vSelected != []
    ensures Within(held, Supply(listMints), DENOMS) && IsWhole(nValueTarget) &&
            0 < nValueTarget <= Value(held, DENOMS) && nMaxNumberOfSpends >= 0
            ==> (0 < |vSelected| <= nMaxNumberOfSpends
                 <==> CanSelect(listMints, held, nValueTarget, nMaxNumberOfSpends))
  {
    hide Value, Number, Greedy, Unspent, Amount, TotalWorth, CanSelect, CanMeetExactly, NoneShorter, KeepsLimit;
    hide CanCover;
    nNeededSpends := 0;
    var fCanMeetExactly, used := GetIdealSpends(nValueTarget, listMints, Zeros());
    ghost var best := Greedy(AtMost, Supply(listMints), nValueTarget, DENOMS);
    assert used == best;
    nSelectedValue := nSelectedBefore;
    WithinEnds(listMints, best);
    if fCanMeetExactly {
      nCoinsReturned := 0;
      fReturns, vSelected, used, nSelectedValue := GetSpends(listMints, used);
      FewestMints(listMints, nValueTarget);
      ExactIsSelect(listMints, held, nValueTarget, nMaxNumberOfSpends);
      if nMaxNumberOfSpends < 0 || |vSelected| <= nMaxNumberOfSpends {
        ChangeFits(0);
        ValueZeros(best, DENOMS);
        return;
      } else {
        nNeededSpends := |vSelected|;
      }
    }
    fReturns, vSelected, nSelectedValue, nCoinsReturned :=
      SelectWithChange(nValueTarget, nSelectedValue, nMaxNumberOfSpends, fMinimizeChange, listMints, held,
                       nNeededSpends);
  }

  /** The second half: coins that cover the target, and change. */
  method SelectWithChange(nValueTarget: int, nSelectedBefore: int, nMaxNumberOfSpends: int, fMinimizeChange: bool,
                          listMints: seq<Mint>, held: Counts, ghost nNeeded: nat)
      returns (fReturns: bool, vSelected: seq<Mint>, nSelectedValue: int, nCoinsReturned: nat)
    requires if CanMeetExactly(listMints, nValueTarget)
             then nNeeded == Number(Greedy(AtMost, Supply(listMints), nValueTarget, DENOMS), DENOMS)
                  && nNeeded > nMaxNumberOfSpends >= 0
             else nNeeded == 0
    ensures fReturns ==>
              SelectsChosen(nMaxNumberOfSpends, fMinimizeChange, nValueTarget, held, vSelected, nCoinsReturned)
    ensures nCoinsReturned == 0 ==> nSelectedValue == nSelectedBefore
    ensures PassesEndFor(listMints, held) ==> fReturns
    ensures forall m <- vSelected :: m in listMints && !m.isUsed
    ensures Within(held, Supply(listMints), DENOMS) ==> fReturns && multiset(vSelected) <= multiset(listMints)
    ensures vSelected != [] ==>
              && nSelectedValue == TotalWorth(vSelected) >= nValueTarget
              && nCoinsReturned == Number(Change(nSelectedValue - nValueTarget), DENOMS)
    ensures Within(held, Supply(listMints), DENOMS) && IsWhole(nValueTarget) && Value(held, DENOMS) >= nValueTarget &&
            !CanMeetExactly(listMints, nValueTarget)
            ==> vSelected != []
    ensures Within(held, Supply(listMints), DENOMS) && IsWhole(nValueTarget) && 0 < nValueTarget <= Value(held, DENOMS)
            ==> (0 < |vSelected| <= nMaxNumberOfSpends
                 <==> CanSelect(listMints, held, nValueTarget, nMaxNumberOfSpends))
  {
    hide Value, Number, Greedy, Unspent, Amount, TotalWorth, CanSelect, CanMeetExactly, KeepsLimit, SmallestOver;
    var used;
    nCoinsReturned, used := CalculateChange(nMaxNumberOfSpends, fMinimizeChange, nValueTarget, held);
    fReturns, vSelected, nSelectedValue := true, [], nSelectedBefore;
    if Within(held, Supply(listMints), DENOMS) {
      WithinEnds(listMints, used);
      NotExact(listMints, held, used, nValueTarget, nMaxNumberOfSpends, nNeeded);
    }
    if nCoinsReturned != 0 {
      ChangeFits(Value(used, DENOMS) - nValueTarget);
      ValueZeros(used, DENOMS);
      fReturns, vSelected, used, nSelectedValue := GetSpends(listMints, used);
      if !fReturns {
        vSelected := [];
      }
    }
  }

  /** The greedy selection of listed mints is the shortest that meets a target exactly. */
  lemma FewestMints(listMints: seq<Mint>, nValueTarget: int)
    ensures var best := Greedy(AtMost, Supply(listMints), nValueTarget, DENOMS);
            NoneShorter(listMints, nValueTarget, Number(best, DENOMS))
  {
    hide Value, Number, Greedy, Unspent;
    var best := Greedy(AtMost, Supply(listMints), nValueTarget, DENOMS);
    forall c: Counts | Within(c, Supply(listMints), DENOMS) && Value(c, DENOMS) == nValueTarget
      ensures Number(best, DENOMS) <= Number(c, DENOMS)
    {
      Complete(Supply(listMints), c, DENOMS);
    }
  }

  /**
   * Where no exact selection within the limit was found, the coins that cover the target are worth more
   * if they stay within the limit, and they do if any would do.
   */
  lemma NotExact(listMints: seq<Mint>, held: Counts, used: Counts, nValueTarget: int, nMax: int, nNeeded: nat)
    requires Within(held, Supply(listMints), DENOMS) && Within(used, held, DENOMS)
    requires Value(held, DENOMS) >= nValueTarget ==> Value(used, DENOMS) >= nValueTarget
    requires KeepsLimit(nValueTarget, held, used, nMax)
    requires if CanMeetExactly(listMints, nValueTarget)
             then nNeeded == Number(Greedy(AtMost, Supply(listMints), nValueTarget, DENOMS), DENOMS) > nMax >= 0
             else nNeeded == 0
    ensures IsWhole(nValueTarget) && Value(held, DENOMS) >= nValueTarget && !CanMeetExactly(listMints, nValueTarget)
            ==> Value(used, DENOMS) > nValueTarget
    ensures IsWhole(nValueTarget) && 0 < nValueTarget <= Value(held, DENOMS) ==>
              && (CanSelect(listMints, held, nValueTarget, nMax) <==> Number(used, DENOMS) <= nMax)
              && (Number(used, DENOMS) <= nMax ==> Value(used, DENOMS) > nValueTarget)
              && Number(used, DENOMS) > 0
  {
    hide Value, Number, Greedy, Unspent, CanCover;
    FewestMints(listMints, nValueTarget);
    assert Within(used, Supply(listMints), DENOMS);
    ValueZeros(used, DENOMS);
  }

  lemma WithinEnds(listMints: seq<Mint>, wanted: Counts)
    ensures Within(wanted, Supply(listMints), DENOMS) ==> PassesEndFor(listMints, wanted)
  {
    hide Unspent;
    if Within(wanted, Supply(listMints), DENOMS) {
      forall d: Denom ensures wanted[d] == 0 || Unspent(listMints, d) > 0 {
        assert wanted[d] <= Supply(listMints)[d];
      }
    }
  }

  // Selections that go wrong

  const ONE_MINT := [Mint(7, 0, false)]

  /** More wanted than there are: the one mint is selected twice. */
  method SelectsTwice() returns (vSelected: seq<Mint>)
    ensures vSelected == ONE_MINT + ONE_MINT
  {
    var fReturns, used, nValue;
    fReturns, vSelected, used, nValue := GetSpends(ONE_MINT, [2, 0, 0, 0, 0, 0, 0, 0]);
    assert Number([2, 0, 0, 0, 0, 0, 0, 0], DENOMS) == 2;
  }

  /** One wanted where there is none: the passes have no end. */
  method WantsForever() returns (fReturns: bool)
    ensures !fReturns && forall passes: nat :: StillWanted(1, Unspent(ONE_MINT, 1), passes) == 1
  {
    var vSelected, used, nValue;
    fReturns, vSelected, used, nValue := GetSpends(ONE_MINT, [0, 1, 0, 0, 0, 0, 0, 0]);
    assert Unspent(ONE_MINT, 1) == 0;
    forall passes: nat ensures StillWanted(1, 0, passes) == 1 {
      NoPassHelps(1, passes);
    }
  }
}
