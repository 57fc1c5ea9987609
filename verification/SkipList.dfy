/** How far a skip pointer reaches back, and how many steps a walk along skip pointers takes. */
module SkipList {
  import opened Arithmetic

  // Skip heights

  /** Bitwise and. */
  function And(x: nat, y: nat): nat {
    if x == 0 || y == 0 then 0
    else (if x % 2 == 1 && y % 2 == 1 then 1 else 0) + 2 * And(x / 2, y / 2)
  }

  lemma {:induction false} AndSelf(x: nat)
    ensures And(x, x) == x
  {
    if x > 0 {
      AndSelf(x / 2);
    }
  }

  /** Clearing the lowest bit makes a number smaller. */
  lemma {:induction false} AndBefore(n: nat)
    requires n > 0
    ensures And(n, n - 1) < n
  {
    if n % 2 == 1 {
      AndSelf(n / 2);
    } else {
      AndBefore(n / 2);
      assert (n - 1) / 2 == n / 2 - 1;
    }
  }

  function InvertLowestOne(n: nat): (r: nat)
    ensures n > 0 ==> r < n
  {
    if n == 0 then 0
    else
      AndBefore(n);
      And(n, n - 1)
  }

  /** The height to skip back to: always lower. */
  function GetSkipHeight(height: nat): (h: nat)
    ensures height > 0 ==> h < height
  {
    if height < 2 then 0
    else if height % 2 == 1 then InvertLowestOne(InvertLowestOne(height - 1)) + 1
    else InvertLowestOne(height)
  }

  // The walk

  /** Whether the walk to the target skips, or goes back by one. */
  predicate TakesSkip(walk: nat, target: nat)
    requires walk > 0
  {
    var heightSkip, heightSkipPrev := GetSkipHeight(walk), GetSkipHeight(walk - 1);
    heightSkip == target ||
    (heightSkip > target && !(heightSkipPrev < heightSkip - 2 && heightSkipPrev >= target))
  }

  function NextHeight(walk: nat, target: nat): (h: nat)
    requires walk > target
    ensures target <= h < walk
  {
    if TakesSkip(walk, target) then GetSkipHeight(walk) else walk - 1
  }

  /** The number of steps from one height down to another. */
  function Steps(walk: nat, target: nat): nat
    requires walk >= target
    decreases walk
  {
    if walk == target then 0 else 1 + Steps(NextHeight(walk, target), target)
  }

  // Bits

  /** The number without its lowest k bits. */
  function High(k: nat, n: nat): nat {
    if k == 0 then n else High(k - 1, n / 2)
  }

  /** How many of the lowest k bits are set. */
  function Ones(k: nat, n: nat): (p: nat)
    ensures p <= k
  {
    if k == 0 then 0 else n % 2 + Ones(k - 1, n / 2)
  }

  lemma {:induction false} HighOrder(k: nat, m: nat, n: nat)
    requires m <= n
    ensures High(k, m) <= High(k, n)
  {
    if k > 0 {
      HighOrder(k - 1, m / 2, n / 2);
    }
  }

  lemma LowestOne(n: nat)
    ensures n > 0 ==> InvertLowestOne(2 * n) == 2 * InvertLowestOne(n)
    ensures InvertLowestOne(2 * n + 1) == 2 * n
  {
    AndSelf(n);
    assert 2 * n / 2 == n && (2 * n + 1) / 2 == n;
    if n > 0 {
      assert (2 * n - 1) / 2 == n - 1;
    }
  }

  lemma Halved(n: nat)
    ensures n == if n % 2 == 1 then 2 * (n / 2) + 1 else 2 * (n / 2)
  {
  }

  /** Clearing the lowest bit takes one from the bits below, or something from those above. */
  lemma {:induction false} ClearsOne(k: nat, n: nat)
    requires n > 0
    ensures var r := InvertLowestOne(n);
      && (n % 2 == 0 ==> r % 2 == 0)
      && (High(k, r) == High(k, n) ==> Ones(k, r) == Ones(k, n) - 1)
      && (Ones(k, n) > 0 ==> High(k, r) == High(k, n))
    decreases k
  {
    hide InvertLowestOne;
    LowestOne(n / 2);
    Halved(n);
    var r := InvertLowestOne(n);
    if k > 0 && n % 2 == 0 {
      assert r / 2 == InvertLowestOne(n / 2);
      ClearsOne(k - 1, n / 2);
    }
  }

  lemma EvenNext(k: nat, n: nat)
    requires n % 2 == 0 && k > 0
    ensures High(k, n + 1) == High(k, n) && Ones(k, n + 1) == Ones(k, n) + 1
  {
    assert (n + 1) / 2 == n / 2;
  }

  lemma {:induction false} NothingHigh(k: nat)
    ensures High(k, 0) == 0 && Ones(k, 0) == 0 && InvertLowestOne(0) == 0
  {
    if k > 0 {
      NothingHigh(k - 1);
    }
  }

  /** The height skipped to from an odd one has two fewer of the bits below, or changes those above. */
  lemma OddSkip(k: nat, n: nat)
    requires n % 2 == 1 && n > 2 && k > 0 && High(k, n) > 0
    ensures var h := GetSkipHeight(n);
      && h % 2 == 1
      && (High(k, h) == High(k, n) ==> Ones(k, h) == Ones(k, n) - 2)
      && (Ones(k, n) > 2 ==> High(k, h) == High(k, n))
  {
    hide InvertLowestOne, Ones, High;
    var m := n - 1;
    EvenNext(k, m);
    ClearsOne(k, m);
    var s := InvertLowestOne(m);
    HighOrder(k, s, m);
    if s > 0 {
      ClearsOne(k, s);
      HighOrder(k, InvertLowestOne(s), s);
    }
    NothingHigh(k);
    EvenNext(k, InvertLowestOne(s));
  }

  // Where two heights part

  /** From bit k on, the walk is just above the target. */
  predicate Part(k: nat, walk: nat, target: nat) {
    High(k, walk) % 2 == 1 && High(k, target) == High(k, walk) - 1
  }

  /** Two heights part somewhere below a bit from which on they agree. */
  lemma {:induction false} PartBelow(k: nat, walk: nat, target: nat) returns (j: nat)
    requires walk > target && High(k, walk) == High(k, target)
    ensures j < k && Part(j, walk, target)
  {
    if High(k - 1, walk) == High(k - 1, target) {
      j := PartBelow(k - 1, walk, target);
    } else {
      HighNext(k - 1, walk);
      HighNext(k - 1, target);
      HighOrder(k - 1, target, walk);
      j := k - 1;
    }
  }

  lemma {:induction false} HighNext(k: nat, n: nat)
    ensures High(k + 1, n) == High(k, n) / 2
  {
    if k > 0 {
      HighNext(k - 1, n / 2);
    }
  }

  /** What bounds the steps from a height that parts from the target at bit k; twice the bound. */
  function Potential(k: nat, walk: nat): nat {
    k * (k + 3) + 2 * Ones(k, walk) + (if walk % 2 == 0 && Ones(k, walk) >= 2 then 2 else 0) + 2
  }

  lemma PotentialBound(k: nat, walk: nat)
    ensures Potential(k, walk) <= k * (k + 3) + 2 * k + 2
    ensures Potential(k, walk) >= k * (k + 3) + 2
  {
    EvenHasGap(k, walk);
  }

  lemma EvenHasGap(k: nat, n: nat)
    ensures n % 2 == 0 && k > 0 ==> Ones(k, n) < k
  {
  }

  /** A lower height between the two has the lower potential, unless it parts at the same bit. */
  lemma Lower(k: nat, walk: nat, target: nat, next: nat) returns (j: nat)
    requires Part(k, walk, target) && target < next <= walk
    ensures Part(j, next, target)
    ensures High(k, next) == High(k, walk) ==> j == k
    ensures High(k, next) != High(k, walk) ==> Potential(j, next) + 4 <= Potential(k, walk)
  {
    hide Potential;
    HighOrder(k, target, next);
    HighOrder(k, next, walk);
    if High(k, next) == High(k, walk) {
      j := k;
    } else {
      j := PartBelow(k, next, target);
      PotentialBound(j, next);
      PotentialBound(k, walk);
      Squares(j, k);
    }
  }

  lemma Squares(j: nat, k: nat)
    requires j < k
    ensures j * (j + 3) + 2 * j + 2 + 4 <= k * (k + 3) + 2
  {
    var d := k - 1 - j;
    assert k * (k + 3) == j * (j + 3) + (2 * j + 4) + d * (2 * j + 5 + d);
    assert d * (2 * j + 5 + d) >= 0;
  }

  /** Going back by one from an odd height takes a one away. */
  lemma OddBack(k: nat, n: nat)
    requires n % 2 == 1 && k > 0
    ensures High(k, n - 1) == High(k, n) && Ones(k, n - 1) == Ones(k, n) - 1
  {
    EvenNext(k, n - 1);
  }

  /** When the height before an even one skips further, nothing is lost by going there. */
  lemma BackFirst(k: nat, n: nat)
    requires n > 2 && n % 2 == 0 && GetSkipHeight(n - 1) < GetSkipHeight(n) - 2
    requires High(k, n - 2) == High(k, n)
    ensures Ones(k, n - 2) <= Ones(k, n)
  {
    hide GetSkipHeight, Ones, High;
    Halved(n);
    Halved(n / 2);
    if n / 2 % 2 == 1 {
      assert n == 4 * (n / 2 / 2) + 2;
      OnesOfTwo(k, n / 2 / 2);
    } else {
      var q := n / 2 / 2;
      Halved(q);
      if q % 2 == 0 {
        assert n == 8 * (q / 2);
        FarSkip(q / 2);
      } else {
        assert n == 8 * (q / 2) + 4;
        OnesOfFour(k, q / 2);
      }
    }
  }

  lemma LastBit(k: nat, n: nat, b: nat)
    requires k > 0 && b <= 1
    ensures Ones(k, 2 * n + b) == b + Ones(k - 1, n) && High(k, 2 * n + b) == High(k - 1, n)
  {
    assert (2 * n + b) / 2 == n;
  }

  lemma OnesOfTwo(k: nat, j: nat)
    ensures Ones(k, 4 * j) <= Ones(k, 4 * j + 2)
  {
    assert 4 * j == 2 * (2 * j) && 4 * j + 2 == 2 * (2 * j + 1);
    if k == 1 {
      LastBit(k, 2 * j, 0);
      LastBit(k, 2 * j + 1, 0);
    } else if k > 1 {
      hide Ones, High;
      LastBit(k, 2 * j, 0);
      LastBit(k, 2 * j + 1, 0);
      LastBit(k - 1, j, 0);
      LastBit(k - 1, j, 1);
    }
  }

  lemma OnesOfFour(k: nat, j: nat)
    requires High(k, 8 * j + 2) == High(k, 8 * j + 4)
    ensures Ones(k, 8 * j + 2) <= Ones(k, 8 * j + 4)
  {
    hide Ones;
    assert 8 * j + 2 == 2 * (4 * j + 1) && 8 * j + 4 == 2 * (4 * j + 2) && 4 * j + 2 == 2 * (2 * j + 1);
    assert k > 0;
    hide High;
    LastBit(k, 4 * j + 1, 0);
    LastBit(k, 4 * j + 2, 0);
    OnesOfPair(k - 1, j);
  }

  lemma OnesOfPair(k: nat, j: nat)
    requires High(k, 4 * j + 1) == High(k, 4 * j + 2)
    ensures Ones(k, 4 * j + 1) <= Ones(k, 4 * j + 2)
  {
    hide Ones;
    assert 4 * j + 1 == 2 * (2 * j) + 1 && 4 * j + 2 == 2 * (2 * j + 1);
    assert k > 0;
    LastBit(k, 2 * j, 1);
    LastBit(k, 2 * j + 1, 0);
    assert k > 1;
    hide High;
    LastBit(k - 1, j, 0);
    LastBit(k - 1, j, 1);
  }

  /** A height with three zeros at its end skips at least as far as the one before it, but for one. */
  lemma FarSkip(j: nat)
    requires j > 0
    ensures GetSkipHeight(8 * j - 1) >= GetSkipHeight(8 * j) - 2
  {
    hide InvertLowestOne;
    LowestOne(4 * j);
    LowestOne(2 * j);
    LowestOne(j);
    assert InvertLowestOne(8 * j) == 8 * InvertLowestOne(j);
    LowestOne(4 * j - 1);
    LowestOne(2 * j - 1);
    assert InvertLowestOne(8 * j - 2) == 2 * InvertLowestOne(2 * (2 * j - 1) + 1) == 8 * j - 4;
    LowestOne(4 * j - 2);
    LowestOne(j - 1);
    assert InvertLowestOne(8 * j - 4) == 2 * InvertLowestOne(2 * (2 * j - 1)) == 4 * InvertLowestOne(2 * (j - 1) + 1);
  }

  lemma NextLower(k: nat, walk: nat, target: nat)
    requires Part(k, walk, target)
    ensures walk > target
  {
    if walk <= target {
      HighOrder(k, walk, target);
    }
  }

  /** From an odd height a skip takes two ones away, and going back one, where there are few. */
  lemma FromOdd(k: nat, walk: nat, target: nat)
    requires Part(k, walk, target) && walk % 2 == 1
    ensures walk > target
    ensures var next := NextHeight(walk, target);
      next > target && High(k, next) == High(k, walk) ==> Potential(k, next) + 2 <= Potential(k, walk)
  {
    NextLower(k, walk, target);
    if k > 0 && walk > 2 {
      hide High, Ones, InvertLowestOne;
      OddSkip(k, walk);
      OddBack(k, walk);
      if !TakesSkip(walk, target) {
        OddTakes(walk, target);
        NotBelow(k, walk, target);
      }
    }
  }

  /** An odd height skips unless that goes too far. */
  lemma OddTakes(walk: nat, target: nat)
    requires walk % 2 == 1 && walk > target
    ensures GetSkipHeight(walk) >= target ==> TakesSkip(walk, target)
  {
  }

  lemma NotBelow(k: nat, walk: nat, target: nat)
    requires Part(k, walk, target) && GetSkipHeight(walk) < target
    ensures High(k, GetSkipHeight(walk)) != High(k, walk)
  {
    HighOrder(k, GetSkipHeight(walk), target);
  }

  lemma {:induction false} NoOnes(k: nat, n: nat)
    requires n > 0 && High(k, n) > 0 && Ones(k, n) == 0
    ensures High(k, n - 1) < High(k, n)
  {
    if k > 0 {
      assert (n - 1) / 2 == n / 2 - 1;
      NoOnes(k - 1, n / 2);
    }
  }

  /** From an even height that skips too far or takes its skip. */
  lemma FromEven(k: nat, walk: nat, target: nat)
    requires Part(k, walk, target) && walk % 2 == 0
    requires walk > target && (TakesSkip(walk, target) || GetSkipHeight(walk) < target)
    ensures var next := NextHeight(walk, target);
      next > target && High(k, next) == High(k, walk) ==> Potential(k, next) + 2 <= Potential(k, walk)
  {
    var skip := GetSkipHeight(walk);
    if walk >= 2 {
      assert skip == InvertLowestOne(walk);
      hide High, Ones, InvertLowestOne, GetSkipHeight;
      ClearsOne(k, walk);
      if !TakesSkip(walk, target) {
        HighOrder(k, skip, target);
        if Ones(k, walk) == 0 {
          NoOnes(k, walk);
        }
      }
    }
  }

  /** From an even height by way of the one before it. */
  lemma ByTheOneBefore(k: nat, walk: nat, target: nat) returns (next: nat)
    requires Part(k, walk, target) && walk % 2 == 0 && walk > target
    requires !TakesSkip(walk, target) && GetSkipHeight(walk) >= target
    ensures target <= next < walk && Steps(walk, target) == 2 + Steps(next, target)
    ensures next > target && High(k, next) == High(k, walk) ==> Potential(k, next) + 4 <= Potential(k, walk)
  {
    var before := walk - 1;
    next := GetSkipHeight(before);
    assert target <= next < GetSkipHeight(walk) - 2;
    OddTakes(before, target);
    assert NextHeight(walk, target) == before && NextHeight(before, target) == next;
    if next > target && High(k, next) == High(k, walk) {
      HighOrder(k, next, walk - 2);
      HighOrder(k, walk - 2, before);
      HighOrder(k, before, walk);
      OneBefore(k, walk);
    }
  }

  lemma OneBefore(k: nat, walk: nat)
    requires walk % 2 == 0 && walk > 2 && High(k, walk) > 0
    requires GetSkipHeight(walk - 1) < GetSkipHeight(walk) - 2
    requires High(k, walk) % 2 == 1
    requires High(k, GetSkipHeight(walk - 1)) == High(k, walk) == High(k, walk - 2) == High(k, walk - 1)
    ensures Potential(k, GetSkipHeight(walk - 1)) + 4 <= Potential(k, walk)
  {
    var next := GetSkipHeight(walk - 1);
    assert k > 0;
    hide GetSkipHeight, High;
    OddSkip(k, walk - 1);
    EvenNext(k, walk - 2);
    BackFirst(k, walk);
    assert Ones(k, next) > 0;
    hide Ones;
  }

  /** No more steps than half the potential. */
  lemma {:induction false} FewSteps(k: nat, walk: nat, target: nat)
    requires Part(k, walk, target)
    ensures walk > target && 2 * Steps(walk, target) <= Potential(k, walk)
    decreases walk
  {
    NextLower(k, walk, target);
    hide Potential, TakesSkip, GetSkipHeight, NextHeight, High, Ones, Steps;
    if walk % 2 == 0 && !TakesSkip(walk, target) && GetSkipHeight(walk) >= target {
      var next := ByTheOneBefore(k, walk, target);
      EvenParts(k, walk, target);
      if next > target {
        var j := Lower(k, walk, target, next);
        FewSteps(j, next, target);
      }
    } else {
      StepsNext(walk, target);
      var next := NextHeight(walk, target);
      if walk % 2 == 0 {
        FromEven(k, walk, target);
      } else {
        FromOdd(k, walk, target);
      }
      PotentialBound(k, walk);
      if next > target {
        var j := Lower(k, walk, target, next);
        FewSteps(j, next, target);
      }
    }
  }

  lemma StepsNext(walk: nat, target: nat)
    requires walk > target
    ensures Steps(walk, target) == 1 + Steps(NextHeight(walk, target), target)
    ensures Steps(target, target) == 0
  {
  }

  /** An even height parts from a lower one above its lowest bit. */
  lemma EvenParts(k: nat, walk: nat, target: nat)
    requires Part(k, walk, target) && walk % 2 == 0
    ensures k > 0 && Potential(k, walk) >= 6 && Steps(target, target) == 0
  {
    PotentialBound(k, walk);
    Squares(0, k);
  }

  /** Below 2^n, a walk from any height to any lower one takes at most (n^2 + 3n - 2) / 2 steps. */
  lemma WalksAreShort(n: nat, walk: nat, target: nat)
    requires target <= walk < Pow2(n) && n > 0
    ensures 2 * Steps(walk, target) <= n * n + 3 * n - 2
  {
    if walk == target {
      MulMonotone(n, 1, n);
    } else {
      HighOfPow(n, walk);
      HighOfPow(n, target);
      var j := PartBelow(n, walk, target);
      FewSteps(j, walk, target);
      PotentialBound(j, walk);
      BoundGrows(j, n);
    }
  }

  lemma BoundGrows(j: nat, n: nat)
    requires j < n
    ensures j * (j + 3) + 2 * j + 2 <= n * n + 3 * n - 2
  {
    var d := n - 1 - j;
    assert n * n + 3 * n - 2 == j * (j + 3) + 2 * j + 2 + d * (2 * j + 5 + d);
    assert d * (2 * j + 5 + d) >= 0;
  }

  lemma {:induction false} HighOfPow(n: nat, x: nat)
    requires x < Pow2(n)
    ensures High(n, x) == 0
  {
    if n > 0 {
      Pow2Next(n - 1);
      HighOfPow(n - 1, x / 2);
    }
  }
}
