/** Coin denominations, and what a collection of coins is worth. */
module Denominations {
  import opened Arithmetic

  const COIN := 100000000

  const DENOMS := 8

  /** An index into the list of denominations, smallest first. */
  type Denom = d: nat | d < DENOMS

  /** How many coins of each denomination. */
  type Counts = c: seq<nat> | |c| == DENOMS witness [0, 0, 0, 0, 0, 0, 0, 0]

  function DenomInt(d: Denom): int {
    if d == 0 then 1 else if d == 1 then 5 else if d == 2 then 10 else if d == 3 then 50
    else if d == 4 then 100 else if d == 5 then 500 else if d == 6 then 1000 else 5000
  }

  function Amount(d: Denom): (v: int)
    ensures v >= COIN
  {
    COIN * DenomInt(d)
  }

  /** The denominations in the smallest unit. */
  lemma Denominated()
    ensures Amount(0) == 1_0000_0000 && Amount(1) == 5_0000_0000 && Amount(2) == 10_0000_0000
    ensures Amount(3) == 50_0000_0000 && Amount(4) == 100_0000_0000 && Amount(5) == 500_0000_0000
    ensures Amount(6) == 1000_0000_0000 && Amount(7) == 5000_0000_0000
  {
  }

  /** How many coins of the denomination below make one. */
  function Step(d: Denom): nat
    requires d > 0
  {
    if d % 2 == 1 then 5 else 2
  }

  /** The denominations form a divisibility chain. */
  lemma Chain(d: Denom)
    requires d > 0
    ensures Amount(d) == Step(d) * Amount(d - 1) && Step(d) >= 2
  {
  }

  lemma {:induction false} Larger(d: Denom, e: Denom)
    requires d <= e
    ensures Amount(d) <= Amount(e)
    ensures d < e ==> Amount(d) < Amount(e)
  {
    hide Amount;
    if d < e {
      Larger(d, e - 1);
      Chain(e);
    }
  }

  function Zeros(): Counts { [0, 0, 0, 0, 0, 0, 0, 0] }

  /** The worth of the coins of the n smallest denominations. */
  function Value(c: seq<nat>, n: nat): (v: nat)
    requires n <= |c| && n <= DENOMS
  {
    if n == 0 then 0 else Value(c, n - 1) + c[n - 1] * Amount(n - 1)
  }

  lemma ValueTop(c: seq<nat>, n: nat)
    requires 0 < n <= |c| && n <= DENOMS
    ensures Value(c, n) == Value(c, n - 1) + c[n - 1] * Amount(n - 1)
  {
  }

  /** The number of these coins. */
  function Number(c: seq<nat>, n: nat): nat
    requires n <= |c|
  {
    if n == 0 then 0 else Number(c, n - 1) + c[n - 1]
  }

  /** Nothing is used that is not there. */
  predicate Within(c: seq<nat>, h: seq<nat>, n: nat)
    requires n <= |c| && n <= |h|
  {
    forall i | 0 <= i < n :: c[i] <= h[i]
  }

  lemma ProductLess(a: nat, b: nat, v: nat, w: nat)
    requires a < b && v <= w && 0 < w
    ensures a * v < b * w
  {
    MulMonotone(a, v, w);
    MulMonotone(w, a + 1, b);
    assert w * (a + 1) == a * w + w;
  }

  lemma Rest(q: nat, k: nat, v: int)
    requires k <= q && 0 < v
    ensures (q - k) * v == q * v - k * v
    ensures k < q ==> (q - k) * v > 0
  {
    if k < q {
      MulMonotone(v, 1, q - k);
    }
  }

  lemma {:induction false} ValueAgrees(c: seq<nat>, e: seq<nat>, n: nat)
    requires n <= |c| && n <= |e| && n <= DENOMS && c[..n] == e[..n]
    ensures Value(c, n) == Value(e, n) && Number(c, n) == Number(e, n)
  {
    if n > 0 {
      assert c[..n - 1] == c[..n][..n - 1] && e[..n - 1] == e[..n][..n - 1];
      assert c[n - 1] == c[..n][n - 1] && e[n - 1] == e[..n][n - 1];
      ValueAgrees(c, e, n - 1);
    }
  }

  lemma {:induction false} ValueUpdate(c: seq<nat>, i: nat, x: nat, n: nat)
    requires i < n <= |c| && n <= DENOMS
    ensures Value(c[i := x], n) == Value(c, n) + (x - c[i]) * Amount(i)
    ensures Number(c[i := x], n) == Number(c, n) + x - c[i]
  {
    hide Amount;
    if i == n - 1 {
      ValueAgrees(c, c[i := x], n - 1);
      assert x * Amount(i) == c[i] * Amount(i) + (x - c[i]) * Amount(i);
    } else {
      ValueUpdate(c, i, x, n - 1);
    }
  }

  lemma {:induction false} ValueZeros(c: seq<nat>, n: nat)
    requires n <= |c| && n <= DENOMS
    ensures (forall i | 0 <= i < n :: c[i] == 0) <==> Value(c, n) == 0
    ensures (forall i | 0 <= i < n :: c[i] == 0) <==> Number(c, n) == 0
  {
    hide Amount;
    if n > 0 {
      ValueZeros(c, n - 1);
      if c[n - 1] > 0 {
        MulMonotone(c[n - 1], 1, Amount(n - 1));
      }
    }
  }

  /** Fewer coins are worth less; strictly so if one is missing. */
  lemma {:induction false} ValueWithin(c: seq<nat>, h: seq<nat>, n: nat)
    requires n <= |c| && n <= |h| && n <= DENOMS && Within(c, h, n)
    ensures Value(c, n) <= Value(h, n) && Number(c, n) <= Number(h, n)
    ensures Value(c, n) == Value(h, n) ==> forall i | 0 <= i < n :: c[i] == h[i]
  {
    hide Amount;
    if n > 0 {
      ValueWithin(c, h, n - 1);
      var d := h[n - 1] - c[n - 1];
      assert h[n - 1] * Amount(n - 1) == c[n - 1] * Amount(n - 1) + d * Amount(n - 1);
      MulMonotone(d, 1, Amount(n - 1));
    }
  }

  /** Taking a part of the coins away. */
  function Without(c: seq<nat>, g: seq<nat>, n: nat): (r: seq<nat>)
    requires n <= |c| && n <= |g| && Within(g, c, n)
    ensures |r| == n && Within(r, c, n) && forall i | 0 <= i < n :: r[i] == c[i] - g[i]
  {
    seq(n, i requires 0 <= i < n => c[i] - g[i])
  }

  lemma {:induction false} ValueWithout(c: seq<nat>, g: seq<nat>, n: nat)
    requires n <= |c| && n <= |g| && n <= DENOMS && Within(g, c, n)
    ensures Value(Without(c, g, n), n) == Value(c, n) - Value(g, n)
    ensures Number(Without(c, g, n), n) == Number(c, n) - Number(g, n)
  {
    hide Amount;
    if n > 0 {
      ValueWithout(c, g, n - 1);
      ValueAgrees(Without(c, g, n), Without(c, g, n - 1), n - 1);
      assert (c[n - 1] - g[n - 1]) * Amount(n - 1) == c[n - 1] * Amount(n - 1) - g[n - 1] * Amount(n - 1);
    }
  }

  /** No coin below is worth more than the next denomination up. */
  lemma {:induction false} ValueAtMost(c: seq<nat>, n: nat)
    requires 0 < n <= |c| && n <= DENOMS
    ensures Value(c, n) <= Number(c, n) * Amount(n - 1)
  {
    hide Amount;
    if n > 1 {
      ValueAtMost(c, n - 1);
      Larger(n - 2, n - 1);
      MulMonotone(Number(c, n - 1), Amount(n - 2), Amount(n - 1));
      assert Number(c, n) * Amount(n - 1) == Number(c, n - 1) * Amount(n - 1) + c[n - 1] * Amount(n - 1);
    }
  }

  // Taking coins from the highest denomination down

  /** When to stop taking coins of one denomination: see `Threshold`. */
  datatype Rule = AtMost | Under | Until

  /** A coin of this worth is taken while at least this much remains. */
  function Threshold(rule: Rule, v: int): int {
    match rule
    case AtMost => v        // never more than remains
    case Under => v + 1     // always leaving something
    case Until => 1         // until nothing remains
  }

  function Take(h: nat, r: int, v: int, t: int): (k: nat)
    ensures k <= h
  {
    if h > 0 && r >= t then 1 + Take(h - 1, r - v, v, t) else 0
  }

  function Taken(rule: Rule, h: nat, r: int, d: Denom): (k: nat)
    ensures k <= h
  {
    Take(h, r, Amount(d), Threshold(rule, Amount(d)))
  }

  function Worth(rule: Rule, h: nat, r: int, d: Denom): nat {
    Taken(rule, h, r, d) * Amount(d)
  }

  lemma WorthIs(rule: Rule, h: nat, r: int, d: Denom)
    ensures Worth(rule, h, r, d) == Taken(rule, h, r, d) * Amount(d)
  {
  }

  function Greedy(rule: Rule, h: seq<nat>, r: int, n: nat): (c: seq<nat>)
    requires n <= |h| && n <= DENOMS
    ensures |c| == n && Within(c, h, n)
  {
    if n == 0 then []
    else Greedy(rule, h, r - Worth(rule, h[n - 1], r, n - 1), n - 1) + [Taken(rule, h[n - 1], r, n - 1)]
  }

  lemma GreedyTop(rule: Rule, h: seq<nat>, r: int, n: nat)
    requires 0 < n <= |h| && n <= DENOMS
    ensures var w := Worth(rule, h[n - 1], r, n - 1);
            var c, d := Greedy(rule, h, r, n), Greedy(rule, h, r - w, n - 1);
            && c[n - 1] == Taken(rule, h[n - 1], r, n - 1)
            && (forall i: nat | i < n - 1 :: c[i] == d[i])
            && Value(c, n) == Value(d, n - 1) + w
            && Number(c, n) == Number(d, n - 1) + c[n - 1]
  {
    hide Amount, Taken;
    var w := Worth(rule, h[n - 1], r, n - 1);
    ValueAgrees(Greedy(rule, h, r, n), Greedy(rule, h, r - w, n - 1), n - 1);
  }

  lemma GreedyNone(rule: Rule, h: seq<nat>, r: int)
    ensures Greedy(rule, h, r, 0) == [] && Value(Greedy(rule, h, r, 0), 0) == 0 && Value(h, 0) == 0
  {
  }

  /** What one step of it means. */
  lemma {:induction false} TakeMeans(h: nat, r: int, v: int, t: int)
    requires v > 0
    ensures var k := Take(h, r, v, t);
            && (k < h ==> r - k * v < t)
            && (k > 0 ==> r - k * v >= t - v)
  {
    if h > 0 && r >= t {
      TakeMeans(h - 1, r - v, v, t);
      var k := Take(h - 1, r - v, v, t);
      assert (k + 1) * v == k * v + v;
    }
  }

  /** It takes all it can. */
  lemma {:induction false} TakeAtLeast(h: nat, r: int, v: int, j: nat)
    requires v > 0 && j <= h && j * v <= r
    ensures Take(h, r, v, v) >= j
  {
    if j > 0 {
      assert j * v == (j - 1) * v + v;
      MulMonotone(v, 0, j - 1);
      TakeAtLeast(h - 1, r - v, v, j - 1);
    }
  }

  /** Greedy selection of at most r is worth at most r. */
  lemma {:induction false} AtMostValue(h: seq<nat>, r: nat, n: nat)
    requires n <= |h| && n <= DENOMS
    ensures Value(Greedy(AtMost, h, r, n), n) <= r
    decreases n
  {
    hide Amount, Taken, Worth, Greedy, Value;
    GreedyNone(AtMost, h, r);
    if n > 0 {
      TakenMeans(AtMost, h[n - 1], r, n - 1);
      GreedyTop(AtMost, h, r, n);
      AtMostValue(h, r - Worth(AtMost, h[n - 1], r, n - 1), n - 1);
    }
  }

  lemma TakenMeans(rule: Rule, h: nat, r: int, d: Denom)
    ensures var k, w, t := Taken(rule, h, r, d), Worth(rule, h, r, d), Threshold(rule, Amount(d));
            && (k < h ==> r - w < t)
            && (k > 0 ==> r - w >= t - Amount(d))
            && (k == 0 ==> w == 0)
            && (k == h ==> w == h * Amount(d))
            && (r < t ==> k == 0)
  {
    hide Amount;
    TakeMeans(h, r, Amount(d), Threshold(rule, Amount(d)));
  }

  lemma {:induction false} TakeMultiple(h: nat, q: nat, v: int)
    requires v > 0
    ensures Take(h, q * v, v, v) == if h < q then h else q
  {
    if h > 0 && q > 0 {
      assert q * v == (q - 1) * v + v;
      MulMonotone(v, 0, q - 1);
      TakeMultiple(h - 1, q - 1, v);
    }
  }

  lemma Scale(q: nat, d: Denom)
    requires d > 0
    ensures q * Step(d) * Amount(d - 1) == q * Amount(d)
  {
    hide Amount, Step;
    Chain(d);
    var f, v := Step(d), Amount(d - 1);
    assert q * f * v == q * (f * v);
  }

  /** A multiple of the largest denomination is met exactly whenever there is enough to meet it. */
  lemma {:induction false} Enough(h: seq<nat>, q: nat, n: nat)
    requires 0 < n <= |h| && n <= DENOMS && Value(h, n) >= q * Amount(n - 1)
    ensures Value(Greedy(AtMost, h, q * Amount(n - 1), n), n) == q * Amount(n - 1)
    decreases n
  {
    hide Amount, Take, Step, Greedy;
    var v := Amount(n - 1);
    var k := Taken(AtMost, h[n - 1], q * v, n - 1);
    TakeMultiple(h[n - 1], q, v);
    GreedyTop(AtMost, h, q * v, n);
    Rest(q, k, v);
    if k == q {
      AtMostValue(h, 0, n - 1);
    } else {
      assert Value(h, n - 1) >= (q - k) * v;
      Scale(q - k, n - 1);
      Enough(h, (q - k) * Step(n - 1), n - 1);
    }
  }

  /**
   * Greedy selection is complete, and optimal: an amount that some of the coins make up is made up,
   * and with no more coins than any other way of making it up.
   */
  lemma {:induction false} Complete(h: seq<nat>, c: seq<nat>, n: nat)
    requires n <= |h| && n <= |c| && n <= DENOMS && Within(c, h, n)
    ensures Value(Greedy(AtMost, h, Value(c, n), n), n) == Value(c, n)
    ensures Number(Greedy(AtMost, h, Value(c, n), n), n) <= Number(c, n)
    decreases n
  {
    hide Amount, Take, Step, Greedy;
    if n > 0 {
      var v := Amount(n - 1);
      var r := Value(c, n);
      GreedyTop(AtMost, h, r, n);
      var k := Taken(AtMost, h[n - 1], r, n - 1);
      TakeAtLeast(h[n - 1], r, v, c[n - 1]);
      TakenMeans(AtMost, h[n - 1], r, n - 1);
      Rest(k, c[n - 1], v);
      var c' := Exchange(c, k - c[n - 1], n, r - k * v);
      Complete(h, c', n - 1);
    }
  }

  /** Smaller coins worth d of the next denomination up can be given up for d of those. */
  lemma Exchange(c: seq<nat>, d: nat, n: nat, rest: nat) returns (c': seq<nat>)
    requires 0 < n <= |c| && n <= DENOMS
    requires Value(c, n - 1) == rest + d * Amount(n - 1)
    ensures |c'| == n - 1 && Within(c', c, n - 1)
    ensures Value(c', n - 1) == rest
    ensures Number(c', n - 1) + d <= Number(c, n - 1)
  {
    if d == 0 {
      c' := c[..n - 1];
      ValueAgrees(c, c', n - 1);
    } else {
      hide Amount, Greedy, Step, Value;
      var d0 := n - 1;
      assert d0 > 0 by {
        MulMonotone(Amount(d0), 1, d);
        ValueZeros(c, 0);
      }
      var q := d * Step(d0);
      Scale(d, d0);
      Enough(c, q, d0);
      var g := Greedy(AtMost, c, q * Amount(d0 - 1), d0);
      c' := Without(c, g, d0);
      ValueWithout(c, g, d0);
      AtLeastAsMany(g, d, d0);
    }
  }

  /** Coins worth d of the next denomination up are at least d in number. */
  lemma AtLeastAsMany(g: seq<nat>, d: nat, n: Denom)
    requires 0 < n <= |g| && Value(g, n) >= d * Amount(n)
    ensures Number(g, n) >= d
  {
    hide Amount;
    hide Value, Number;
    ValueAtMost(g, n);
    Larger(n - 1, n);
    if Number(g, n) < d {
      ProductLess(Number(g, n), d, Amount(n - 1), Amount(n));
    }
  }

  /** An amount can be made up of the coins held exactly when greedy selection leaves nothing. */
  lemma GreedyDecides(h: Counts, r: nat)
    ensures Value(Greedy(AtMost, h, r, DENOMS), DENOMS) == r <==>
            exists c: Counts :: Within(c, h, DENOMS) && Value(c, DENOMS) == r
  {
    var g: Counts := Greedy(AtMost, h, r, DENOMS);
    if exists c: Counts :: Within(c, h, DENOMS) && Value(c, DENOMS) == r {
      var c: Counts :| Within(c, h, DENOMS) && Value(c, DENOMS) == r;
      Complete(h, c, DENOMS);
    }
  }

  /** The only number of coins that the rule can stop at. */
  lemma {:induction false} TakeIs(h: nat, r: int, v: int, t: int, k: nat)
    requires v > 0 && k <= h
    requires k < h ==> r - k * v < t
    requires k > 0 ==> r - (k - 1) * v >= t
    ensures Take(h, r, v, t) == k
  {
    if k > 0 {
      assert k * v == (k - 1) * v + v;
      if k > 1 {
        assert (k - 1) * v == (k - 2) * v + v;
        MulMonotone(v, 0, k - 2);
        assert r >= t;
      }
      assert r >= t;
      TakeIs(h - 1, r - v, v, t, k - 1);
    }
  }

  /** Selection that must leave something leaves something, and stops only when it would not. */
  lemma {:induction false} UnderMeans(h: seq<nat>, r: int, n: nat)
    requires n <= |h| && n <= DENOMS
    ensures var c := Greedy(Under, h, r, n);
            && (r > 0 ==> Value(c, n) < r)
            && (r <= 0 ==> Value(c, n) == 0)
            && (forall i: nat | i < n :: c[i] == h[i] || r - Value(c, n) <= Amount(i))
    decreases n
  {
    hide Amount, Taken, Worth, Greedy, Value;
    GreedyNone(Under, h, r);
    if n > 0 {
      TakenMeans(Under, h[n - 1], r, n - 1);
      GreedyTop(Under, h, r, n);
      UnderMeans(h, r - Worth(Under, h[n - 1], r, n - 1), n - 1);
    }
  }

  /** Selection until nothing remains reaches the amount if there is enough, else takes everything. */
  lemma {:induction false} UntilMeans(h: seq<nat>, r: int, n: nat)
    requires n <= |h| && n <= DENOMS
    ensures var c := Greedy(Until, h, r, n);
            && (Value(h, n) >= r ==> Value(c, n) >= r)
            && (Value(h, n) < r ==> c == h[..n])
    decreases n
  {
    hide Amount, Taken, Worth, Greedy, Value;
    GreedyNone(Until, h, r);
    if n > 0 {
      TakenMeans(Until, h[n - 1], r, n - 1);
      GreedyTop(Until, h, r, n);
      ValueTop(h, n);
      UntilMeans(h, r - Worth(Until, h[n - 1], r, n - 1), n - 1);
      ValueWithin(Greedy(Until, h, r, n), h, n);
      assert h[..n] == h[..n - 1] + [h[n - 1]];
    }
  }

  /**
   * If every coin left over fits into what selection left, taking coins until nothing remains meets
   * the amount without change, or runs out.
   */
  lemma {:induction false} StuckIsExact(h: seq<nat>, r: int, n: nat, left: int)
    requires n <= |h| && n <= DENOMS && r > 0
    requires left == r - Value(Greedy(Under, h, r, n), n)
    requires forall i: nat | i < n :: Greedy(Under, h, r, n)[i] == h[i] || Amount(i) <= left
    ensures Value(Greedy(Until, h, r, n), n) <= r
    decreases n
  {
    hide Amount, Taken, Worth, Greedy, Value;
    GreedyNone(Until, h, r);
    if n > 0 {
      var w, w' := Worth(Under, h[n - 1], r, n - 1), Worth(Until, h[n - 1], r, n - 1);
      GreedyTop(Under, h, r, n);
      GreedyTop(Until, h, r, n);
      TakeOneMore(h[n - 1], r, n - 1);
      UnderMeans(h, r - w, n - 1);
      if Taken(Under, h[n - 1], r, n - 1) == h[n - 1] {
        StuckIsExact(h, r - w, n - 1, left);
      } else {
        UntilNothing(h, r - w', n - 1);
      }
    }
  }

  /** Going on until nothing remains takes at most one coin more, and only as the last. */
  lemma TakeOneMore(h: nat, r: int, d: Denom)
    requires r > 0
    ensures var k, w, w', v := Taken(Under, h, r, d), Worth(Under, h, r, d), Worth(Until, h, r, d), Amount(d);
            && r - w > 0
            && (k == h ==> w' == w)
            && (k < h ==> r - w <= v && w' == w + v)
  {
    hide Amount;
    var v := Amount(d);
    var k := Take(h, r, v, v + 1);
    TakeMeans(h, r, v, v + 1);
    assert (k - 1) * v == k * v - v;
    if k < h {
      TakeIs(h, r, v, 1, k + 1);
    } else {
      TakeIs(h, r, v, 1, k);
    }
  }

  lemma {:induction false} UntilNothing(h: seq<nat>, r: int, n: nat)
    requires n <= |h| && n <= DENOMS && r <= 0
    ensures Value(Greedy(Until, h, r, n), n) == 0
    decreases n
  {
    hide Amount, Taken, Worth, Greedy, Value;
    GreedyNone(Until, h, r);
    if n > 0 {
      GreedyTop(Until, h, r, n);
      TakenMeans(Until, h[n - 1], r, n - 1);
      UntilNothing(h, r, n - 1);
    }
  }

  /** What is lost by giving up k coins of one worth and d - k smaller ones. */
  lemma Loss(d: nat, k: nat, top: nat, v: int, u: int)
    requires k <= d && v <= u
    ensures (top - k) * v == top * v - k * v && (d - k) * v + k * v <= d * u
  {
    MulMonotone(d, v, u);
    MulDistribute(d, k, v);
    MulDistribute(top, k, v);
  }

  lemma ValueOnTop(c: seq<nat>, k: nat, n: Denom)
    requires n == |c|
    ensures Value(c + [k], n + 1) == Value(c, n) + k * Amount(n) && Number(c + [k], n + 1) == Number(c, n) + k
  {
    hide Amount;
    ValueAgrees(c + [k], c, n);
  }

  /** Some of the smaller coins given up: each is worth no more than the next denomination up. */
  lemma {:induction false} GiveUp(c: seq<nat>, d: nat, n: Denom) returns (c': seq<nat>)
    requires n <= |c| && d <= Number(c, n)
    ensures |c'| == n && Within(c', c, n) && Number(c', n) == Number(c, n) - d
    ensures Value(c', n) >= Value(c, n) - d * Amount(n)
  {
    hide Amount, Value;
    if n == 0 {
      c' := [];
      NoneGivenUp(c, d);
    } else {
      var top := c[n - 1];
      var k := if d < top then d else top;
      var rest := GiveUp(c, d - k, n - 1);
      c' := rest + [top - k];
      ValueOnTop(rest, top - k, n - 1);
      ValueTop(c, n);
      Larger(n - 1, n);
      Loss(d, k, top, Amount(n - 1), Amount(n));
    }
  }

  lemma NoneGivenUp(c: seq<nat>, d: nat)
    ensures Value([], 0) == 0 && Value(c, 0) == 0 && d * Amount(0) >= 0
  {
    MulNat(d, Amount(0));
  }

  /** Coins worth more than this many of the largest are more than this many. */
  lemma MoreThan(c: seq<nat>, k: int, n: nat)
    requires 0 < n <= |c| && n <= DENOMS && Value(c, n) > k * Amount(n - 1)
    ensures Number(c, n) > k
  {
    hide Amount, Value, Number;
    ValueAtMost(c, n);
    if Number(c, n) <= k {
      MulMonotone(Amount(n - 1), Number(c, n), k);
    }
  }

  /** Taking some of the largest coins, and from the rest of a cover as many fewer, still covers. */
  lemma Trade(c: seq<nat>, k: nat, r: int, n: nat) returns (c': seq<nat>)
    requires 0 < n <= |c| && n <= DENOMS && c[n - 1] <= k <= Number(c, n) && Value(c, n) >= r
    ensures |c'| == n - 1 && Within(c', c, n - 1)
    ensures Value(c', n - 1) >= r - k * Amount(n - 1) && Number(c', n - 1) + k == Number(c, n)
  {
    hide Amount, Value;
    ValueTop(c, n);
    c' := GiveUp(c, k - c[n - 1], n - 1);
    MulDistribute(k, c[n - 1], Amount(n - 1));
  }

  /** Selection until nothing remains covers an amount with no more coins than any others that cover it. */
  lemma {:induction false} FewestToCover(h: seq<nat>, c: seq<nat>, r: int, n: nat)
    requires n <= |h| && n <= |c| && n <= DENOMS && Within(c, h, n) && Value(c, n) >= r
    ensures Number(Greedy(Until, h, r, n), n) <= Number(c, n)
    decreases n
  {
    hide Amount, Taken, Worth, Greedy, Value;
    GreedyNone(Until, h, r);
    if n > 0 {
      var k, w := Taken(Until, h[n - 1], r, n - 1), Worth(Until, h[n - 1], r, n - 1);
      GreedyTop(Until, h, r, n);
      TakenMeans(Until, h[n - 1], r, n - 1);
      WorthIs(Until, h[n - 1], r, n - 1);
      AsManyNeeded(c, k, r, n);
      if k < h[n - 1] {
        UntilNothing(h, r - w, n - 1);
        ValueZeros(Greedy(Until, h, r - w, n - 1), n - 1);
      } else {
        var c' := Trade(c, k, r, n);
        FewestToCover(h, c', r - w, n - 1);
      }
    }
  }

  lemma AsManyNeeded(c: seq<nat>, k: nat, r: int, n: nat)
    requires 0 < n <= |c| && n <= DENOMS && Value(c, n) >= r
    requires k > 0 ==> r - k * Amount(n - 1) >= 1 - Amount(n - 1)
    ensures Number(c, n) >= k
  {
    hide Amount, Value;
    if k > 0 {
      MulDistribute(k, 1, Amount(n - 1));
      MoreThan(c, k - 1, n);
    }
  }

  // Change

  /** More coins of each denomination than the amount can use. */
  function Plenty(r: int): Counts {
    if r <= 0 then Zeros() else seq(DENOMS, _ => r)
  }

  function Change(r: int): Counts {
    Greedy(AtMost, Plenty(r), r, DENOMS)
  }

  lemma {:induction false} NumberWorth(c: seq<nat>, n: nat, i: nat)
    requires i < n <= |c| && n <= DENOMS
    ensures c[i] <= Value(c, n)
  {
    hide Amount;
    MulMonotone(c[n - 1], 1, Amount(n - 1));
    if i < n - 1 {
      NumberWorth(c, n - 1, i);
    }
  }

  /** Change is made of the fewest coins that can make it. */
  lemma FewestCoins(c: Counts)
    ensures Value(Change(Value(c, DENOMS)), DENOMS) == Value(c, DENOMS)
    ensures Number(Change(Value(c, DENOMS)), DENOMS) <= Number(c, DENOMS)
  {
    hide Greedy;
    var r := Value(c, DENOMS);
    forall i | 0 <= i < DENOMS ensures c[i] <= Plenty(r)[i] {
      NumberWorth(c, DENOMS, i);
    }
    Complete(Plenty(r), c, DENOMS);
  }

  /** Any whole number of coins can be changed exactly. */
  lemma WholeCoins(q: nat)
    ensures Value(Change(q * COIN), DENOMS) == q * COIN
  {
    hide Greedy;
    var c: Counts := Zeros()[0 := q];
    ValueUpdate(Zeros(), 0, q, DENOMS);
    ValueZeros(Zeros(), DENOMS);
    FewestCoins(c);
  }

  lemma ChangeFits(r: int)
    ensures Value(Change(r), DENOMS) <= if r < 0 then 0 else r
    ensures r <= 0 ==> Number(Change(r), DENOMS) == 0
  {
    hide Greedy;
    if r >= 0 {
      AtMostValue(Plenty(r), r, DENOMS);
    }
    if r <= 0 {
      ValueWithin(Change(r), Zeros(), DENOMS);
      ValueZeros(Zeros(), DENOMS);
    }
  }

  /** Every amount left below a denomination is less than one of it: nothing could be changed up. */
  ghost predicate Canonical(c: seq<nat>, n: nat)
    requires n <= |c| && n <= DENOMS
  {
    forall d: Denom | d < n :: Value(c, d) < Amount(d)
  }

  lemma {:induction false} CanonicalDown(c: seq<nat>, n: nat)
    requires 0 < n <= |c| && n <= DENOMS && Canonical(c, n)
    ensures Canonical(c[..n - 1], n - 1) && Value(c[..n - 1], n - 1) == Value(c, n - 1) < Amount(n - 1)
  {
    hide Amount, Value;
    forall d: nat | d <= n - 1 ensures Value(c[..n - 1], d) == Value(c, d) {
      assert c[..n - 1][..d] == c[..d];
      ValueAgrees(c[..n - 1], c, d);
    }
  }

  lemma {:induction false} ValueIsWhole(c: seq<nat>, n: nat) returns (q: nat)
    requires n <= |c| && n <= DENOMS
    ensures Value(c, n) == q * COIN
  {
    q := 0;
    if n > 0 {
      q := ValueIsWhole(c, n - 1);
      q := q + c[n - 1] * DenomInt(n - 1);
    }
  }

  /** Less than a denomination is less by at least one coin of the smallest. */
  lemma RoomBelow(c: seq<nat>, d: Denom)
    requires d <= |c| && Value(c, d) < Amount(d)
    ensures Value(c, d) + COIN <= Amount(d)
  {
    var q := ValueIsWhole(c, d);
  }

  /** Coins that cannot be changed up are what greedy selection takes, wherever there are enough of them. */
  lemma {:induction false} OnlyCanonical(h: seq<nat>, c: seq<nat>, r: int, n: nat)
    requires n <= |h| && n <= DENOMS && |c| == n && Within(c, h, n) && Canonical(c, n)
    requires Value(c, n) <= r < Value(c, n) + COIN
    ensures Greedy(AtMost, h, r, n) == c
  {
    hide Amount, Value, Take, Canonical;
    if n > 0 {
      var k, v := c[n - 1], Amount(n - 1);
      CanonicalDown(c, n);
      RoomBelow(c, n - 1);
      ValueTop(c, n);
      Rest(k, k, v);
      if k > 0 {
        Rest(k, k - 1, v);
      }
      TakeIs(h[n - 1], r, v, v, k);
      OnlyCanonical(h, c[..n - 1], r - k * v, n - 1);
    }
  }

  /** What greedy selection takes of plenty of coins cannot be changed up, and leaves less than the smallest. */
  lemma {:induction false} PlentyIsCanonical(h: seq<nat>, r: nat, n: nat)
    requires n <= |h| && n <= DENOMS && forall i | 0 <= i < n :: h[i] >= r
    ensures Canonical(Greedy(AtMost, h, r, n), n)
    ensures n > 0 ==> r < Value(Greedy(AtMost, h, r, n), n) + COIN
    decreases n
  {
    hide Amount, Value, Greedy, Taken, Worth;
    if n > 0 {
      var d := n - 1;
      var k, w := Taken(AtMost, h[d], r, d), Worth(AtMost, h[d], r, d);
      var c, rest := Greedy(AtMost, h, r, n), Greedy(AtMost, h, r - w, d);
      TakenMeans(AtMost, h[d], r, d);
      WorthIs(AtMost, h[d], r, d);
      EnoughIsLeft(h[d], k, r, d);
      AtMostValue(h, r - w, d);
      PlentyIsCanonical(h, r - w, d);
      GreedyTop(AtMost, h, r, n);
      GreedyNone(AtMost, h, r - w);
      Smallest();
      forall e: Denom | e < n ensures Value(c, e) < Amount(e) {
        SameBelow(c, rest, e);
      }
    }
  }

  lemma Smallest()
    ensures Amount(0) == COIN
  {
  }

  lemma SameBelow(c: seq<nat>, rest: seq<nat>, e: nat)
    requires e <= |rest| <= |c| && e <= DENOMS && forall i: nat | i < |rest| :: c[i] == rest[i]
    ensures Value(c, e) == Value(rest, e)
  {
    assert c[..e] == rest[..e];
    ValueAgrees(c, rest, e);
  }

  /** As many coins as the amount are never all taken, but for an amount of nothing. */
  lemma EnoughIsLeft(h: nat, k: nat, r: nat, d: Denom)
    requires k <= h && h >= r && r - k * Amount(d) >= 0
    ensures k < h || r == 0
    ensures k == h ==> r - k * Amount(d) < Amount(d)
  {
    hide Amount;
    MulMonotone(k, 2, Amount(d));
  }

  /** Change is the one collection that cannot be changed up and leaves less than the smallest coin. */
  lemma ChangeIs(c: Counts, r: nat)
    ensures Change(r) == c <==> Canonical(c, DENOMS) && Value(c, DENOMS) <= r < Value(c, DENOMS) + COIN
  {
    hide Greedy, Amount, Value, Canonical;
    ChangeFits(r);
    PlentyIsCanonical(Plenty(r), r, DENOMS);
    if Canonical(c, DENOMS) && Value(c, DENOMS) <= r < Value(c, DENOMS) + COIN {
      forall i | 0 <= i < DENOMS ensures c[i] <= Plenty(r)[i] {
        NumberWorth(c, DENOMS, i);
      }
      OnlyCanonical(Plenty(r), c, r, DENOMS);
    }
  }

  /** Taking some coins out of change leaves the change of what is left. */
  lemma ChangeOfRest(r: nat, g: Counts)
    requires Within(g, Change(r), DENOMS)
    ensures Value(g, DENOMS) <= r && Change(r - Value(g, DENOMS)) == Without(Change(r), g, DENOMS)
  {
    hide Greedy, Amount, Value, Canonical;
    var c := Change(r);
    ChangeIs(c, r);
    ValueWithin(g, c, DENOMS);
    ValueWithout(c, g, DENOMS);
    LessIsCanonical(c, g);
    ChangeIs(Without(c, g, DENOMS), r - Value(g, DENOMS));
  }

  lemma LessIsCanonical(c: Counts, g: Counts)
    requires Within(g, c, DENOMS) && Canonical(c, DENOMS)
    ensures Canonical(Without(c, g, DENOMS), DENOMS)
  {
    hide Amount, Value;
    forall d: Denom ensures Value(Without(c, g, DENOMS), d) < Amount(d) {
      ValueWithin(Without(c, g, DENOMS), c, d);
    }
  }

  /** Too few coins of each denomination to make one of the next. */
  lemma {:induction false} FewOfEach(c: seq<nat>, n: nat)
    requires n <= |c| && n <= DENOMS && forall d: Denom | 0 < d < n :: c[d - 1] < Step(d)
    ensures Canonical(c, n)
  {
    hide Amount, Value, Step;
    forall d: Denom | d < n ensures Value(c, d) < Amount(d) {
      FewBelow(c, d);
    }
  }

  lemma {:induction false} FewBelow(c: seq<nat>, d: Denom)
    requires d <= |c| && forall e: Denom | 0 < e <= d :: c[e - 1] < Step(e)
    ensures Value(c, d) < Amount(d)
  {
    hide Amount, Step;
    if d > 0 {
      FewBelow(c, d - 1);
      Chain(d);
      var v := Amount(d - 1);
      MulMonotone(v, c[d - 1] + 1, Step(d));
      assert v * (c[d - 1] + 1) == c[d - 1] * v + v && v * Step(d) == Step(d) * v;
    }
  }
}
