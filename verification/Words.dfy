/** Numbers written in 32-bit words, the least significant first, and the bit operations on a word. */
module Words {
  import opened Arithmetic

  const WORD := 0x1_0000_0000

  /** An unsigned 32-bit integer. */
  type Word = w: int | 0 <= w < WORD

  /** An unsigned 64-bit integer. */
  const DWORD := 0x1_0000_0000_0000_0000

  /** The worth of the word at a place. */
  function Place(n: nat): (p: nat)
    ensures p > 0
  {
    if n == 0 then 1 else WORD * Place(n - 1)
  }

  function Val(s: seq<Word>): nat {
    if s == [] then 0
    else
      MulNat(s[|s| - 1], Place(|s| - 1));
      Val(s[..|s| - 1]) + s[|s| - 1] * Place(|s| - 1)
  }

  lemma ValNone()
    ensures Val([]) == 0
  {
  }

  /** One place and the next. */
  lemma PlaceNext(n: nat)
    ensures Place(0) == 1 && Place(n + 1) == WORD * Place(n)
  {
  }

  lemma {:induction false} PlaceIsPow2(n: nat)
    ensures Place(n) == Pow2(32 * n)
  {
    if n > 0 {
      PlaceIsPow2(n - 1);
      Pow2Add(32, 32 * (n - 1));
      assert 32 + 32 * (n - 1) == 32 * n;
      Pow2Of32();
    }
  }

  lemma Pow2Of32()
    ensures Pow2(32) == WORD && Pow2(24) == 0x100_0000 && Pow2(23) == 0x80_0000 && Pow2(16) == 0x1_0000
    ensures Pow2(8) == 0x100
  {
    assert Pow(2, 4) == 16;
    PowAdd(2, 4, 4);
    PowAdd(2, 8, 8);
    PowAdd(2, 16, 8);
    PowAdd(2, 16, 16);
    assert Pow(2, 24) == 2 * Pow(2, 23);
  }

  lemma PlaceAdd(m: nat, n: nat)
    ensures Place(m + n) == Place(m) * Place(n)
  {
    PlaceIsPow2(m);
    PlaceIsPow2(n);
    PlaceIsPow2(m + n);
    Pow2Add(32 * m, 32 * n);
    assert 32 * m + 32 * n == 32 * (m + n);
  }

  lemma {:induction false} ValBound(s: seq<Word>)
    ensures Val(s) < Place(|s|)
  {
    if s != [] {
      var n := |s| - 1;
      ValBound(s[..n]);
      MulMonotone(Place(n), s[n], WORD - 1);
      assert (WORD - 1) * Place(n) == WORD * Place(n) - Place(n);
    }
  }

  /** One word more at the top. */
  lemma ValPrefix(s: seq<Word>, i: nat)
    requires i < |s|
    ensures Val(s[..i + 1]) == Val(s[..i]) + s[i] * Place(i)
  {
    assert s[..i + 1][..i] == s[..i];
  }

  lemma {:induction false} ValUpdate(s: seq<Word>, k: nat, x: Word)
    requires k < |s|
    ensures Val(s[k := x]) == Val(s) + (x - s[k]) * Place(k)
  {
    var n := |s| - 1;
    if k == n {
      assert s[k := x][..n] == s[..n];
      MulDistribute(x, s[k], Place(k));
    } else {
      assert s[k := x][..n] == s[..n][k := x];
      ValUpdate(s[..n], k, x);
    }
  }

  lemma {:induction false} ValSplit(s: seq<Word>, k: nat)
    requires k <= |s|
    ensures Val(s) == Val(s[..k]) + Val(s[k..]) * Place(k)
  {
    if k == |s| {
      assert s[..k] == s && s[k..] == [];
    } else {
      var n := |s| - 1;
      ValSplit(s[..n], k);
      assert s[..n][..k] == s[..k] && s[..n][k..] == s[k..][..n - k];
      PlaceAdd(n - k, k);
      MulAssociate(s[n], Place(n - k), Place(k));
      MulDistribute(Val(s[k..][..n - k]), s[n] * Place(n - k), Place(k));
    }
  }

  lemma {:induction false} ValZeros(s: seq<Word>)
    ensures (forall i | 0 <= i < |s| :: s[i] == 0) <==> Val(s) == 0
  {
    if s != [] {
      var n := |s| - 1;
      ValZeros(s[..n]);
      MulNat(s[n], Place(n));
      if Val(s) == 0 {
        forall i | 0 <= i < |s| ensures s[i] == 0 {
          if i < n { assert s[..n][i] == 0; }
        }
      }
    }
  }

  /** The order of numbers is that of the highest word in which they differ. */
  lemma ValLess(s: seq<Word>, t: seq<Word>, i: nat)
    requires |s| == |t| && i < |s| && s[i] < t[i] && s[i + 1..] == t[i + 1..]
    ensures Val(s) < Val(t)
  {
    hide Place, Val;
    ValSplit(s, i + 1);
    ValSplit(t, i + 1);
    ValPrefix(s, i);
    ValPrefix(t, i);
    ValBound(s[..i]);
    Below(Val(s[..i]), s[i], t[i], Place(i));
  }

  /** The low half and the carry of a sum or product of words. */
  lemma Carry(n: nat, i: nat)
    ensures n * Place(i) == (n % WORD) * Place(i) + (n / WORD) * Place(i + 1)
  {
    var q, r := n / WORD, n % WORD;
    assert n == q * WORD + r;
    MulDistribute(q * WORD, r, Place(i));
    MulAssociate(q, WORD, Place(i));
  }

  // Bits

  /** Bitwise or. */
  function Or(x: nat, y: nat): (r: nat) {
    if x == 0 && y == 0 then 0
    else (if x % 2 == 1 || y % 2 == 1 then 1 else 0) + 2 * Or(x / 2, y / 2)
  }

  lemma {:induction false} OrZero(x: nat)
    ensures Or(x, 0) == x && Or(0, x) == x
  {
    if x > 0 {
      OrZero(x / 2);
    }
  }

  /** Numbers without a bit in common. */
  lemma {:induction false} OrDisjoint(x: nat, y: nat, s: nat)
    requires x < Pow2(s)
    ensures Or(x, y * Pow2(s)) == x + y * Pow2(s) == Or(y * Pow2(s), x)
  {
    if s == 0 {
      OrZero(y);
    } else {
      assert Pow2(s) == 2 * Pow2(s - 1);
      MulAssociate(y, 2, Pow2(s - 1));
      OrDisjoint(x / 2, y, s - 1);
    }
  }

  /** Whether a bit is set. */
  predicate Bit(w: nat, b: nat) { w / Pow2(b) % 2 == 1 }

  /** Shifts within a word, as unsigned shifts do it. */
  function Shl(w: Word, s: nat): Word { w * Pow2(s) % WORD }

  function Shr(w: Word, s: nat): Word { Div(w, Pow2(s)) }

  /** A word shifted left in two halves: what stays and what goes to the next word. */
  lemma ShiftedWord(w: Word, s: nat)
    requires 0 < s < 32
    ensures w * Pow2(s) == Shr(w, 32 - s) * WORD + Shl(w, s)
    ensures Shr(w, 32 - s) < Pow2(s)
    ensures Shl(w, s) == (w % Pow2(32 - s)) * Pow2(s)
  {
    hide Pow2;
    Pow2Add(s, 32 - s);
    Pow2Of32();
    Halves(w, Pow2(s), Pow2(32 - s));
  }

  lemma Halves(w: Word, t: nat, u: nat)
    requires t > 0 && u > 0 && t * u == WORD
    ensures w * t == w / u * WORD + w * t % WORD
    ensures w / u < t
    ensures w * t % WORD == w % u * t
  {
    var q, r := w / u, w % u;
    assert w == q * u + r;
    assert w * t == q * WORD + r * t by {
      MulDistribute(q * u, r, t);
      MulAssociate(q, u, t);
    }
    assert 0 <= r * t < WORD by {
      Below(0, r, u, t);
    }
    DivModIs(w * t, WORD, q, r * t);
    assert q < t by {
      if q >= t {
        MulMonotone(u, t, q);
      }
    }
  }

  /** A bit of half a number is the next bit of the number. */
  lemma BitOfHalf(w: nat, p: nat)
    ensures Bit(w, p + 1) <==> Bit(w / 2, p)
    ensures Bit(w, 0) <==> w % 2 == 1
  {
    DivDiv(w, 2, Pow2(p));
    assert Pow2(p + 1) == 2 * Pow2(p);
  }
}
