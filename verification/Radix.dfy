/** Numbers written in digits, the most significant first, and how many digits another base needs. */
module Radix {
  import opened Arithmetic

  /** The number that digits stand for. */
  function Num(s: seq<nat>, base: nat): nat {
    if s == [] then 0
    else
      MulNat(Num(s[..|s| - 1], base), base);
      Num(s[..|s| - 1], base) * base + s[|s| - 1]
  }

  lemma NumNone(base: nat)
    ensures Num([], base) == 0
  {
  }

  predicate AreDigits(s: seq<nat>, base: nat) {
    forall i | 0 <= i < |s| :: s[i] < base
  }

  /** The digits of a number, without a leading zero. */
  function Digits(n: nat, base: nat): (s: seq<nat>)
    requires base > 1
    ensures AreDigits(s, base) && (s != [] ==> s[0] != 0)
  {
    if n == 0 then []
    else
      DivSmaller(n, base);
      Digits(n / base, base) + [n % base]
  }

  lemma DivSmaller(n: nat, base: nat)
    requires n > 0 && base > 1
    ensures 0 <= n / base < n
    ensures n < base ==> n / base == 0 && n % base == n
  {
    DivAtMost(n, base);
    var q := n / base;
    if q > 0 {
      MulStrict(q, 1, base);
    }
    if n < base {
      DivModIs(n, base, 0, n);
    }
  }

  lemma NumOneMore(s: seq<nat>, d: nat, base: nat)
    ensures Num(s + [d], base) == Num(s, base) * base + d
  {
    assert (s + [d])[..|s|] == s;
  }

  lemma LastDigit(n: nat, base: nat) returns (q: nat, r: nat)
    requires n > 0 && base > 1
    ensures Digits(n, base) == Digits(q, base) + [r] && n == q * base + r && q < n
  {
    DivSmaller(n, base);
    q, r := Div(n, base), n % base;
  }

  lemma {:induction false} NumOfDigits(n: nat, base: nat)
    requires base > 1
    ensures Num(Digits(n, base), base) == n
  {
    if n > 0 {
      hide Digits, Num;
      var q, r := LastDigit(n, base);
      NumOfDigits(q, base);
      NumOneMore(Digits(q, base), r, base);
    }
  }

  /** Digits without a leading zero are the digits of their number. */
  lemma {:induction false} DigitsOfNum(s: seq<nat>, base: nat)
    requires base > 1 && AreDigits(s, base) && (s != [] ==> s[0] != 0)
    ensures Digits(Num(s, base), base) == s
  {
    if s != [] {
      var t, d := s[..|s| - 1], s[|s| - 1];
      DigitsOfNum(t, base);
      DivModIs(Num(s, base), base, Num(t, base), d);
      MulNat(Num(t, base), base);
      if t != [] {
        NumPositive(t, base);
      }
      assert s == t + [d];
    }
  }

  lemma {:induction false} NumPositive(s: seq<nat>, base: nat)
    requires base > 0 && s != [] && s[0] != 0
    ensures Num(s, base) > 0
  {
    if |s| > 1 {
      NumPositive(s[..|s| - 1], base);
      MulNat(Num(s[..|s| - 1], base), base);
    }
  }

  lemma {:induction false} NumBound(s: seq<nat>, base: nat)
    requires base > 0 && AreDigits(s, base)
    ensures Num(s, base) < Pow(base, |s|)
  {
    if s != [] {
      var n := |s| - 1;
      NumBound(s[..n], base);
      Below(s[n], Num(s[..n], base), Pow(base, n), base);
    }
  }

  lemma {:induction false} NumAppend(s: seq<nat>, t: seq<nat>, base: nat)
    ensures Num(s + t, base) == Num(s, base) * Pow(base, |t|) + Num(t, base)
  {
    if t == [] {
      assert s + t == s;
    } else {
      var u := t[..|t| - 1];
      assert (s + t)[..|s + t| - 1] == s + u;
      NumAppend(s, u, base);
      MulDistribute(Num(s, base) * Pow(base, |u|), Num(u, base), base);
      MulAssociate(Num(s, base), base, Pow(base, |u|));
    }
  }

  lemma {:induction false} NumZeros(s: seq<nat>, base: nat)
    requires forall i | 0 <= i < |s| :: s[i] == 0
    ensures Num(s, base) == 0
  {
    if s != [] {
      NumZeros(s[..|s| - 1], base);
    }
  }

  /** Leading zeros do not matter. */
  lemma NumSkip(s: seq<nat>, k: nat, base: nat)
    requires k <= |s| && forall i | 0 <= i < k :: s[i] == 0
    ensures Num(s, base) == Num(s[k..], base)
  {
    assert s == s[..k] + s[k..];
    NumAppend(s[..k], s[k..], base);
    NumZeros(s[..k], base);
  }

  /** What follows the leading zeros of digits is the digits of their number. */
  lemma Canonical(s: seq<nat>, k: nat, base: nat)
    requires base > 1 && AreDigits(s, base) && k <= |s| && forall i | 0 <= i < k :: s[i] == 0
    requires k < |s| ==> s[k] != 0
    ensures s[k..] == Digits(Num(s, base), base)
  {
    NumSkip(s, k, base);
    DigitsOfNum(s[k..], base);
  }

  // How many digits suffice

  lemma {:induction false} PowPow(b: nat, m: nat, n: nat)
    ensures Pow(Pow(b, m), n) == Pow(b, m * n)
  {
    if n > 0 {
      PowPow(b, m, n - 1);
      PowAdd(b, m, m * (n - 1));
      assert m + m * (n - 1) == m * n;
    }
  }

  lemma {:induction false} PowStrict(x: nat, y: nat, n: nat)
    requires x < y && n > 0
    ensures Pow(x, n) < Pow(y, n)
  {
    if n == 1 {
      assert Pow(x, 1) == x * Pow(x, 0) && Pow(y, 1) == y * Pow(y, 0);
    } else {
      PowStrict(x, y, n - 1);
      MulMonotone(x, Pow(x, n - 1), Pow(y, n - 1));
      MulStrict(Pow(y, n - 1), x, y);
    }
  }

  lemma {:induction false} PowWeak(x: nat, y: nat, n: nat)
    requires x <= y
    ensures Pow(x, n) <= Pow(y, n)
  {
    if n > 0 {
      PowWeak(x, y, n - 1);
      MulMonotone(x, Pow(x, n - 1), Pow(y, n - 1));
      MulMonotone(Pow(y, n - 1), x, y);
    }
  }

  lemma PowSwap(b: nat, m: nat, n: nat)
    ensures Pow(Pow(b, m), n) == Pow(Pow(b, n), m)
  {
    PowPow(b, m, n);
    PowPow(b, n, m);
    assert m * n == n * m;
  }

  lemma PowersCompare(a: nat, p: nat, b: nat, q: nat, n: nat, k: nat)
    requires b > 0 && Pow(a, p) <= Pow(b, q) && q * n <= p * k
    ensures Pow(Pow(a, n), p) <= Pow(Pow(b, k), p)
  {
    hide Pow;
    PowSwap(a, n, p);
    PowWeak(Pow(a, p), Pow(b, q), n);
    PowPow(b, q, n);
    PowMonotone(b, q * n, p * k);
    PowPow(b, p, k);
    PowSwap(b, k, p);
  }

  /** If a^p is at most b^q, then n digits in base a take no more than k in base b, for p k at least q n. */
  lemma EnoughDigits(a: nat, p: nat, b: nat, q: nat, n: nat, k: nat)
    requires a > 0 && b > 0 && p > 0 && Pow(a, p) <= Pow(b, q) && q * n <= p * k
    ensures Pow(a, n) <= Pow(b, k)
  {
    PowersCompare(a, p, b, q, n, k);
    SameOrder(Pow(a, n), Pow(b, k), p);
  }

  lemma SameOrder(x: nat, y: nat, p: nat)
    requires p > 0 && Pow(x, p) <= Pow(y, p)
    ensures x <= y
  {
    hide Pow;
    if y < x {
      PowStrict(y, x, p);
    }
  }

  lemma PowProduct(b: nat, m: nat, x: nat, n: nat, y: nat)
    requires Pow(b, m) == x && Pow(b, n) == y
    ensures Pow(b, m + n) == x * y
  {
    PowAdd(b, m, n);
  }

  lemma SmallPowers(b: nat)
    ensures Pow(b, 1) == b && Pow(b, 2) == b * b && Pow(b, 3) == b * (b * b)
  {
  }

  const P4 := 11316496
  const P8 := 128063081718016
  const P16 := 16400152899115243850138976256
  const P32 := 268965015114358137726910587140455987105619365599731777536
  const P64 := P32 * P32
  const Q8 := 18446744073709551616
  const Q16 := 340282366920938463463374607431768211456
  const Q20 := 1461501637330902918203684832716283019655932542976
  const Q32 := 115792089237316195423570985008687907853269984665640564039457584007913129639936

  lemma PowersOf58()
    ensures Pow(58, 11) == 24986644000165537792 && Pow(58, 71) == P64 * 2207984167552
  {
    hide Pow;
    SmallPowers(58);
    PowProduct(58, 2, 3364, 2, 3364);
    PowProduct(58, 4, P4, 4, P4);
    PowProduct(58, 8, P8, 3, 195112);
    PowProduct(58, 4, P4, 3, 195112);
    PowProduct(58, 8, P8, 8, P8);
    PowProduct(58, 16, P16, 16, P16);
    PowProduct(58, 32, P32, 32, P32);
    PowProduct(58, 64, P64, 7, 2207984167552);
  }

  lemma PowersOf256()
    ensures Pow(256, 8) == Q8 && Pow(256, 52) == Q32 * Q20
  {
    hide Pow;
    SmallPowers(256);
    PowProduct(256, 2, 65536, 2, 65536);
    PowProduct(256, 4, 4294967296, 4, 4294967296);
    PowProduct(256, 8, Q8, 8, Q8);
    PowProduct(256, 16, Q16, 16, Q16);
    PowProduct(256, 16, Q16, 4, 4294967296);
    PowProduct(256, 32, Q32, 20, Q20);
  }

  /** 256^8 is at most 58^11, and 58^71 at most 256^52. */
  lemma Logarithms()
    ensures Pow(256, 8) <= Pow(58, 11)
    ensures Pow(58, 71) <= Pow(256, 52)
  {
    hide Pow;
    PowersOf58();
    PowersOf256();
  }
}
