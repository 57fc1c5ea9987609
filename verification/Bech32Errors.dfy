/**
 * What a Bech32 checksum detects: any one changed value at any length, and any two or three within
 * 1023 characters. BIP 173, section "Checksum design".
 */
module Bech32Errors {
  import opened Bech32
  import opened Bech32Field
  import opened Bech32Roots
  import opened Bech32Strings
  import opened Xor32

  // One error

  /** The difference of two lists that differ in one value. */
  lemma OneDifference(v: Data, i: nat, x: bv8)
    requires i < |v|
    ensures XorData(v, v[i := x]) == Zeros(i) + [v[i] ^ x] + Zeros(|v| - i - 1)
  {
    var w := v[i := x];
    forall k | 0 <= k < |v| && k != i ensures v[k] ^ w[k] == 0 {
      XorSelf(v[k]);
    }
  }

  lemma XorSelf(a: bv8)
    ensures a ^ a == 0
  {
  }

  lemma XorZero(a: bv8, b: bv8)
    ensures a ^ b == 0 ==> a == b
  {
  }

  lemma XorFive(a: bv8, b: bv8)
    requires a < 32 && b < 32
    ensures a ^ b < 32
  {
  }

  /** Two lists with the same checksum differ by a list whose checksum, from zero, is zero. */
  lemma SameChecksum(v: Data, w: Data)
    requires |v| == |w| && Poly(1, v) == Poly(1, w)
    ensures Poly(0, XorData(v, w)) == 0
  {
    hide Poly, Xor;
    PolyLinear(1, 1, v, w);
    XorLaws(1);
    XorLaws(Poly(1, v));
  }

  /** After zeros, a value is where the checksum starts. */
  lemma StartsAt(n: nat, e: bv8, rest: Data)
    requires e < 32
    ensures Poly(0, Zeros(n) + [e] + rest) == Poly(e as bv32, rest)
  {
    hide Step;
    PolyAppend(0, Zeros(n) + [e], rest);
    PolyAppend(0, Zeros(n), [e]);
    PolyOfZeros(n);
    StepFromZero(e);
  }

  lemma StepFromZero(e: bv8)
    requires e < 32
    ensures Step(0, e) == e as bv32
  {
    hide Step;
    StepSmall(0, e);
    XorLaws(e as bv32);
  }

  /** Changing any one value of a list that verifies, however long, makes it fail. */
  lemma DetectsOneError(v: Data, i: nat, x: bv8)
    requires AllFive(v) && i < |v| && x < 32 && x != v[i] && Poly(1, v) == 1
    ensures Poly(1, v[i := x]) != 1
  {
    hide Poly, XorData;
    var e := v[i] ^ x;
    XorZero(v[i], x);
    if Poly(1, v[i := x]) == 1 {
      XorFive(v[i], x);
      SameChecksum(v, v[i := x]);
      OneDifference(v, i, x);
      StartsAt(i, e, Zeros(|v| - i - 1));
      NonZero(e);
      PolyInjective(e as bv32, |v| - i - 1);
    }
  }

  lemma NonZero(e: bv8)
    ensures e < 32 ==> (e as bv32) < BITS_30
    ensures e as bv32 == 0 ==> e == 0
  {
  }

  // Several errors

  /** A list that leaves the checksum at zero is a multiple of the generator, so it has its roots. */
  lemma RootOf(t: nat, v: Data)
    requires (t == 24 || t == 25 || t == 26) && AllFive(v) && Poly(0, v) == 0
    ensures Eval(t, 0, v) == 0
  {
    hide Poly, Eval, XorData, Multiple, Ups;
    var q := PolyDivides(0, v);
    NoRest(v, q);
    EvalMultiple(t, q);
    EvalAppend(t, 0, Zeros(6), v);
    EvalZeros(t, 0, 6);
    UpsInjective(t * 6, 0);
  }

  lemma NoRest(v: Data, q: Data)
    requires |q| == |v| && Groups(0) + v == XorData(Multiple(q), WithRest(|v|, 0))
    ensures Zeros(6) + v == Multiple(q)
  {
    hide Plus, XorData;
    assert Groups(0) == Zeros(6);
    forall i: nat | i < |v| + 6 ensures (Zeros(6) + v)[i] == Multiple(q)[i] {
      XorDataAt(Multiple(q), WithRest(|v|, 0), i);
      Three(Multiple(q)[i], 0, 0);
    }
  }

  /** One more value, after zeros. */
  lemma EvalNext(t: nat, e: Element, n: nat, b: bv8)
    ensures t * (n + 1) >= 0 && Eval(t, e, Zeros(n) + [b]) == Add(Ups(t * (n + 1), e), Embed(b))
  {
    hide Ups, Eval, Add, Embed;
    EvalAppend(t, e, Zeros(n), [b]);
    EvalZeros(t, e, n);
    EvalOne(t, Ups(t * n, e), b);
    UpsMore(t, t * n, e);
    assert t * (n + 1) == t * n + t;
  }

  /** The values of up to three errors, and the zeros behind them, in powers of y. */
  lemma ThreeValues(t: nat, i: nat, a: bv8, d: nat, b: bv8, f: nat, c: bv8, rest: nat)
    requires Eval(t, 0, Zeros(i) + [a] + (Zeros(d) + [b]) + (Zeros(f) + [c]) + Zeros(rest)) == 0
    ensures t * (d + f + 2) >= 0 && t * (f + 1) >= 0
    ensures Add(Add(Ups(t * (d + f + 2), Embed(a)), Ups(t * (f + 1), Embed(b))), Embed(c)) == 0
  {
    hide Ups, Eval, Add, Embed;
    var v1 := Zeros(i) + [a];
    var v2 := v1 + (Zeros(d) + [b]);
    var v3 := v2 + (Zeros(f) + [c]);
    EvalNext(t, 0, i, a);
    UpsInjective(t * (i + 1), 0);
    AddLaws(Embed(a), 0);
    EvalAppend(t, 0, v1, Zeros(d) + [b]);
    EvalNext(t, Embed(a), d, b);
    EvalAppend(t, 0, v2, Zeros(f) + [c]);
    var e := Add(Ups(t * (d + 1), Embed(a)), Embed(b));
    EvalNext(t, e, f, c);
    UpsAdds(t * (f + 1), Ups(t * (d + 1), Embed(a)), Embed(b));
    UpsMore(t * (f + 1), t * (d + 1), Embed(a));
    assert t * (f + 1) + t * (d + 1) == t * (d + f + 2);
    EvalAppend(t, 0, v3, Zeros(rest));
    EvalZeros(t, Eval(t, 0, v3), rest);
    UpsInjective(t * rest, Eval(t, 0, v3));
  }

  /** An element that does not change when another power of y is taken out of it. */
  lemma Unmoved(k: nat, u: Element)
    requires 0 < k < 1023 && Add(Ups(k, u), u) == 0
    ensures u == 0
  {
    hide Ups, Add;
    AddLaws(Ups(k, u), u);
    Period(k, u);
  }

  /** Two sums that are both zero: the difference is too. */
  lemma Difference(u: Element, w: Element, u': Element, w': Element, c: Element)
    requires Add(Add(u, w), c) == 0 && Add(Add(u', w'), c) == 0
    ensures Add(u', u) == Add(w', w)
  {
  }

  /** An element that two different powers of y take to the same place is zero. */
  lemma SamePlace(m: nat, n: nat, x: Element)
    requires n < m < 1023 + n && Ups(m, x) == Ups(n, x)
    ensures x == 0
  {
    hide Ups, Add;
    var d := Add(Ups(m - n, x), x);
    UpsMore(n, m - n, x);
    UpsAdds(n, Ups(m - n, x), x);
    AddLaws(Ups(n, x), 0);
    assert Ups(n, d) == 0;
    UpsInjective(n, d);
    Unmoved(m - n, x);
  }

  /** What is left of the first two values is taken to the same place by the two powers. */
  lemma Eliminate(m: nat, n: nat, u: Element, w: Element, c: Element)
    requires Add(Add(u, w), c) == 0
    requires Add(Add(Ups(m, u), Ups(n, w)), c) == 0
    requires Add(Add(Ups(m, Ups(m, u)), Ups(n, Ups(n, w))), c) == 0
    ensures Add(Ups(m, u), u) == Add(Ups(n, w), w)
    ensures Ups(m, Add(Ups(m, u), u)) == Ups(n, Add(Ups(m, u), u))
  {
    hide Ups, Add;
    Difference(u, w, Ups(m, u), Ups(n, w), c);
    Difference(Ups(m, u), Ups(n, w), Ups(m, Ups(m, u)), Ups(n, Ups(n, w)), c);
    UpsAdds(m, Ups(m, u), u);
    UpsAdds(n, Ups(n, w), w);
  }

  /** Three values that vanish at three consecutive powers of y are zero. */
  lemma Vanish(m: nat, n: nat, u: Element, w: Element, c: Element)
    requires 0 < n < m < 1023
    requires Add(Add(u, w), c) == 0
    requires Add(Add(Ups(m, u), Ups(n, w)), c) == 0
    requires Add(Add(Ups(m, Ups(m, u)), Ups(n, Ups(n, w))), c) == 0
    ensures u == 0 && w == 0 && c == 0
  {
    hide Ups, Add;
    Eliminate(m, n, u, w, c);
    SamePlace(m, n, Add(Ups(m, u), u));
    Unmoved(m, u);
    Unmoved(n, w);
    NothingLeft(c);
  }

  lemma NothingLeft(c: Element)
    ensures Add(Add(0, 0), c) == c
  {
  }

  lemma ThreeDifferences(v: Data, i: nat, x: bv8, j: nat, y: bv8, k: nat, z: bv8)
    requires i < j < k < |v|
    ensures XorData(v, v[i := x][j := y][k := z]) ==
            Zeros(i) + [v[i] ^ x] + (Zeros(j - i - 1) + [v[j] ^ y]) + (Zeros(k - j - 1) + [v[k] ^ z]) +
            Zeros(|v| - k - 1)
  {
    var w := v[i := x][j := y][k := z];
    forall l | 0 <= l < |v| && l != i && l != j && l != k ensures v[l] ^ w[l] == 0 {
      XorSelf(v[l]);
    }
  }

  /** Powers at one place more: the same power once more. */
  lemma NextPower(t: nat, m: nat, a: Element)
    ensures t * m >= 0 && (t + 1) * m >= 0 && Ups((t + 1) * m, a) == Ups(m, Ups(t * m, a))
  {
    hide Ups;
    UpsMore(m, t * m, a);
    assert (t + 1) * m == t * m + m;
  }

  /** Differences in three places, less than 1023 apart, that leave the checksum at zero are none. */
  lemma NoThree(i: nat, a: bv8, d: nat, b: bv8, f: nat, c: bv8, rest: nat)
    requires a < 32 && b < 32 && c < 32 && d + f + 2 < 1023
    requires Poly(0, Zeros(i) + [a] + (Zeros(d) + [b]) + (Zeros(f) + [c]) + Zeros(rest)) == 0
    ensures a == 0 && b == 0 && c == 0
  {
    hide Poly, Ups, Eval, Embed, Add;
    var v := Zeros(i) + [a] + (Zeros(d) + [b]) + (Zeros(f) + [c]) + Zeros(rest);
    RootOf(24, v);
    RootOf(25, v);
    RootOf(26, v);
    ThreeValues(24, i, a, d, b, f, c, rest);
    ThreeValues(25, i, a, d, b, f, c, rest);
    ThreeValues(26, i, a, d, b, f, c, rest);
    var m, n, p, q := d + f + 2, f + 1, Embed(a), Embed(b);
    NextPower(24, m, p);
    NextPower(25, m, p);
    NextPower(24, n, q);
    NextPower(25, n, q);
    Vanish(m, n, Ups(24 * m, p), Ups(24 * n, q), Embed(c));
    UpsInjective(24 * m, p);
    UpsInjective(24 * n, q);
    EmbedInjective(a);
    EmbedInjective(b);
    EmbedInjective(c);
  }

  /**
   * Changing up to three values, less than 1023 places apart, of a list that verifies, however long,
   * makes it fail.
   */
  lemma DetectsThreeErrors(v: Data, i: nat, x: bv8, j: nat, y: bv8, k: nat, z: bv8)
    requires AllFive(v) && i < j < k < |v| && k - i < 1023
    requires x < 32 && y < 32 && z < 32 && Poly(1, v) == 1
    requires x != v[i] || y != v[j] || z != v[k]
    ensures Poly(1, v[i := x][j := y][k := z]) != 1
  {
    hide Poly, XorData;
    var w := v[i := x][j := y][k := z];
    XorZero(v[i], x);
    XorZero(v[j], y);
    XorZero(v[k], z);
    if Poly(1, w) == 1 {
      SameChecksum(v, w);
      ThreeDifferences(v, i, x, j, y, k, z);
      XorFive(v[i], x);
      XorFive(v[j], y);
      XorFive(v[k], z);
      NoThree(i, v[i] ^ x, j - i - 1, v[j] ^ y, k - j - 1, v[k] ^ z, |v| - k - 1);
    }
  }

  /** So does changing two. */
  lemma DetectsTwoErrors(v: Data, i: nat, x: bv8, j: nat, y: bv8)
    requires AllFive(v) && i < j < |v| && j - i < 1023
    requires x < 32 && x != v[i] && y < 32 && y != v[j] && Poly(1, v) == 1
    ensures Poly(1, v[i := x][j := y]) != 1
  {
    hide Poly;
    if j - i > 1 {
      assert v[i := x][j := y] == v[i := x][i + 1 := v[i + 1]][j := y];
      DetectsThreeErrors(v, i, x, i + 1, v[i + 1], j, y);
    } else if i > 0 {
      assert v[i := x][j := y] == v[i - 1 := v[i - 1]][i := x][j := y];
      DetectsThreeErrors(v, i - 1, v[i - 1], i, x, j, y);
    } else if j + 1 < |v| {
      assert v[i := x][j := y] == v[i := x][j := y][j + 1 := v[j + 1]];
      DetectsThreeErrors(v, i, x, j, y, j + 1, v[j + 1]);
    } else {
      TooShort(v);
    }
  }

  /** Two values alone never verify. */
  lemma TooShort(v: Data)
    requires |v| == 2 && AllFive(v)
    ensures Poly(1, v) != 1
  {
    hide Step;
    var c := Step(1, v[0]);
    StepSmall(1, v[0]);
    NearOne(v[0]);
    StepSmall(c, v[1]);
    NearOne2(c, v[1]);
    assert Poly(1, v) == Poly(c, v[1..]) && v[1..] == [v[1]];
    assert Poly(c, [v[1]]) == Poly(Step(c, v[1]), []);
  }

  lemma NearOne(a: bv8)
    requires a < 32
    ensures 32 <= Xor(1 << 5, a as bv32) < 64
  {
  }

  lemma NearOne2(c: bv32, b: bv8)
    requires 32 <= c < 64 && b < 32
    ensures Xor(c << 5, b as bv32) != 1
  {
  }

  // Whole strings

  lemma AllValues(t: Text)
    requires NO_VALUE !in Values(t)
    ensures AllFive(Values(t))
  {
    hide ValueOf;
    forall i | 0 <= i < |t| ensures Values(t)[i] < 32 {
      assert Values(t)[i] in Values(t);
    }
  }

  lemma {:induction false} SameSeparator(s: Text, i: nat, c: bv8)
    requires LastSeparator(s) < i < |s| && c != SEPARATOR
    ensures LastSeparator(s[i := c]) == LastSeparator(s)
  {
    if i < |s| - 1 {
      assert s[i := c][..|s| - 1] == s[..|s| - 1][i := c];
      SameSeparator(s[..|s| - 1], i, c);
    } else {
      assert s[i := c][..|s| - 1] == s[..|s| - 1];
    }
  }

  /** A changed character after the separator changes one value, and nothing else. */
  lemma ChangedLetter(s: Text, i: nat, c: bv8)
    requires 0 <= LastSeparator(s) < i < |s| && c != SEPARATOR
    ensures var p, s' := LastSeparator(s), s[i := c];
            && LastSeparator(s') == p && s'[..p] == s[..p]
            && Values(s'[p + 1..]) == Values(s[p + 1..])[i - p - 1 := ValueOf(c)]
  {
    hide ValueOf, LastSeparator;
    SameSeparator(s, i, c);
  }

  /** A wrong letter in the data part of a string that decodes makes it fail to decode. */
  lemma DetectsWrongLetter(s: Text, i: nat, c: bv8)
    requires Decoded(s) != FAILED && LastSeparator(s) < i < |s|
    requires c != SEPARATOR && ValueOf(c) != ValueOf(s[i])
    ensures Decoded(s[i := c]) == FAILED
  {
    hide ValueOf, LastSeparator, Poly, IsPrintable, IsLower, IsUpper, LowerCase, AllFive;
    var p := LastSeparator(s);
    ChangedLetter(s, i, c);
    var e, values := Expanded(Lowered(s[..p])), Values(s[p + 1..]);
    var k, x := i - p - 1, ValueOf(c);
    AllValues(s[p + 1..]);
    if x != NO_VALUE {
      FiveAppend(e, values);
      assert (e + values)[|e| + k] == values[k];
      DetectsOneError(e + values, |e| + k, x);
      assert (e + values)[|e| + k := x] == e + values[k := x];
    } else {
      assert values[k := x][k] == NO_VALUE;
    }
  }

  lemma FiveAppend(v: Data, w: Data)
    requires AllFive(v) && AllFive(w)
    ensures AllFive(v + w)
  {
  }

  /** A string that decodes has letters behind its separator, and their values verify. */
  lemma DecodesMeans(s: Text, p: nat)
    requires LastSeparator(s) == p && Decoded(s) != FAILED
    ensures var values := Values(s[p + 1..]);
            NO_VALUE !in values && Poly(1, Expanded(Lowered(s[..p])) + values) == 1
  {
    hide LastSeparator, Poly, Values, Lowered, Expanded;
  }

  /** Three values changed behind a list of others. */
  lemma ThreeBehind(h: Data, v: Data, l: nat, x: bv8, m: nat, y: bv8, n: nat, z: bv8)
    requires AllFive(h) && AllFive(v) && |v| < 1023 && l < m < n < |v|
    requires x < 32 && y < 32 && z < 32 && Poly(1, h + v) == 1
    requires x != v[l] || y != v[m] || z != v[n]
    ensures Poly(1, h + v[l := x][m := y][n := z]) != 1
  {
    hide Poly, AllFive;
    FiveAppend(h, v);
    Behind(h, v, l, x, m, y, n, z);
    DetectsThreeErrors(h + v, |h| + l, x, |h| + m, y, |h| + n, z);
  }

  /** Three changed characters behind the separator change three values, and nothing else. */
  lemma ThreeChanged(s: Text, p: nat, i: nat, c: bv8, j: nat, d: bv8, k: nat, e: bv8)
    requires LastSeparator(s) == p < i < j < k < |s|
    requires c != SEPARATOR && d != SEPARATOR && e != SEPARATOR
    ensures var s' := s[i := c][j := d][k := e];
            && LastSeparator(s') == p && s'[..p] == s[..p]
            && Values(s'[p + 1..]) ==
               Values(s[p + 1..])[i - p - 1 := ValueOf(c)][j - p - 1 := ValueOf(d)][k - p - 1 := ValueOf(e)]
  {
    hide ValueOf, LastSeparator, Values;
    var t := s[i := c];
    assert t[..p] == s[..p] && t[j := d][..p] == s[..p];
    ChangedLetter(s, i, c);
    ChangedLetter(s[i := c], j, d);
    ChangedLetter(s[i := c][j := d], k, e);
  }

  /** So do up to three wrong letters: a string is too short for them to be further apart than that. */
  lemma DetectsThreeWrongLetters(s: Text, i: nat, c: bv8, j: nat, d: bv8, k: nat, e: bv8)
    requires Decoded(s) != FAILED && LastSeparator(s) < i < j < k < |s|
    requires c != SEPARATOR && d != SEPARATOR && e != SEPARATOR
    requires ValueOf(c) != ValueOf(s[i]) || ValueOf(d) != ValueOf(s[j]) || ValueOf(e) != ValueOf(s[k])
    ensures Decoded(s[i := c][j := d][k := e]) == FAILED
  {
    hide ValueOf, LastSeparator, Poly, Decoded, AllFive, Expanded, Lowered;
    LongEnough(s);
    var p := LastSeparator(s);
    var s' := s[i := c][j := d][k := e];
    if Decoded(s') != FAILED {
      DecodesMeans(s, p);
      ThreeChanged(s, p, i, c, j, d, k, e);
      DecodesMeans(s', p);
      AllValues(s[p + 1..]);
      AllValues(s'[p + 1..]);
      FiveAt(s'[p + 1..], i - p - 1);
      FiveAt(s'[p + 1..], j - p - 1);
      FiveAt(s'[p + 1..], k - p - 1);
      hide Values;
      ThreeBehind(Expanded(Lowered(s[..p])), Values(s[p + 1..]),
                  i - p - 1, ValueOf(c), j - p - 1, ValueOf(d), k - p - 1, ValueOf(e));
    }
  }

  lemma FiveAt(t: Text, i: nat)
    requires i < |t| && AllFive(Values(t))
    ensures ValueOf(t[i]) < 32 && Values(t)[i] == ValueOf(t[i])
  {
    hide ValueOf;
    assert Values(t)[i] < 32;
  }

  /** And two, of course. */
  lemma DetectsTwoWrongLetters(s: Text, i: nat, c: bv8, j: nat, d: bv8)
    requires Decoded(s) != FAILED && LastSeparator(s) < i < j < |s|
    requires c != SEPARATOR && ValueOf(c) != ValueOf(s[i]) && d != SEPARATOR && ValueOf(d) != ValueOf(s[j])
    ensures Decoded(s[i := c][j := d]) == FAILED
  {
    hide ValueOf, LastSeparator, Poly, Decoded;
    LongEnough(s);
    if j + 1 < |s| {
      assert s[i := c][j := d] == s[i := c][j := d][j + 1 := s[j + 1]];
      DetectsThreeWrongLetters(s, i, c, j, d, j + 1, s[j + 1]);
    } else if j - i > 1 {
      assert s[i := c][j := d] == s[i := c][i + 1 := s[i + 1]][j := d];
      DetectsThreeWrongLetters(s, i, c, i + 1, s[i + 1], j, d);
    } else {
      assert s[i := c][j := d] == s[i - 1 := s[i - 1]][i := c][j := d];
      DetectsThreeWrongLetters(s, i - 1, s[i - 1], i, c, j, d);
    }
  }

  lemma LongEnough(s: Text)
    requires Decoded(s) != FAILED
    ensures 0 <= LastSeparator(s) && LastSeparator(s) + 7 <= |s| <= MAX_LENGTH
    ensures forall i | LastSeparator(s) < i < |s| :: s[i] != SEPARATOR
  {
  }

  lemma Behind(h: Data, v: Data, l: nat, x: bv8, m: nat, y: bv8, n: nat, z: bv8)
    requires l < m < n < |v|
    ensures (h + v)[|h| + l] == v[l] && (h + v)[|h| + m] == v[m] && (h + v)[|h| + n] == v[n]
    ensures (h + v)[|h| + l := x][|h| + m := y][|h| + n := z] == h + v[l := x][m := y][n := z]
  {
  }

  // The human-readable part

  /** A character is told by its high and its low bits. */
  lemma BitsTell(a: bv8, b: bv8)
    ensures HighBits(a) == HighBits(b) && LowBits(a) == LowBits(b) ==> a == b
  {
  }

  /** A changed character before the separator changes two values of the prefix, and nothing else. */
  lemma ChangedPrefix(s: Text, i: nat, c: bv8)
    requires i < LastSeparator(s)
    ensures var p, s' := LastSeparator(s), s[i := c];
            && LastSeparator(s') == p && s'[p + 1..] == s[p + 1..]
            && Expanded(Lowered(s'[..p])) ==
               Expanded(Lowered(s[..p]))[i := HighBits(LowerCase(c))][p + 1 + i := LowBits(LowerCase(c))]
  {
    hide LowerCase, HighBits, LowBits;
    SameSeparatorBefore(s, i, c);
    var p := LastSeparator(s);
    assert s[i := c][..p] == s[..p][i := c];
  }

  lemma {:induction false} SameSeparatorBefore(s: Text, i: nat, c: bv8)
    requires i < LastSeparator(s)
    ensures LastSeparator(s[i := c]) == LastSeparator(s)
  {
    if s[|s| - 1] != SEPARATOR {
      assert s[i := c][..|s| - 1] == s[..|s| - 1][i := c];
      SameSeparatorBefore(s[..|s| - 1], i, c);
    }
  }

  /** Two values changed in a list and one in what is behind it. */
  lemma TwoAndOne(h: Data, v: Data, l: nat, x: bv8, m: nat, y: bv8, n: nat, z: bv8)
    requires AllFive(h) && AllFive(v) && |h| + |v| < 1023 && l < m < |h| && n < |v|
    requires x < 32 && y < 32 && z < 32 && Poly(1, h + v) == 1
    requires x != h[l] || y != h[m] || z != v[n]
    ensures Poly(1, h[l := x][m := y] + v[n := z]) != 1
  {
    hide Poly, AllFive;
    FiveAppend(h, v);
    assert (h + v)[l := x][m := y][|h| + n := z] == h[l := x][m := y] + v[n := z];
    DetectsThreeErrors(h + v, l, x, m, y, |h| + n, z);
  }

  /** A wrong character before the separator, other than in its case, is detected as well, even together
      with a wrong letter behind it. */
  lemma DetectsWrongPrefix(s: Text, i: nat, c: bv8, k: nat, d: bv8)
    requires Decoded(s) != FAILED && i < LastSeparator(s) < k < |s| && d != SEPARATOR
    requires LowerCase(c) != LowerCase(s[i]) || ValueOf(d) != ValueOf(s[k])
    ensures Decoded(s[i := c][k := d]) == FAILED
  {
    hide ValueOf, LastSeparator, Poly, Decoded, AllFive, LowerCase, HighBits, LowBits;
    LongEnough(s);
    var p := LastSeparator(s);
    var t := s[i := c];
    var s' := t[k := d];
    if Decoded(s') != FAILED {
      DecodesMeans(s, p);
      ChangedPrefix(s, i, c);
      ChangedLetter(t, k, d);
      DecodesMeans(s', p);
      AllValues(s[p + 1..]);
      AllValues(s'[p + 1..]);
      FiveAt(s'[p + 1..], k - p - 1);
      BitsTell(LowerCase(c), LowerCase(s[i]));
      PrefixAt(s[..p], i);
      hide Values, Expanded, Lowered;
      TwoAndOne(Expanded(Lowered(s[..p])), Values(s[p + 1..]), i, HighBits(LowerCase(c)),
                p + 1 + i, LowBits(LowerCase(c)), k - p - 1, ValueOf(d));
    }
  }

  lemma PrefixAt(hrp: Text, i: nat)
    requires i < |hrp|
    ensures Expanded(Lowered(hrp))[i] == HighBits(LowerCase(hrp[i]))
    ensures Expanded(Lowered(hrp))[|hrp| + 1 + i] == LowBits(LowerCase(hrp[i]))
  {
    hide HighBits, LowBits, LowerCase;
  }
}
