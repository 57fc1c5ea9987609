/**
 * What the checksum computes: the remainder of a division of polynomials over the field of 32
 * elements by the generator. BIP 173, section "Checksum".
 */
module Bech32Field {
  import opened Bech32
  import opened Xor32

  // The field of 32 elements: polynomials over bits modulo a^5 + a^3 + 1

  /** The sum of two elements. */
  function Plus(a: bv8, b: bv8): bv8 {
    a ^ b
  }

  /** Times a. */
  function TimesA(v: bv8): bv8 {
    ((v << 1) & 31) ^ (if v & 16 != 0 then 9 else 0)
  }

  function Part(a: bv8, bit: bv8, v: bv8): bv8 {
    if a & bit != 0 then v else 0
  }

  /** The product of two elements, as a sum over the bits of the first. */
  function Product(a: bv8, b: bv8): bv8 {
    Part(a, 1, b) ^ Part(a, 2, TimesA(b)) ^ Part(a, 4, TimesA(TimesA(b))) ^ Part(a, 8, TimesA(TimesA(TimesA(b)))) ^
    Part(a, 16, TimesA(TimesA(TimesA(TimesA(b)))))
  }

  // Polynomials, their highest coefficient first

  /** A multiple of the generator x^6 + 29 x^5 + 22 x^4 + 20 x^3 + 21 x^2 + 29 x + 18. */
  function TimesG(c: bv8): (r: Data)
    ensures |r| == 7
  {
    [c, Product(c, 29), Product(c, 22), Product(c, 20), Product(c, 21), Product(c, 29), Product(c, 18)]
  }

  /** The product of a polynomial and the generator. */
  function Multiple(q: Data): (r: Data)
    ensures |r| == |q| + 6
  {
    if q == [] then Zeros(6)
    else
      var n := |q| - 1;
      XorData(Multiple(q[..n]) + [0], Zeros(n) + TimesG(q[n]))
  }

  // Steps and divisions

  /** The groups of a 30-bit word, the highest first. */
  function Group0(x: bv32): bv8 { LowGroup(x >> 25) }

  function Group1(x: bv32): bv8 { LowGroup(x >> 20) }

  function Group2(x: bv32): bv8 { LowGroup(x >> 15) }

  function Group3(x: bv32): bv8 { LowGroup(x >> 10) }

  function Group4(x: bv32): bv8 { LowGroup(x >> 5) }

  function Group5(x: bv32): bv8 { LowGroup(x) }

  /** What a step adds for the coefficient that leaves at the top. */
  function Reduction(c: bv32): bv32 {
    Sum(0, Term(c, 1, 0x3b6a57b2), Term(c, 2, 0x26508e6d), Term(c, 4, 0x1ea119fa),
        Term(c, 8, 0x3d4233dd), Term(c, 16, 0x2a1462b3))
  }

  lemma StepParts(c: bv32, v: bv8)
    ensures Step(c, v) == Xor(Shifted(c, v), Reduction(c))
  {
    hide Xor, Term, Shifted;
    var s := Shifted(c, v);
    var a, b, d := Term(c, 1, 0x3b6a57b2), Term(c, 2, 0x26508e6d), Term(c, 4, 0x1ea119fa);
    var e, f := Term(c, 8, 0x3d4233dd), Term(c, 16, 0x2a1462b3);
    XorLaws(a);
    XorAssociates(s, a, b);
    XorAssociates(s, Xor(a, b), d);
    XorAssociates(s, Xor(Xor(a, b), d), e);
    XorAssociates(s, Xor(Xor(Xor(a, b), d), e), f);
  }

  lemma GroupXor0(a: bv32, b: bv32)
    ensures Group0(Xor(a, b)) == Plus(Group0(a), Group0(b))
  {
  }

  lemma GroupXor1(a: bv32, b: bv32)
    ensures Group1(Xor(a, b)) == Plus(Group1(a), Group1(b))
  {
  }

  lemma GroupXor2(a: bv32, b: bv32)
    ensures Group2(Xor(a, b)) == Plus(Group2(a), Group2(b))
  {
  }

  lemma GroupXor3(a: bv32, b: bv32)
    ensures Group3(Xor(a, b)) == Plus(Group3(a), Group3(b))
  {
  }

  lemma GroupXor4(a: bv32, b: bv32)
    ensures Group4(Xor(a, b)) == Plus(Group4(a), Group4(b))
  {
  }

  lemma GroupXor5(a: bv32, b: bv32)
    ensures Group5(Xor(a, b)) == Plus(Group5(a), Group5(b))
  {
  }

  lemma ReductionGroup0(c: bv32)
    requires c < BITS_30
    ensures Group0(Reduction(c)) == Product(Group0(c), 29)
  {
  }

  lemma ReductionGroup1(c: bv32)
    requires c < BITS_30
    ensures Group1(Reduction(c)) == Product(Group0(c), 22)
  {
  }

  lemma ReductionGroup2(c: bv32)
    requires c < BITS_30
    ensures Group2(Reduction(c)) == Product(Group0(c), 20)
  {
  }

  lemma ReductionGroup3(c: bv32)
    requires c < BITS_30
    ensures Group3(Reduction(c)) == Product(Group0(c), 21)
  {
  }

  lemma ReductionGroup4(c: bv32)
    requires c < BITS_30
    ensures Group4(Reduction(c)) == Product(Group0(c), 29)
  {
  }

  lemma ReductionGroup5(c: bv32)
    requires c < BITS_30
    ensures Group5(Reduction(c)) == Product(Group0(c), 18)
  {
  }

  /** A step moves the groups up by one, and adds a product to each. */
  lemma StepGroups(c: bv32, v: bv8)
    requires c < BITS_30 && v < 32
    ensures var s, c0 := Step(c, v), Group0(c);
            && Group0(s) == Plus(Group1(c), Product(c0, 29))
            && Group1(s) == Plus(Group2(c), Product(c0, 22))
            && Group2(s) == Plus(Group3(c), Product(c0, 20))
            && Group3(s) == Plus(Group4(c), Product(c0, 21))
            && Group4(s) == Plus(Group5(c), Product(c0, 29))
            && Group5(s) == Plus(v, Product(c0, 18))
  {
    hide Step, Shifted, Reduction, Xor, Product, Plus, Group0, Group1, Group2, Group3, Group4, Group5;
    StepParts(c, v);
    ShiftedGroups(c, v);
    GroupXor0(Shifted(c, v), Reduction(c));
    ReductionGroup0(c);
    GroupXor1(Shifted(c, v), Reduction(c));
    ReductionGroup1(c);
    GroupXor2(Shifted(c, v), Reduction(c));
    ReductionGroup2(c);
    GroupXor3(Shifted(c, v), Reduction(c));
    ReductionGroup3(c);
    GroupXor4(Shifted(c, v), Reduction(c));
    ReductionGroup4(c);
    GroupXor5(Shifted(c, v), Reduction(c));
    ReductionGroup5(c);
  }

  lemma ShiftedGroups(c: bv32, v: bv8)
    requires c < BITS_30 && v < 32
    ensures Group0(Shifted(c, v)) == Group1(c)
    ensures Group1(Shifted(c, v)) == Group2(c)
    ensures Group2(Shifted(c, v)) == Group3(c)
    ensures Group3(Shifted(c, v)) == Group4(c)
    ensures Group4(Shifted(c, v)) == Group5(c)
    ensures Group5(Shifted(c, v)) == v
  {
  }

  lemma Cancels(x: bv8, y: bv8)
    ensures Plus(y, Plus(x, y)) == x && Plus(x, 0) == x && Plus(0, x) == x
  {
  }

  lemma XorDataAt(v: Data, w: Data, i: nat)
    requires |v| == |w| && i < |v|
    ensures XorData(v, w)[i] == Plus(v[i], w[i])
  {
  }

  lemma Sevens(p: Data, t: Data, r: Data)
    requires |p| == |t| == |r| == 7
    requires p[0] == Plus(t[0], r[0]) && p[1] == Plus(t[1], r[1]) && p[2] == Plus(t[2], r[2])
    requires p[3] == Plus(t[3], r[3])
    requires p[4] == Plus(t[4], r[4]) && p[5] == Plus(t[5], r[5]) && p[6] == Plus(t[6], r[6])
    ensures p == XorData(t, r)
  {
    hide Plus, XorData;
    forall i | 0 <= i < 7 ensures p[i] == XorData(t, r)[i] {
      XorDataAt(t, r, i);
    }
  }

  /** One step takes off the multiple of the generator that cancels the highest coefficient. */
  lemma StepDivides(c: bv32, v: bv8)
    requires c < BITS_30 && v < 32
    ensures Groups(c) + [v] == XorData(TimesG(Group0(c)), [0] + Groups(Step(c, v)))
  {
    hide Step, Product, Plus, XorData, Groups, TimesG, Group0, Group1, Group2, Group3, Group4, Group5;
    StepGroups(c, v);
    var c0, s := Group0(c), Step(c, v);
    GroupsAre(c);
    GroupsAre(s);
    TimesGIs(c0);
    Cancels(c0, c0);
    Cancels(Group1(c), Product(c0, 29));
    Cancels(Group2(c), Product(c0, 22));
    Cancels(Group3(c), Product(c0, 20));
    Cancels(Group4(c), Product(c0, 21));
    Cancels(Group5(c), Product(c0, 29));
    Cancels(v, Product(c0, 18));
    Sevens(Groups(c) + [v], TimesG(c0), [0] + Groups(s));
  }

  lemma GroupsAre(c: bv32)
    ensures var g := Groups(c);
            && g[0] == Group0(c) && g[1] == Group1(c) && g[2] == Group2(c)
            && g[3] == Group3(c) && g[4] == Group4(c) && g[5] == Group5(c)
  {
  }

  lemma TimesGIs(c: bv8)
    ensures var t := TimesG(c);
            && t[0] == c && t[1] == Product(c, 29) && t[2] == Product(c, 22) && t[3] == Product(c, 20)
            && t[4] == Product(c, 21) && t[5] == Product(c, 29) && t[6] == Product(c, 18)
  {
  }

  // The whole division

  /** What is left over, below the coefficients that were divided. */
  function WithRest(n: nat, c: bv32): Data {
    Zeros(n) + Groups(c)
  }

  /** Two sums, of which the second goes one place further, are one. */
  lemma SumsMeet(m: Data, t: Data, g: Data, h: Data, n: nat, v: bv8, i: nat)
    requires |m| == n + 6 && |t| == 7 && |g| == |h| == 6 && i < n + 7
    requires g + [v] == XorData(t, [0] + h)
    ensures (XorData(m, Zeros(n) + g) + [v])[i] ==
            XorData(XorData(m + [0], Zeros(n) + t), Zeros(n + 1) + h)[i]
  {
    hide Plus, XorData;
    var next := XorData(m + [0], Zeros(n) + t);
    XorDataAt(next, Zeros(n + 1) + h, i);
    XorDataAt(m + [0], Zeros(n) + t, i);
    if i < n {
      XorDataAt(m, Zeros(n) + g, i);
      Three(m[i], 0, 0);
    } else {
      var k := i - n;
      XorDataAt(t, [0] + h, k);
      assert (Zeros(n + 1) + h)[i] == ([0] + h)[k];
      assert (g + [v])[k] == Plus(t[k], ([0] + h)[k]);
      if k < 6 {
        XorDataAt(m, Zeros(n) + g, i);
        Three(m[i], t[k], ([0] + h)[k]);
      } else {
        Three(t[6], 0, 0);
      }
    }
  }

  lemma AllSumsMeet(m: Data, t: Data, g: Data, h: Data, n: nat, v: bv8)
    requires |m| == n + 6 && |t| == 7 && |g| == |h| == 6
    requires g + [v] == XorData(t, [0] + h)
    ensures XorData(m, Zeros(n) + g) + [v] == XorData(XorData(m + [0], Zeros(n) + t), Zeros(n + 1) + h)
  {
    hide XorData;
    var a, b := XorData(m, Zeros(n) + g) + [v], XorData(XorData(m + [0], Zeros(n) + t), Zeros(n + 1) + h);
    forall i: nat | i < n + 7 ensures a[i] == b[i] {
      SumsMeet(m, t, g, h, n, v, i);
    }
  }

  lemma MultipleNext(q: Data, c: bv8)
    ensures Multiple(q + [c]) == XorData(Multiple(q) + [0], Zeros(|q|) + TimesG(c))
  {
    hide TimesG, XorData;
    assert (q + [c])[..|q|] == q;
  }

  /** Adding one coefficient more: the division goes on with one more multiple. */
  lemma DivideOn(q: Data, c: bv32, v: bv8, p: Data)
    requires c < BITS_30 && v < 32
    requires |p| == |q| + 6 && p == XorData(Multiple(q), WithRest(|q|, c))
    ensures p + [v] == XorData(Multiple(q + [Group0(c)]), WithRest(|q| + 1, Step(c, v)))
  {
    hide Step, XorData, Groups, TimesG, Group0, Multiple;
    StepDivides(c, v);
    MultipleNext(q, Group0(c));
    AllSumsMeet(Multiple(q), TimesG(Group0(c)), Groups(c), Groups(Step(c, v)), |q|, v);
  }

  lemma Three(a: bv8, b: bv8, c: bv8)
    ensures Plus(Plus(a, b), c) == Plus(a, Plus(b, c))
    ensures Plus(0, a) == a && Plus(a, 0) == a
  {
  }

  /**
   * What is computed over values, starting from a polynomial, is the remainder of the polynomial that
   * the values continue: it differs from that by a multiple of the generator, and has degree below six.
   */
  lemma {:induction false} PolyDivides(c: bv32, v: Data) returns (q: Data)
    requires c < BITS_30 && AllFive(v)
    ensures |q| == |v| && AllFive(q)
    ensures Groups(c) + v == XorData(Multiple(q), WithRest(|v|, Poly(c, v)))
    decreases |v|
  {
    hide Step, XorData, Groups, Product;
    if v == [] {
      q := [];
      NothingDivided(c);
    } else {
      var n := |v| - 1;
      q := PolyDivides(c, v[..n]);
      var d := Poly(c, v[..n]);
      PolyBound(c, v[..n]);
      PolyAppend(c, v[..n], [v[n]]);
      assert v == v[..n] + [v[n]];
      DivideOn(q, d, v[n], Groups(c) + v[..n]);
      assert Groups(c) + v[..n] + [v[n]] == Groups(c) + v;
      q := q + [Group0(d)];
    }
  }

  lemma NothingDivided(c: bv32)
    ensures Groups(c) + [] == XorData(Multiple([]), WithRest(0, c))
  {
    forall i | 0 <= i < 6 ensures Groups(c)[i] == XorData(Zeros(6), Zeros(0) + Groups(c))[i] {
      hide XorData;
      XorDataAt(Zeros(6), Zeros(0) + Groups(c), i);
      Three(Groups(c)[i], 0, 0);
    }
  }
}
