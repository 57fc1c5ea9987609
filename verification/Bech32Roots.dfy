/**
 * Roots of the generator of the checksum: three consecutive powers of an element of the field of 1024
 * elements, and the period of that element. BIP 173, section "Checksum design".
 */
module Bech32Roots {
  import opened Bech32
  import opened Bech32Field

  // The field of 1024 elements: polynomials over bits modulo y^10 + y^8 + y^5 + y + 1

  type Element = bv10

  function Add(a: Element, b: Element): Element {
    a ^ b
  }

  function Reduced(a: Element): Element {
    if a & 0x200 != 0 then 0x123 else 0
  }

  /** Times y. */
  function Up(a: Element): Element {
    Add(a << 1, Reduced(a))
  }

  /** Times a power of y. */
  function Ups(n: nat, a: Element): Element
    decreases n
  {
    if n == 0 then a else Up(Ups(n - 1, a))
  }

  lemma AddLaws(a: Element, b: Element)
    ensures Add(a, a) == 0 && Add(a, 0) == a && Add(0, a) == a && Add(a, b) == Add(b, a)
    ensures Add(a, b) == 0 ==> a == b
  {
  }

  lemma AddAssociates(a: Element, b: Element, c: Element)
    ensures Add(Add(a, b), c) == Add(a, Add(b, c))
  {
  }

  lemma FourAdd(a: Element, b: Element, c: Element, d: Element)
    ensures Add(Add(a, b), Add(c, d)) == Add(Add(a, c), Add(b, d))
  {
    hide Add;
    AddAssociates(a, b, Add(c, d));
    AddAssociates(b, c, d);
    AddLaws(b, c);
    AddAssociates(c, b, d);
    AddAssociates(a, c, Add(b, d));
  }

  lemma ShiftAdds(a: Element, b: Element)
    ensures Add(a, b) << 1 == Add(a << 1, b << 1)
  {
  }

  lemma ReducedAdds(a: Element, b: Element)
    ensures Reduced(Add(a, b)) == Add(Reduced(a), Reduced(b))
  {
  }

  lemma UpAdds(a: Element, b: Element)
    ensures Up(Add(a, b)) == Add(Up(a), Up(b))
  {
    ShiftAdds(a, b);
    ReducedAdds(a, b);
    hide Add, Reduced;
    FourAdd(a << 1, b << 1, Reduced(a), Reduced(b));
  }

  lemma UpInjective(a: Element)
    ensures Up(a) == 0 <==> a == 0
  {
  }

  lemma {:induction false} UpsAdds(n: nat, a: Element, b: Element)
    ensures Ups(n, Add(a, b)) == Add(Ups(n, a), Ups(n, b))
    decreases n
  {
    hide Up, Add;
    if n > 0 {
      UpsAdds(n - 1, a, b);
      UpAdds(Ups(n - 1, a), Ups(n - 1, b));
    }
  }

  lemma {:induction false} UpsInjective(n: nat, a: Element)
    ensures Ups(n, a) == 0 <==> a == 0
    decreases n
  {
    hide Up;
    if n > 0 {
      UpsInjective(n - 1, a);
      UpInjective(Ups(n - 1, a));
    }
  }

  lemma {:induction false} UpsMore(m: nat, n: nat, a: Element)
    ensures Ups(m, Ups(n, a)) == Ups(m + n, a)
    decreases m
  {
    hide Up;
    if m > 0 {
      UpsMore(m - 1, n, a);
    }
  }

  // The period of y

  lemma Halved(a: Element)
    ensures a == Add(Up(a >> 1), a & 1) && (a & 1 == 0 || a & 1 == 1)
    ensures a != 0 ==> a >> 1 < a
  {
  }

  /** A sum of powers of y that is a power of y is so for all elements. */
  lemma {:induction false} Extends(m: nat, n: nat, a: Element)
    requires Ups(m, 1) == Add(Ups(n, 1), 1)
    ensures Ups(m, a) == Add(Ups(n, a), a)
    decreases a
  {
    hide Up, Add;
    UpsInjective(m, 0);
    UpsInjective(n, 0);
    AddLaws(0, 0);
    if a != 0 {
      Halved(a);
      var h, b := a >> 1, a & 1;
      Extends(m, n, h);
      UpsAdds(m, Up(h), b);
      UpsAdds(n, Up(h), b);
      UpOut(m, h);
      UpOut(n, h);
      UpAdds(Ups(n, h), h);
      FourAdd(Up(Ups(n, h)), Up(h), Ups(n, b), b);
    }
  }

  lemma UpOut(n: nat, a: Element)
    ensures Ups(n, Up(a)) == Up(Ups(n, a))
  {
    hide Up;
    UpsMore(n, 1, a);
    UpsMore(1, n, a);
    OneUp(a);
    OneUp(Ups(n, a));
  }

  lemma OneUp(a: Element)
    ensures Ups(1, a) == Up(a)
  {
    hide Up;
    assert Ups(0, a) == a;
  }

  lemma OnStretch(n: nat, p: Element, m: nat, q: Element)
    requires Ups(n, 1) == p && Ups(m, p) == q
    ensures Ups(n + m, 1) == q
  {
    hide Up;
    UpsMore(m, n, 1);
  }

  lemma Powers0()
    ensures Ups(33, 1) == 0x0b0
    ensures Ups(88, 1) == 0x0ed
  {
    OnStretch(0, 0x001, 11, 0x246);
    OnStretch(11, 0x246, 11, 0x0fc);
    OnStretch(22, 0x0fc, 11, 0x0b0);
    OnStretch(33, 0x0b0, 11, 0x243);
    OnStretch(44, 0x243, 11, 0x1e4);
    OnStretch(55, 0x1e4, 11, 0x3bc);
    OnStretch(66, 0x3bc, 11, 0x033);
    OnStretch(77, 0x033, 11, 0x0ed);
  }

  lemma Powers1()
    requires Ups(88, 1) == 0x0ed
    ensures Ups(93, 1) == 0x36a
    ensures Ups(176, 1) == 0x342
  {
    OnStretch(88, 0x0ed, 5, 0x36a);
    OnStretch(88, 0x0ed, 11, 0x0eb);
    OnStretch(99, 0x0eb, 11, 0x21a);
    OnStretch(110, 0x21a, 11, 0x012);
    OnStretch(121, 0x012, 11, 0x3b2);
    OnStretch(132, 0x3b2, 11, 0x15d);
    OnStretch(143, 0x15d, 11, 0x026);
    OnStretch(154, 0x026, 11, 0x3e8);
    OnStretch(165, 0x3e8, 11, 0x342);
  }

  lemma Powers2()
    requires Ups(176, 1) == 0x342
    ensures Ups(264, 1) == 0x3e6
  {
    OnStretch(176, 0x342, 11, 0x12c);
    OnStretch(187, 0x12c, 11, 0x356);
    OnStretch(198, 0x356, 11, 0x06f);
    OnStretch(209, 0x06f, 11, 0x003);
    OnStretch(220, 0x003, 11, 0x3e9);
    OnStretch(231, 0x3e9, 11, 0x104);
    OnStretch(242, 0x104, 11, 0x1d0);
    OnStretch(253, 0x1d0, 11, 0x3e6);
  }

  lemma Powers3()
    requires Ups(264, 1) == 0x3e6
    ensures Ups(341, 1) == 0x036
  {
    OnStretch(264, 0x3e6, 11, 0x22c);
    OnStretch(275, 0x22c, 11, 0x1e7);
    OnStretch(286, 0x1e7, 11, 0x055);
    OnStretch(297, 0x055, 11, 0x137);
    OnStretch(308, 0x137, 11, 0x13d);
    OnStretch(319, 0x13d, 11, 0x30d);
    OnStretch(330, 0x30d, 11, 0x036);
  }

  lemma Powers4()
    requires Ups(341, 1) == 0x036
    ensures Ups(426, 1) == 0x36b
    ensures Ups(429, 1) == 0x0b1
  {
    OnStretch(341, 0x036, 11, 0x1f5);
    OnStretch(352, 0x1f5, 11, 0x3e7);
    OnStretch(363, 0x3e7, 11, 0x06a);
    OnStretch(374, 0x06a, 11, 0x11b);
    OnStretch(385, 0x11b, 11, 0x0e5);
    OnStretch(396, 0x0e5, 11, 0x374);
    OnStretch(407, 0x374, 11, 0x0d9);
    OnStretch(418, 0x0d9, 8, 0x36b);
    OnStretch(418, 0x0d9, 11, 0x0b1);
  }

  lemma Powers5()
    requires Ups(429, 1) == 0x0b1
    ensures Ups(517, 1) == 0x0ff
  {
    OnStretch(429, 0x0b1, 11, 0x005);
    OnStretch(440, 0x005, 11, 0x118);
    OnStretch(451, 0x118, 11, 0x30c);
    OnStretch(462, 0x30c, 11, 0x270);
    OnStretch(473, 0x270, 11, 0x109);
    OnStretch(484, 0x109, 11, 0x357);
    OnStretch(495, 0x357, 11, 0x229);
    OnStretch(506, 0x229, 11, 0x0ff);
  }

  lemma Powers6()
    requires Ups(517, 1) == 0x0ff
    ensures Ups(605, 1) == 0x32d
  {
    OnStretch(517, 0x0ff, 11, 0x359);
    OnStretch(528, 0x359, 11, 0x347);
    OnStretch(539, 0x347, 11, 0x034);
    OnStretch(550, 0x034, 11, 0x05a);
    OnStretch(561, 0x05a, 11, 0x21f);
    OnStretch(572, 0x21f, 11, 0x10a);
    OnStretch(583, 0x10a, 11, 0x0be);
    OnStretch(594, 0x0be, 11, 0x32d);
  }

  lemma Powers7()
    requires Ups(605, 1) == 0x32d
    ensures Ups(682, 1) == 0x037
  {
    OnStretch(605, 0x32d, 11, 0x12f);
    OnStretch(616, 0x12f, 11, 0x0bf);
    OnStretch(627, 0x0bf, 11, 0x16b);
    OnStretch(638, 0x16b, 11, 0x1d3);
    OnStretch(649, 0x1d3, 11, 0x00f);
    OnStretch(660, 0x00f, 11, 0x328);
    OnStretch(671, 0x328, 11, 0x037);
  }

  lemma Powers8()
    requires Ups(682, 1) == 0x037
    ensures Ups(770, 1) == 0x05c
  {
    OnStretch(682, 0x037, 11, 0x3b3);
    OnStretch(693, 0x3b3, 11, 0x31b);
    OnStretch(704, 0x31b, 11, 0x0da);
    OnStretch(715, 0x0da, 11, 0x358);
    OnStretch(726, 0x358, 11, 0x101);
    OnStretch(737, 0x101, 11, 0x0c8);
    OnStretch(748, 0x0c8, 11, 0x0ea);
    OnStretch(759, 0x0ea, 11, 0x05c);
  }

  lemma Powers9()
    requires Ups(770, 1) == 0x05c
    ensures Ups(858, 1) == 0x3bd
  {
    OnStretch(770, 0x05c, 11, 0x0ee);
    OnStretch(781, 0x0ee, 11, 0x302);
    OnStretch(792, 0x302, 11, 0x31e);
    OnStretch(803, 0x31e, 11, 0x1c2);
    OnStretch(814, 0x1c2, 11, 0x054);
    OnStretch(825, 0x054, 11, 0x371);
    OnStretch(836, 0x371, 11, 0x1c1);
    OnStretch(847, 0x1c1, 11, 0x3bd);
  }

  lemma Powers10()
    requires Ups(858, 1) == 0x3bd
    ensures Ups(946, 1) == 0x0cb
  {
    OnStretch(858, 0x3bd, 11, 0x275);
    OnStretch(869, 0x275, 11, 0x011);
    OnStretch(880, 0x011, 11, 0x05b);
    OnStretch(891, 0x05b, 11, 0x059);
    OnStretch(902, 0x059, 11, 0x1f6);
    OnStretch(913, 0x1f6, 11, 0x00e);
    OnStretch(924, 0x00e, 11, 0x16e);
    OnStretch(935, 0x16e, 11, 0x0cb);
  }

  lemma Powers11()
    requires Ups(946, 1) == 0x0cb
    ensures Ups(1023, 1) == 0x001
  {
    OnStretch(946, 0x0cb, 11, 0x303);
    OnStretch(957, 0x303, 11, 0x158);
    OnStretch(968, 0x158, 11, 0x13e);
    OnStretch(979, 0x13e, 11, 0x0e4);
    OnStretch(990, 0x0e4, 11, 0x132);
    OnStretch(1001, 0x132, 11, 0x025);
    OnStretch(1012, 0x025, 11, 0x001);
  }

  /** The powers that the period is told by: y^1023 is one, and these are not. */
  lemma SomePowers()
    ensures Ups(1023, 1) == 1
    ensures Ups(429, 1) == Add(Ups(33, 1), 1) && Ups(426, 1) == Add(Ups(93, 1), 1) && Ups(682, 1) == Add(Ups(341, 1), 1)
  {
    hide Up;
    Powers0();
    Powers1();
    Powers2();
    Powers3();
    Powers4();
    Powers5();
    Powers6();
    Powers7();
    Powers8();
    Powers9();
    Powers10();
    Powers11();
  }

  /** No element but zero comes back after 33, 93 or 341 steps. */
  lemma NotBack(n: nat, a: Element)
    requires (n == 33 || n == 93 || n == 341) && Ups(n, a) == a
    ensures a == 0
  {
    hide Up, Add;
    SomePowers();
    var k := if n == 33 then 429 else if n == 93 then 426 else 682;
    Extends(k, n, a);
    AddLaws(a, a);
    UpsInjective(k, a);
  }

  /** Every element is back after 1023 steps. */
  lemma {:induction false} ComesBack(a: Element)
    ensures Ups(1023, a) == a
    decreases a
  {
    hide Up, Add;
    SomePowers();
    UpsInjective(1023, 0);
    if a != 0 {
      Halved(a);
      ComesBack(a >> 1);
      UpsAdds(1023, Up(a >> 1), a & 1);
      UpOut(1023, a >> 1);
    }
  }

  /** Steps after which an element is back have a common measure after which it is back. */
  lemma {:induction false} Measure(m: nat, n: nat, a: Element) returns (g: nat, p: nat, q: nat)
    requires m > 0 && n > 0 && Ups(m, a) == a && Ups(n, a) == a
    ensures g > 0 && m == g * p && n == g * q && Ups(g, a) == a
    decreases m + n
  {
    hide Up;
    if m == n {
      g, p, q := m, 1, 1;
    } else if m < n {
      UpsMore(n - m, m, a);
      g, p, q := Measure(m, n - m, a);
      q := p + q;
    } else {
      UpsMore(m - n, n, a);
      g, p, q := Measure(m - n, n, a);
      p := p + q;
    }
  }

  lemma {:induction false} Repeats(g: nat, r: nat, a: Element)
    requires Ups(g, a) == a
    ensures g * r >= 0 && Ups(g * r, a) == a
    decreases r
  {
    hide Up;
    if r > 0 {
      Repeats(g, r - 1, a);
      assert g * r == g * (r - 1) + g;
      UpsMore(g * (r - 1), g, a);
    } else {
      assert Ups(0, a) == a;
    }
  }

  /** A proper divisor of 1023, which is 3 times 11 times 31, divides one of the largest. */
  lemma Divides(g: nat, q: nat) returns (r: nat)
    requires g * q == 1023 && q > 1
    ensures g * r == 33 || g * r == 93 || g * r == 341
  {
    if q <= 31 {
      assert 1023 % q == 0;
      assert q == 3 || q == 11 || q == 31;
      r := 1;
    } else {
      assert g <= 31;
      assert 1023 % g == 0;
      assert g == 1 || g == 3 || g == 11 || g == 31;
      r := if g == 1 then 33 else if g == 3 then 31 else 3;
    }
  }

  /** No element but zero comes back after fewer than 1023 steps. */
  lemma Period(k: nat, a: Element)
    requires 0 < k < 1023 && Ups(k, a) == a
    ensures a == 0
  {
    hide Up;
    ComesBack(a);
    var g, p, q := Measure(k, 1023, a);
    var r := Divides(g, q);
    Repeats(g, r, a);
    NotBack(g * r, a);
  }

  // Values of polynomials

  function Bit(v: bv8, bit: bv8, a: Element): Element {
    if v & bit != 0 then a else 0
  }

  /** The element that an element of the field of 32 is in the larger field. */
  function Embed(v: bv8): Element {
    Bit(v, 1, 0x001) ^ Bit(v, 2, 0x00e) ^ Bit(v, 4, 0x054) ^ Bit(v, 8, 0x358) ^ Bit(v, 16, 0x0bf)
  }

  /** The value of a polynomial at y^t, its highest coefficient first. */
  function Eval(t: nat, e: Element, v: Data): Element
    decreases |v|
  {
    if v == [] then e else Eval(t, Add(Ups(t, e), Embed(v[0])), v[1..])
  }

  lemma EmbedAdds(a: bv8, b: bv8)
    ensures Embed(Plus(a, b)) == Add(Embed(a), Embed(b))
  {
  }

  lemma EmbedInjective(v: bv8)
    requires v < 32
    ensures Embed(v) == 0 <==> v == 0
  {
  }

  lemma {:induction false} EvalAppend(t: nat, e: Element, v: Data, w: Data)
    ensures Eval(t, e, v + w) == Eval(t, Eval(t, e, v), w)
    decreases |v|
  {
    hide Ups, Embed, Add;
    if v == [] {
      assert v + w == w;
    } else {
      assert (v + w)[1..] == v[1..] + w;
      EvalAppend(t, Add(Ups(t, e), Embed(v[0])), v[1..], w);
    }
  }

  lemma {:induction false} EvalAdds(t: nat, d: Element, e: Element, v: Data, w: Data)
    requires |v| == |w|
    ensures Eval(t, Add(d, e), XorData(v, w)) == Add(Eval(t, d, v), Eval(t, e, w))
    decreases |v|
  {
    hide Ups, Embed, Add, Plus;
    if v != [] {
      XorDataAt(v, w, 0);
      assert XorData(v, w)[1..] == XorData(v[1..], w[1..]);
      UpsAdds(t, d, e);
      EmbedAdds(v[0], w[0]);
      FourAdd(Ups(t, d), Ups(t, e), Embed(v[0]), Embed(w[0]));
      EvalAdds(t, Add(Ups(t, d), Embed(v[0])), Add(Ups(t, e), Embed(w[0])), v[1..], w[1..]);
    }
  }

  lemma EvalOne(t: nat, e: Element, v: bv8)
    ensures Eval(t, e, [v]) == Add(Ups(t, e), Embed(v))
  {
    hide Ups, Embed, Add;
  }

  lemma {:induction false} EvalZeros(t: nat, e: Element, n: nat)
    ensures t * n >= 0 && Eval(t, e, Zeros(n)) == Ups(t * n, e)
    decreases n
  {
    hide Up, Add;
    if n > 0 {
      assert Zeros(n)[1..] == Zeros(n - 1);
      EmbedInjective(0);
      AddLaws(Ups(t, e), 0);
      EvalZeros(t, Ups(t, e), n - 1);
      assert t * n == t * (n - 1) + t;
      UpsMore(t * (n - 1), t, e);
    }
  }

  // The roots of the generator

  predicate Root(t: nat, c: bv8) {
    Eval(t, 0, TimesG(c)) == 0
  }

  lemma TwoStretches(m: nat, p: Element, q: Element, n: nat, r: Element)
    requires Ups(m, p) == q && Ups(n, q) == r
    ensures Ups(m + n, p) == r
  {
    hide Up;
    UpsMore(n, m, p);
  }

  lemma Generator()
    ensures TimesG(1) == [1, 29, 22, 20, 21, 29, 18]
  {
  }

  lemma Values24()
    ensures Ups(24, 0x001) == 0x3f0
    ensures Ups(24, 0x042) == 0x2d5
    ensures Ups(24, 0x230) == 0x22f
    ensures Ups(24, 0x2c4) == 0x02f
    ensures Ups(24, 0x0c5) == 0x36f
    ensures Ups(24, 0x0dd) == 0x0b1
  {
    TwoStretches(12, 0x001, 0x1af, 12, 0x3f0);
    TwoStretches(12, 0x042, 0x219, 12, 0x2d5);
    TwoStretches(12, 0x230, 0x355, 12, 0x22f);
    TwoStretches(12, 0x2c4, 0x028, 12, 0x02f);
    TwoStretches(12, 0x0c5, 0x1f9, 12, 0x36f);
    TwoStretches(12, 0x0dd, 0x2fd, 12, 0x0b1);
  }

  lemma Root24()
    ensures Root(24, 1)
  {
    hide Ups;
    Values24();
    UpsInjective(24, 0);
    Generator();
  }

  lemma Values25()
    ensures Ups(25, 0x001) == 0x2c3
    ensures Ups(25, 0x171) == 0x242
    ensures Ups(25, 0x2a7) == 0x202
    ensures Ups(25, 0x2e9) == 0x155
    ensures Ups(25, 0x1bf) == 0x14d
    ensures Ups(25, 0x2ff) == 0x0b1
  {
    TwoStretches(12, 0x001, 0x1af, 13, 0x2c3);
    TwoStretches(12, 0x171, 0x3fc, 13, 0x242);
    TwoStretches(12, 0x2a7, 0x1ac, 13, 0x202);
    TwoStretches(12, 0x2e9, 0x237, 13, 0x155);
    TwoStretches(12, 0x1bf, 0x2e9, 13, 0x14d);
    TwoStretches(12, 0x2ff, 0x3ef, 13, 0x0b1);
  }

  lemma Root25()
    ensures Root(25, 1)
  {
    hide Ups;
    Values25();
    UpsInjective(25, 0);
    Generator();
  }

  lemma Values26()
    ensures Ups(26, 0x001) == 0x0a5
    ensures Ups(26, 0x317) == 0x0cd
    ensures Ups(26, 0x028) == 0x027
    ensures Ups(26, 0x0cc) == 0x277
    ensures Ups(26, 0x29d) == 0x05c
    ensures Ups(26, 0x3ee) == 0x0b1
  {
    TwoStretches(12, 0x001, 0x1af, 14, 0x0a5);
    TwoStretches(12, 0x317, 0x036, 14, 0x0cd);
    TwoStretches(12, 0x028, 0x02f, 14, 0x027);
    TwoStretches(12, 0x0cc, 0x24b, 14, 0x277);
    TwoStretches(12, 0x29d, 0x3c4, 14, 0x05c);
    TwoStretches(12, 0x3ee, 0x366, 14, 0x0b1);
  }

  lemma Root26()
    ensures Root(26, 1)
  {
    hide Ups;
    Values26();
    UpsInjective(26, 0);
    Generator();
  }

  /** Times the element that a is in the larger field, which is y + y^2 + y^3. */
  function Alpha(a: Element): Element {
    Add(Up(a), Add(Up(Up(a)), Up(Up(Up(a)))))
  }

  lemma EmbedTimesA(v: bv8)
    requires v < 32
    ensures Embed(TimesA(v)) == Alpha(Embed(v)) && TimesA(v) < 32
  {
  }

  lemma AlphaAdds(a: Element, b: Element)
    ensures Alpha(Add(a, b)) == Add(Alpha(a), Alpha(b))
  {
    hide Up, Add;
    UpAdds(a, b);
    UpAdds(Up(a), Up(b));
    UpAdds(Up(Up(a)), Up(Up(b)));
    var c, d := Up(Up(a)), Up(Up(b));
    FourAdd(c, d, Up(c), Up(d));
    FourAdd(Up(a), Up(b), Add(c, Up(c)), Add(d, Up(d)));
  }

  lemma AlphaUps(t: nat, a: Element)
    ensures Alpha(Ups(t, a)) == Ups(t, Alpha(a))
  {
    hide Up, Ups, Add;
    UpOut(t, a);
    UpOut(t, Up(a));
    UpOut(t, Up(Up(a)));
    UpsAdds(t, Up(Up(a)), Up(Up(Up(a))));
    UpsAdds(t, Up(a), Add(Up(Up(a)), Up(Up(Up(a)))));
  }

  function AllTimesA(v: Data): (r: Data)
    ensures |r| == |v|
  {
    seq(|v|, i requires 0 <= i < |v| => TimesA(v[i]))
  }

  lemma {:induction false} EvalTimesA(t: nat, e: Element, v: Data)
    requires AllFive(v)
    ensures Eval(t, Alpha(e), AllTimesA(v)) == Alpha(Eval(t, e, v))
    decreases |v|
  {
    hide Up, Ups, Embed, Add, Alpha, TimesA;
    if v != [] {
      assert AllTimesA(v)[1..] == AllTimesA(v[1..]);
      EmbedTimesA(v[0]);
      AlphaUps(t, e);
      AlphaAdds(Ups(t, e), Embed(v[0]));
      EvalTimesA(t, Add(Ups(t, e), Embed(v[0])), v[1..]);
    }
  }

  lemma Product29(c: bv8)
    requires c < 32
    ensures Product(TimesA(c), 29) == TimesA(Product(c, 29)) && Product(c, 29) < 32
  {
  }

  lemma ProductAdds29(c: bv8, d: bv8)
    requires c < 32 && d < 32
    ensures Product(Plus(c, d), 29) == Plus(Product(c, 29), Product(d, 29))
  {
  }

  lemma Product22(c: bv8)
    requires c < 32
    ensures Product(TimesA(c), 22) == TimesA(Product(c, 22)) && Product(c, 22) < 32
  {
  }

  lemma ProductAdds22(c: bv8, d: bv8)
    requires c < 32 && d < 32
    ensures Product(Plus(c, d), 22) == Plus(Product(c, 22), Product(d, 22))
  {
  }

  lemma Product20(c: bv8)
    requires c < 32
    ensures Product(TimesA(c), 20) == TimesA(Product(c, 20)) && Product(c, 20) < 32
  {
  }

  lemma ProductAdds20(c: bv8, d: bv8)
    requires c < 32 && d < 32
    ensures Product(Plus(c, d), 20) == Plus(Product(c, 20), Product(d, 20))
  {
  }

  lemma Product21(c: bv8)
    requires c < 32
    ensures Product(TimesA(c), 21) == TimesA(Product(c, 21)) && Product(c, 21) < 32
  {
  }

  lemma ProductAdds21(c: bv8, d: bv8)
    requires c < 32 && d < 32
    ensures Product(Plus(c, d), 21) == Plus(Product(c, 21), Product(d, 21))
  {
  }

  lemma Product18(c: bv8)
    requires c < 32
    ensures Product(TimesA(c), 18) == TimesA(Product(c, 18)) && Product(c, 18) < 32
  {
  }

  lemma ProductAdds18(c: bv8, d: bv8)
    requires c < 32 && d < 32
    ensures Product(Plus(c, d), 18) == Plus(Product(c, 18), Product(d, 18))
  {
  }

  /** Multiples of the generator that are themselves multiplied, or added. */
  lemma TimesGLinear(c: bv8, d: bv8)
    requires c < 32 && d < 32
    ensures AllFive(TimesG(c)) && TimesG(TimesA(c)) == AllTimesA(TimesG(c))
    ensures TimesG(Plus(c, d)) == XorData(TimesG(c), TimesG(d))
  {
    hide Product, TimesA, Plus, XorData;
    Product29(c);
    ProductAdds29(c, d);
    Product22(c);
    ProductAdds22(c, d);
    Product20(c);
    ProductAdds20(c, d);
    Product21(c);
    ProductAdds21(c, d);
    Product18(c);
    ProductAdds18(c, d);
    Sevens(TimesG(Plus(c, d)), TimesG(c), TimesG(d));
  }

  lemma HalvedFive(c: bv8)
    requires c < 32
    ensures c == Plus(TimesA(c >> 1), c & 1) && (c & 1 == 0 || c & 1 == 1) && c >> 1 < 32 && TimesA(c >> 1) < 32
    ensures c != 0 ==> c >> 1 < c
  {
  }

  /** The three powers of y are roots of every multiple. */
  lemma {:induction false} Roots(t: nat, c: bv8)
    requires (t == 24 || t == 25 || t == 26) && c < 32
    ensures Root(t, c)
    decreases c
  {
    hide Add, TimesG, Eval, Plus, TimesA, XorData, Alpha;
    Root24();
    Root25();
    Root26();
    NoMultiple(t);
    if c != 0 {
      HalvedFive(c);
      var h, b := c >> 1, c & 1;
      Roots(t, h);
      TimesGLinear(h, 0);
      AlphaOfZero();
      EvalTimesA(t, 0, TimesG(h));
      TimesGLinear(TimesA(h), b);
      AddLaws(0, 0);
      EvalAdds(t, 0, 0, TimesG(TimesA(h)), TimesG(b));
    }
  }

  lemma AlphaOfZero()
    ensures Alpha(0) == 0
  {
  }

  lemma NoMultiple(t: nat)
    ensures Root(t, 0)
  {
    hide Ups;
    assert TimesG(0) == Zeros(7);
    EvalZeros(t, 0, 7);
    UpsInjective(t * 7, 0);
  }

  /** And of every polynomial that the generator divides. */
  lemma {:induction false} EvalMultiple(t: nat, q: Data)
    requires (t == 24 || t == 25 || t == 26) && AllFive(q)
    ensures Eval(t, 0, Multiple(q)) == 0
    decreases |q|
  {
    hide Ups, TimesG, Eval, XorData, Add;
    AddLaws(0, 0);
    if q == [] {
      EvalZeros(t, 0, 6);
      UpsInjective(t * 6, 0);
    } else {
      var n := |q| - 1;
      EvalMultiple(t, q[..n]);
      Roots(t, q[n]);
      EvalAdds(t, 0, 0, Multiple(q[..n]) + [0], Zeros(n) + TimesG(q[n]));
      EvalAppend(t, 0, Multiple(q[..n]), [0]);
      EvalOne(t, 0, 0);
      EmbedInjective(0);
      UpsInjective(t, 0);
      EvalAppend(t, 0, Zeros(n), TimesG(q[n]));
      EvalZeros(t, 0, n);
      UpsInjective(t * n, 0);
    }
  }
}
