/**
 * Bech32 strings: a human-readable part, a separator, and 5-bit values in 32 letters, the last six
 * of them a checksum. The format is BIP 173, section "Bech32".
 */
module Bech32 {
  import opened Xor32

  type Text = seq<bv8>
  type Data = seq<bv8>

  /** The values a checksum is made over. */
  predicate AllFive(v: Data) {
    forall i | 0 <= i < |v| :: v[i] < 32
  }

  // The checksum

  /** A term of the generator, if its bit left at the top. */
  function Term(c: bv32, bit: bv32, k: bv32): bv32 {
    if (c >> 25) & bit != 0 then k else 0
  }

  function Shifted(c: bv32, v: bv8): bv32 {
    ((c & 0x1ff_ffff) << 5) ^ (v as bv32)
  }

  /** One value more: the polynomial times x plus the value, reduced by the generator. */
  function Step(c: bv32, v: bv8): bv32 {
    Sum(Shifted(c, v), Term(c, 1, 0x3b6a57b2), Term(c, 2, 0x26508e6d), Term(c, 4, 0x1ea119fa),
        Term(c, 8, 0x3d4233dd), Term(c, 16, 0x2a1462b3))
  }

  function Poly(c: bv32, v: Data): bv32
    decreases |v|
  {
    if v == [] then c else Poly(Step(c, v[0]), v[1..])
  }

  method PolyMod(v: Data) returns (c: bv32)
    ensures c == Poly(1, v)
  {
    hide Step;
    c := 1;
    assert v[0..] == v;
    for i := 0 to |v|
      invariant Poly(1, v) == Poly(c, v[i..])
    {
      assert v[i..][1..] == v[i + 1..];
      c := NextPoly(c, v[i]);
    }
  }

  method NextPoly(was: bv32, v: bv8) returns (c: bv32)
    ensures c == Step(was, v)
  {
    hide Xor;
    var c0 := was >> 25;
    c := ((was & 0x1ff_ffff) << 5) ^ (v as bv32);
    c := AddTerm(c, c0, 1, 0x3b6a57b2);
    c := AddTerm(c, c0, 2, 0x26508e6d);
    c := AddTerm(c, c0, 4, 0x1ea119fa);
    c := AddTerm(c, c0, 8, 0x3d4233dd);
    c := AddTerm(c, c0, 16, 0x2a1462b3);
  }

  method AddTerm(was: bv32, c0: bv32, bit: bv32, k: bv32) returns (c: bv32)
    ensures c == Xor(was, if c0 & bit != 0 then k else 0)
  {
    XorLaws(was);
    c := was;
    if c0 & bit != 0 {
      c := c ^ k;
    }
  }

  lemma BitXor(c: bv32, d: bv32, bit: bv32)
    ensures ((c ^ d) >> 25) & bit == ((c >> 25) & bit) ^ ((d >> 25) & bit)
  {
  }

  lemma BitCases(c: bv32, bit: bv32)
    requires bit == 1 || bit == 2 || bit == 4 || bit == 8 || bit == 16
    ensures (c >> 25) & bit == 0 || (c >> 25) & bit == bit
  {
  }

  lemma TermLinear(c: bv32, d: bv32, bit: bv32, k: bv32)
    requires bit == 1 || bit == 2 || bit == 4 || bit == 8 || bit == 16
    ensures Term(Xor(c, d), bit, k) == Xor(Term(c, bit, k), Term(d, bit, k))
  {
    BitXor(c, d, bit);
    BitCases(c, bit);
    BitCases(d, bit);
    XorLaws(bit);
    XorLaws(k);
  }

  lemma ShiftedLinear(c: bv32, d: bv32, v: bv8, w: bv8)
    ensures Shifted(Xor(c, d), v ^ w) == Xor(Shifted(c, v), Shifted(d, w))
  {
  }

  /** A step is linear over exclusive or. */
  lemma StepLinear(c: bv32, d: bv32, v: bv8, w: bv8)
    ensures Step(Xor(c, d), v ^ w) == Xor(Step(c, v), Step(d, w))
  {
    hide Term, Shifted, Xor, Sum;
    ShiftedLinear(c, d, v, w);
    TermLinear(c, d, 1, 0x3b6a57b2);
    TermLinear(c, d, 2, 0x26508e6d);
    TermLinear(c, d, 4, 0x1ea119fa);
    TermLinear(c, d, 8, 0x3d4233dd);
    TermLinear(c, d, 16, 0x2a1462b3);
    SumLinear(Shifted(c, v), Shifted(d, w), Term(c, 1, 0x3b6a57b2), Term(d, 1, 0x3b6a57b2),
              Term(c, 2, 0x26508e6d), Term(d, 2, 0x26508e6d), Term(c, 4, 0x1ea119fa), Term(d, 4, 0x1ea119fa),
              Term(c, 8, 0x3d4233dd), Term(d, 8, 0x3d4233dd), Term(c, 16, 0x2a1462b3), Term(d, 16, 0x2a1462b3));
  }

  lemma StepBound(c: bv32, v: bv8)
    requires c < BITS_30 && v < 32
    ensures Step(c, v) < BITS_30
  {
    hide Sum;
    ShiftedBound(c, v);
    SumBound(Shifted(c, v), Term(c, 1, 0x3b6a57b2), Term(c, 2, 0x26508e6d), Term(c, 4, 0x1ea119fa),
             Term(c, 8, 0x3d4233dd), Term(c, 16, 0x2a1462b3));
  }

  lemma ShiftedBound(c: bv32, v: bv8)
    requires v < 32
    ensures Shifted(c, v) < BITS_30
  {
  }

  /** Only zero steps to zero. */
  lemma StepInjective(c: bv32)
    requires c < BITS_30 && Step(c, 0) == 0
    ensures c == 0
  {
    hide Sum;
    LowSum(Shifted(c, 0), Term(c, 1, 0x3b6a57b2), Term(c, 2, 0x26508e6d), Term(c, 4, 0x1ea119fa),
           Term(c, 8, 0x3d4233dd), Term(c, 16, 0x2a1462b3));
    LowTerms(c);
    SumOfZeros(Shifted(c, 0));
    ShiftedZero(c);
  }

  /** The constant coefficients of the generator's multiples are independent. */
  lemma LowTerms(c: bv32)
    requires Xor5(Xor5(Xor5(Xor5(Xor5(Low(Shifted(c, 0)), Low(Term(c, 1, 0x3b6a57b2))), Low(Term(c, 2, 0x26508e6d))),
                            Low(Term(c, 4, 0x1ea119fa))), Low(Term(c, 8, 0x3d4233dd))),
                            Low(Term(c, 16, 0x2a1462b3))) == 0
    ensures Term(c, 1, 0x3b6a57b2) == 0 && Term(c, 2, 0x26508e6d) == 0 && Term(c, 4, 0x1ea119fa) == 0
    ensures Term(c, 8, 0x3d4233dd) == 0 && Term(c, 16, 0x2a1462b3) == 0
  {
  }

  lemma SumOfZeros(s: bv32)
    ensures Sum(s, 0, 0, 0, 0, 0) == s
  {
    hide Xor;
    XorLaws(s);
  }

  lemma ShiftedZero(c: bv32)
    requires c < BITS_30 && Shifted(c, 0) == 0
    requires Term(c, 1, 0x3b6a57b2) == 0 && Term(c, 2, 0x26508e6d) == 0 && Term(c, 4, 0x1ea119fa) == 0
    requires Term(c, 8, 0x3d4233dd) == 0 && Term(c, 16, 0x2a1462b3) == 0
    ensures c == 0
  {
  }

  /** Below 25 bits nothing is reduced. */
  lemma StepSmall(c: bv32, v: bv8)
    requires c < 0x200_0000
    ensures Step(c, v) == Xor(c << 5, v as bv32)
  {
    hide Sum;
    assert c >> 25 == 0;
    SumOfZeros(Shifted(c, v));
  }

  // The letters

  const SEPARATOR: bv8 := 49

  predicate IsPrintable(c: bv8) { 33 <= c <= 126 }

  predicate IsUpper(c: bv8) { 65 <= c <= 90 }

  predicate IsLower(c: bv8) { 97 <= c <= 122 }

  /** What an encoder may put in: printable, and not upper case. */
  predicate IsPlain(c: bv8) { IsPrintable(c) && !IsUpper(c) }

  /** The 32 letters: qpzry9x8gf2tvdw0s3jn54khce6mua7l. */
  function Letter(c: bv8): bv8 {
    if c == 0 then 113 else if c == 1 then 112 else if c == 2 then 122 else if c == 3 then 114 else
    if c == 4 then 121 else if c == 5 then 57 else if c == 6 then 120 else if c == 7 then 56 else
    if c == 8 then 103 else if c == 9 then 102 else if c == 10 then 50 else if c == 11 then 116 else
    if c == 12 then 118 else if c == 13 then 100 else if c == 14 then 119 else if c == 15 then 48 else
    if c == 16 then 115 else if c == 17 then 51 else if c == 18 then 106 else if c == 19 then 110 else
    if c == 20 then 53 else if c == 21 then 52 else if c == 22 then 107 else if c == 23 then 104 else
    if c == 24 then 99 else if c == 25 then 101 else if c == 26 then 54 else if c == 27 then 109 else
    if c == 28 then 117 else if c == 29 then 97 else if c == 30 then 55 else
    108
  }

  /** What stands for -1 in eight bits. */
  const NO_VALUE: bv8 := 0xff

  /** The value of a letter, in either case. */
  function ValueOf(c: bv8): (v: bv8)
    ensures v < 32 || v == NO_VALUE
  {
    if c == 48 then 15 else if c == 50 then 10 else if c == 51 then 17 else if c == 52 then 21 else
    if c == 53 then 20 else if c == 54 then 26 else if c == 55 then 30 else if c == 56 then 7 else
    if c == 57 then 5 else if c == 65 then 29 else if c == 67 then 24 else if c == 68 then 13 else
    if c == 69 then 25 else if c == 70 then 9 else if c == 71 then 8 else if c == 72 then 23 else
    if c == 74 then 18 else if c == 75 then 22 else if c == 76 then 31 else if c == 77 then 27 else
    if c == 78 then 19 else if c == 80 then 1 else if c == 81 then 0 else if c == 82 then 3 else
    if c == 83 then 16 else if c == 84 then 11 else if c == 85 then 28 else if c == 86 then 12 else
    if c == 87 then 14 else if c == 88 then 6 else if c == 89 then 4 else if c == 90 then 2 else
    if c == 97 then 29 else if c == 99 then 24 else if c == 100 then 13 else if c == 101 then 25 else
    if c == 102 then 9 else if c == 103 then 8 else if c == 104 then 23 else if c == 106 then 18 else
    if c == 107 then 22 else if c == 108 then 31 else if c == 109 then 27 else if c == 110 then 19 else
    if c == 112 then 1 else if c == 113 then 0 else if c == 114 then 3 else if c == 115 then 16 else
    if c == 116 then 11 else if c == 117 then 28 else if c == 118 then 12 else if c == 119 then 14 else
    if c == 120 then 6 else if c == 121 then 4 else if c == 122 then 2 else
    NO_VALUE
  }

  lemma LetterValue(v: bv8)
    requires v < 32
    ensures ValueOf(Letter(v)) == v && IsPlain(Letter(v)) && Letter(v) != SEPARATOR
  {
    hide Letter, ValueOf;
    if v < 8 {
      LetterValue0(v);
    } else if v < 16 {
      LetterValue1(v);
    } else if v < 24 {
      LetterValue2(v);
    } else {
      LetterValue3(v);
    }
  }

  lemma LetterValue0(v: bv8)
    requires 0 <= v < 8
    ensures ValueOf(Letter(v)) == v && IsPlain(Letter(v)) && Letter(v) != SEPARATOR
  {
  }

  lemma LetterValue1(v: bv8)
    requires 8 <= v < 16
    ensures ValueOf(Letter(v)) == v && IsPlain(Letter(v)) && Letter(v) != SEPARATOR
  {
  }

  lemma LetterValue2(v: bv8)
    requires 16 <= v < 24
    ensures ValueOf(Letter(v)) == v && IsPlain(Letter(v)) && Letter(v) != SEPARATOR
  {
  }

  lemma LetterValue3(v: bv8)
    requires 24 <= v < 32
    ensures ValueOf(Letter(v)) == v && IsPlain(Letter(v)) && Letter(v) != SEPARATOR
  {
  }

  // Linearity of the whole checksum

  /** Value by value exclusive or. */
  function XorData(v: Data, w: Data): (r: Data)
    requires |v| == |w|
    ensures |r| == |v|
  {
    seq(|v|, i requires 0 <= i < |v| => v[i] ^ w[i])
  }

  lemma {:induction false} PolyLinear(c: bv32, d: bv32, v: Data, w: Data)
    requires |v| == |w|
    ensures Poly(Xor(c, d), XorData(v, w)) == Xor(Poly(c, v), Poly(d, w))
    decreases |v|
  {
    hide Step, Xor;
    if v != [] {
      StepLinear(c, d, v[0], w[0]);
      assert XorData(v, w)[1..] == XorData(v[1..], w[1..]);
      PolyLinear(Step(c, v[0]), Step(d, w[0]), v[1..], w[1..]);
    }
  }

  lemma {:induction false} PolyAppend(c: bv32, v: Data, w: Data)
    ensures Poly(c, v + w) == Poly(Poly(c, v), w)
    decreases |v|
  {
    hide Step;
    if v == [] {
      assert v + w == w;
    } else {
      assert (v + w)[1..] == v[1..] + w;
      PolyAppend(Step(c, v[0]), v[1..], w);
    }
  }

  lemma {:induction false} PolyBound(c: bv32, v: Data)
    requires c < BITS_30 && AllFive(v)
    ensures Poly(c, v) < BITS_30
    decreases |v|
  {
    hide Step;
    if v != [] {
      StepBound(c, v[0]);
      PolyBound(Step(c, v[0]), v[1..]);
    }
  }

  function Zeros(n: nat): (z: Data)
    ensures |z| == n
  {
    seq(n, _ => 0)
  }

  /** Zero values never bring a checksum to zero. */
  lemma {:induction false} PolyInjective(c: bv32, n: nat)
    requires c < BITS_30 && Poly(c, Zeros(n)) == 0
    ensures c == 0
    decreases n
  {
    hide Step;
    if n > 0 {
      assert Zeros(n)[1..] == Zeros(n - 1);
      StepBound(c, 0);
      PolyInjective(Step(c, 0), n - 1);
      StepInjective(c);
    }
  }

  lemma {:induction false} PolyOfZeros(n: nat)
    ensures Poly(0, Zeros(n)) == 0
  {
    hide Step;
    if n > 0 {
      assert Zeros(n)[1..] == Zeros(n - 1);
      assert Step(0, 0) == 0 by { StepSmall(0, 0); XorLaws(0); }
      PolyOfZeros(n - 1);
    }
  }

  // Making and checking a checksum

  function HighBits(c: bv8): (r: bv8)
    ensures r < 32
  {
    c >> 5
  }

  function LowBits(c: bv8): (r: bv8)
    ensures r < 32
  {
    c & 31
  }

  /** The human-readable part as values: the high bits of each character, a zero, the low bits. */
  function Expanded(hrp: Text): (r: Data)
    ensures |r| == 2 * |hrp| + 1 && AllFive(r)
  {
    seq(|hrp|, i requires 0 <= i < |hrp| => HighBits(hrp[i])) + [0] +
    seq(|hrp|, i requires 0 <= i < |hrp| => LowBits(hrp[i]))
  }

  method ExpandHRP(hrp: Text) returns (ret: Data)
    ensures ret == Expanded(hrp)
  {
    var r := new bv8[|hrp| * 2 + 1](_ => 0);
    for i := 0 to |hrp|
      invariant forall j | 0 <= j < i :: r[j] == HighBits(hrp[j]) && r[j + |hrp| + 1] == LowBits(hrp[j])
    {
      r[i] := hrp[i] >> 5;
      r[i + |hrp| + 1] := hrp[i] & 31;
    }
    r[|hrp|] := 0;
    return r[..];
  }

  predicate Verifies(hrp: Text, values: Data) {
    Poly(1, Expanded(hrp) + values) == 1
  }

  method VerifyChecksum(hrp: Text, values: Data) returns (ok: bool)
    ensures ok <==> Verifies(hrp, values)
  {
    var enc := ExpandHRP(hrp);
    var c := PolyMod(enc + values);
    return c == 1;
  }

  function LowGroup(x: bv32): (g: bv8)
    ensures g < 32
  {
    (x & 31) as bv8
  }

  /** The six 5-bit groups of a 30-bit word, the highest first. */
  function Groups(m: bv32): (r: Data)
    ensures |r| == 6 && AllFive(r)
  {
    [LowGroup(m >> 25), LowGroup(m >> 20), LowGroup(m >> 15), LowGroup(m >> 10), LowGroup(m >> 5), LowGroup(m)]
  }

  function Checksum(hrp: Text, values: Data): (r: Data)
    ensures |r| == 6 && AllFive(r)
  {
    Groups(Xor(Poly(1, Expanded(hrp) + values + Zeros(6)), 1))
  }

  method CreateChecksum(hrp: Text, values: Data) returns (ret: Data)
    ensures ret == Checksum(hrp, values)
  {
    hide Step;
    var enc := ExpandHRP(hrp);
    enc := enc + values + Zeros(6);
    var mod := PolyMod(enc);
    mod := mod ^ 1;
    ret := Groups(mod);
  }

  function Drop(x: bv32): bv32 {
    x >> 5
  }

  lemma Regrouped(x: bv32)
    ensures x == ((x >> 5) << 5) ^ (((x & 31) as bv8) as bv32)
  {
  }

  /** The lowest group of a word, stepped onto the rest. */
  lemma GroupStep(x: bv32)
    requires x < BITS_30
    ensures Step(Drop(x), LowGroup(x)) == x
  {
    hide Step;
    Regrouped(x);
    StepSmall(x >> 5, LowGroup(x));
  }

  /** A word without its k lowest groups. */
  function Dropped(m: bv32, k: nat): bv32
    decreases k
  {
    if k == 0 then m else Drop(Dropped(m, k - 1))
  }

  /** The k lowest groups. */
  function LastGroups(m: bv32, k: nat): (r: Data)
    ensures |r| == k
    decreases k
  {
    if k == 0 then [] else [LowGroup(Dropped(m, k - 1))] + LastGroups(m, k - 1)
  }

  lemma {:induction false} DroppedBound(m: bv32, k: nat)
    requires m < BITS_30
    ensures Dropped(m, k) < BITS_30
    decreases k
  {
    if k > 0 {
      DroppedBound(m, k - 1);
    }
  }

  /** Stepping the lowest groups onto the rest gives the word back. */
  lemma {:induction false} GroupsRestore(m: bv32, k: nat)
    requires m < BITS_30
    ensures Poly(Dropped(m, k), LastGroups(m, k)) == m
    decreases k
  {
    hide Step, LowGroup, Drop;
    if k > 0 {
      DroppedBound(m, k - 1);
      GroupStep(Dropped(m, k - 1));
      assert LastGroups(m, k)[1..] == LastGroups(m, k - 1);
      GroupsRestore(m, k - 1);
    }
  }

  lemma DropsAdd(m: bv32)
    ensures Drop(m) == m >> 5 && Drop(m >> 5) == m >> 10 && Drop(m >> 10) == m >> 15
    ensures Drop(m >> 15) == m >> 20 && Drop(m >> 20) == m >> 25
    ensures m < BITS_30 ==> Drop(m >> 25) == 0
  {
  }

  lemma DroppedAre(m: bv32)
    requires m < BITS_30
    ensures Dropped(m, 0) == m && Dropped(m, 1) == m >> 5 && Dropped(m, 2) == m >> 10 && Dropped(m, 3) == m >> 15
    ensures Dropped(m, 4) == m >> 20 && Dropped(m, 5) == m >> 25 && Dropped(m, 6) == 0
  {
    hide Drop;
    DropsAdd(m);
  }

  lemma {:induction false} LastGroupsAt(m: bv32, k: nat, i: nat)
    requires i < k
    ensures LastGroups(m, k)[i] == LowGroup(Dropped(m, k - 1 - i))
    decreases k
  {
    hide Dropped, LowGroup;
    if i > 0 {
      LastGroupsAt(m, k - 1, i - 1);
    }
  }

  lemma AllGroups(m: bv32)
    requires m < BITS_30
    ensures LastGroups(m, 6) == Groups(m)
  {
    hide Dropped, LowGroup, LastGroups;
    DroppedAre(m);
    forall i | 0 <= i < 6 ensures LastGroups(m, 6)[i] == Groups(m)[i] {
      LastGroupsAt(m, 6, i);
    }
  }

  /** The last six values enter the checksum unreduced. */
  lemma GroupsUnreduced(m: bv32)
    requires m < BITS_30
    ensures Poly(0, Groups(m)) == m
  {
    hide Step, Poly, Dropped;
    DroppedAre(m);
    GroupsRestore(m, 6);
    AllGroups(m);
  }

  /** With its checksum every list of values verifies. */
  lemma ChecksumVerifies(hrp: Text, values: Data)
    requires AllFive(values)
    ensures Verifies(hrp, values + Checksum(hrp, values))
  {
    hide Step, Xor, Poly, Groups, Expanded;
    var e := Expanded(hrp) + values;
    var p := Poly(1, e);
    var m := Poly(p, Zeros(6));
    PolyAppend(1, e, Zeros(6));
    PolyBound(1, e);
    PolyBound(p, Zeros(6));
    XorBound(m, 1);
    var chk := Groups(Xor(m, 1));
    GroupsUnreduced(Xor(m, 1));
    WithChecksum(p, chk);
    PolyAppend(1, e, chk);
    assert Expanded(hrp) + (values + chk) == e + chk;
    XorAssociates(m, m, 1);
    XorLaws(m);
    XorLaws(1);
  }

  lemma WithChecksum(p: bv32, chk: Data)
    requires |chk| == 6
    ensures Poly(p, chk) == Xor(Poly(p, Zeros(6)), Poly(0, chk))
  {
    hide Step, Xor, Poly;
    XorLaws(p);
    ZerosData(chk);
    PolyLinear(p, 0, Zeros(6), chk);
  }

  lemma ZerosData(v: Data)
    ensures XorData(Zeros(|v|), v) == v
  {
    var w := XorData(Zeros(|v|), v);
    forall i | 0 <= i < |v| ensures w[i] == v[i] {
      assert w[i] == 0 ^ v[i];
    }
  }
}
