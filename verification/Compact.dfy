/** The compact format of 256-bit difficulty targets: eight bits of exponent, a sign, 23 of mantissa. */
module Compact {
  import opened Arithmetic
  import opened ArithUint
  import opened Words

  const WIDTH_256 := 8

  const MANTISSA := 0x80_0000

  /** A power of 256, as a shift. */
  function Bytes(n: nat): (p: nat)
    ensures p > 0
  {
    Pow2(8 * n)
  }

  // The word-level steps

  /** What setting from a compact word yields: the number, and the two flags. */
  datatype Setting = Setting(value: nat, fNegative: bool, fOverflow: bool)

  function CompactWord(nCompact: Word): nat {
    var nSize, nWord := nCompact / 0x100_0000, nCompact % MANTISSA;
    if nSize <= 3 then Div(nWord, Bytes(3 - nSize)) else nWord
  }

  function SetOf(nCompact: Word): Setting {
    var nSize, nWord := nCompact / 0x100_0000, CompactWord(nCompact);
    Setting(
      if nSize <= 3 then nWord else nWord * Bytes(nSize - 3) % Place(WIDTH_256),
      nWord != 0 && nCompact / MANTISSA % 2 == 1,
      nWord != 0 && (nSize > 34 || (nWord > 0xff && nSize > 33) || (nWord > 0xffff && nSize > 32)))
  }

  /** The number a compact word stands for, without any limit. */
  function Whole(nCompact: Word): nat {
    var nSize, nWord := nCompact / 0x100_0000, CompactWord(nCompact);
    if nSize <= 3 then nWord
    else
      MulNat(nWord, Bytes(nSize - 3));
      nWord * Bytes(nSize - 3)
  }

  /** The overflow flag is raised exactly when that number has more than 256 bits, and the value is the rest of it. */
  lemma OverflowMeans(nCompact: Word)
    ensures SetOf(nCompact).fOverflow <==> Whole(nCompact) >= Place(WIDTH_256)
    ensures SetOf(nCompact).value == Whole(nCompact) % Place(WIDTH_256)
    ensures !SetOf(nCompact).fOverflow ==> SetOf(nCompact).value == Whole(nCompact)
  {
    hide Pow2, Place;
    var nSize, w := nCompact / 0x100_0000, CompactWord(nCompact);
    PlaceIsPow2(WIDTH_256);
    assert Place(WIDTH_256) == Bytes(32);
    assert w < MANTISSA;
    if nSize <= 3 {
      BytesGrow(3, 32);
      DivModIs(w, Place(WIDTH_256), 0, w);
    } else {
      FewBytesFit(w, nSize - 3);
      if !SetOf(nCompact).fOverflow {
        DivModIs(w * Bytes(nSize - 3), Place(WIDTH_256), 0, w * Bytes(nSize - 3));
      }
    }
  }

  lemma BytesGrow(m: nat, n: nat)
    requires m <= n
    ensures Bytes(m) <= Bytes(n) && Bytes(n) == Bytes(n - m) * Bytes(m)
    ensures Bytes(0) == 1 && Bytes(1) == 256 && Bytes(2) == 65536 && Bytes(3) == 16777216
  {
    Pow2Order(8 * m, 8 * n);
    Pow2Add(8 * (n - m), 8 * m);
    assert Pow2(8) == 256;
    Pow2Add(8, 8);
    Pow2Add(8, 16);
  }

  /** When a number of at most three bytes, with more bytes put behind it, has more than 32. */
  lemma FewBytesFit(w: nat, n: nat)
    requires w < MANTISSA
    ensures w * Bytes(n) >= Bytes(32) <==> w != 0 && (n > 31 || (w > 0xff && n > 30) || (w > 0xffff && n > 29))
  {
    hide Bytes;
    MulNat(w, Bytes(n));
    if n >= 32 {
      BytesGrow(32, n);
      if w > 0 {
        MulMonotone(Bytes(n), 1, w);
      }
    } else {
      BytesGrow(n, 32);
      var rest := Bytes(32 - n);
      BytesGrow(if 32 - n < 3 then 0 else 3, 32 - n);
      if w >= rest {
        MulMonotone(Bytes(n), rest, w);
      } else {
        MulStrict(Bytes(n), w, rest);
      }
    }
  }

  method SetCompact(x: BaseUint, nCompact: Word) returns (fNegative: bool, fOverflow: bool)
    requires x.Valid() && x.WIDTH == WIDTH_256
    modifies x.pn
    ensures Setting(x.Value(), fNegative, fOverflow) == SetOf(nCompact)
    ensures x.Value() == Whole(nCompact) % Place(WIDTH_256)
    ensures fOverflow <==> Whole(nCompact) >= Place(WIDTH_256)
    ensures fNegative <==> CompactWord(nCompact) != 0 && nCompact / MANTISSA % 2 == 1
  {
    hide Place, Val, Pow2, Whole;
    var nSize := nCompact / 0x100_0000;
    var nWord := nCompact % MANTISSA;
    if nSize <= 3 {
      nWord := Div(nWord, Bytes(3 - nSize));
      x.Set(nWord);
    } else {
      x.Set(nWord);
      x.ShiftLeft(8 * (nSize - 3));
    }
    fNegative := nWord != 0 && nCompact / MANTISSA % 2 == 1;
    fOverflow := nWord != 0 && (nSize > 34 || (nWord > 0xff && nSize > 33) || (nWord > 0xffff && nSize > 32));
    OverflowMeans(nCompact);
  }

  /** The three leading bytes of a number of so many bytes. */
  function ThreeBytes(v: nat, nBytes: nat): nat {
    if nBytes <= 3 then v * Bytes(3 - nBytes) else Div(v, Bytes(nBytes - 3))
  }

  /** The compact form of a number, told by its size in bytes. */
  function CompactOf(v: nat, nBytes: nat, fNegative: bool): nat {
    var nCompact := ThreeBytes(v, nBytes);
    var mantissa := if nCompact >= MANTISSA then nCompact / 256 else nCompact;
    var nSize := if nCompact >= MANTISSA then nBytes + 1 else nBytes;
    mantissa + nSize * 0x100_0000 + (if fNegative && mantissa != 0 then MANTISSA else 0)
  }

  /** How many bytes a number takes. */
  ghost predicate IsBytes(v: nat, n: nat) {
    v < Bytes(n) && (n > 0 ==> Bytes(n - 1) <= v)
  }

  lemma BytesOfBits(v: nat, bits: nat)
    requires IsBits(v, bits)
    ensures IsBytes(v, (bits + 7) / 8)
  {
    var n := (bits + 7) / 8;
    PowMonotone(2, bits, 8 * n);
    if n > 0 {
      PowMonotone(2, 8 * (n - 1), bits - 1);
    }
  }

  /** Three bytes are left, and they fit. */
  lemma Mantissa(v: nat, n: nat)
    requires IsBytes(v, n)
    ensures ThreeBytes(v, n) < 0x100_0000
  {
    hide Pow2;
    assert Bytes(3) == 0x100_0000 by { Pow2Of32(); }
    if n <= 3 {
      Pow2Add(8 * n, 8 * (3 - n));
      MulStrict(Bytes(3 - n), v, Bytes(n));
    } else {
      var d := Bytes(n - 3);
      Pow2Add(24, 8 * (n - 3));
      assert 24 + 8 * (n - 3) == 8 * n;
      assert v == v / d * d + v % d;
      if v / d >= 0x100_0000 {
        MulMonotone(d, 0x100_0000, v / d);
      }
    }
  }

  method LeadingBytes(x: BaseUint, nSize: nat) returns (nCompact: nat)
    requires x.Valid() && x.WIDTH == WIDTH_256 && IsBytes(x.Value(), nSize)
    ensures nCompact == ThreeBytes(x.Value(), nSize) < 0x100_0000
  {
    hide Place, Val, Pow2, IsBytes;
    Mantissa(x.Value(), nSize);
    if nSize <= 3 {
      var low := x.GetLow64();
      SmallLow(x.Value(), nSize);
      nCompact := low * Bytes(3 - nSize) % WORD;
      WithinSize(low * Bytes(3 - nSize), WORD);
    } else {
      var bn := new BaseUint.Copy(x);
      bn.ShiftRight(8 * (nSize - 3));
      var low := bn.GetLow64();
      WithinSize(bn.Value(), DWORD);
      nCompact := low % WORD;
      WithinSize(low, WORD);
    }
  }

  method GetCompact(x: BaseUint, fNegative: bool) returns (nCompact: nat)
    requires x.Valid() && x.WIDTH == WIDTH_256
    ensures exists n :: IsBytes(x.Value(), n) && nCompact == CompactOf(x.Value(), n, fNegative)
    ensures nCompact < WORD
  {
    hide Place, Val, Pow2, Or, IsBits, IsBytes, ThreeBytes;
    var bits := x.Bits();
    var nSize := (bits + 7) / 8;
    BytesOfBits(x.Value(), bits);
    ghost var n := nSize;
    nCompact := LeadingBytes(x, nSize);
    if nCompact >= MANTISSA {
      nCompact := nCompact / 256;
      nSize := nSize + 1;
    }
    assert nCompact < MANTISSA && nSize < 256;
    CompactOr(nCompact, nSize);
    ghost var mantissa := nCompact;
    nCompact := Or(nCompact, nSize * 0x100_0000);
    if fNegative && nCompact % MANTISSA != 0 {
      SignOr(mantissa, nSize);
      nCompact := Or(nCompact, MANTISSA);
    }
    assert nCompact == CompactOf(x.Value(), n, fNegative);
  }

  /** A number of at most three bytes lies in the lowest word. */
  lemma SmallLow(v: nat, n: nat)
    requires IsBytes(v, n) && n <= 3
    ensures v % DWORD == v
  {
    Pow2Of32();
    PowMonotone(2, 8 * n, 24);
    WithinSize(v, DWORD);
  }

  lemma CompactOr(mantissa: nat, nSize: nat)
    requires mantissa < MANTISSA && nSize < 256
    ensures Or(mantissa, nSize * 0x100_0000) == mantissa + nSize * 0x100_0000
    ensures (mantissa + nSize * 0x100_0000) % MANTISSA == mantissa
  {
    hide Or, Pow2;
    Pow2Of32();
    OrDisjoint(mantissa, nSize, 24);
    DivModIs(mantissa + nSize * 0x100_0000, MANTISSA, 2 * nSize, mantissa);
  }

  lemma SignOr(mantissa: nat, nSize: nat)
    requires mantissa < MANTISSA
    ensures Or(mantissa + nSize * 0x100_0000, MANTISSA) == mantissa + nSize * 0x100_0000 + MANTISSA
  {
    Pow2Of32();
    OrHigh(mantissa, 2 * nSize, 1, 23);
    OrZero(nSize);
    assert Or(2 * nSize, 1) == 2 * nSize + 1;
  }

  /** An or with a number whose low bits are zero leaves the low bits alone. */
  lemma {:induction false} OrHigh(x: nat, a: nat, b: nat, s: nat)
    requires x < Pow2(s)
    ensures Or(x + a * Pow2(s), b * Pow2(s)) == x + Or(a, b) * Pow2(s)
  {
    if s > 0 {
      var t := Pow2(s - 1);
      assert Pow2(s) == 2 * t;
      MulAssociate(a, 2, t);
      MulAssociate(b, 2, t);
      MulAssociate(Or(a, b), 2, t);
      OrHigh(x / 2, a, b, s - 1);
      OrDouble(x, a * t, b * t);
    }
  }

  lemma OrDouble(x: nat, a: nat, b: nat)
    ensures Or(x + 2 * a, 2 * b) == x % 2 + 2 * Or(x / 2 + a, b)
  {
    assert (x + 2 * a) / 2 == x / 2 + a && 2 * b / 2 == b;
    assert (x + 2 * a) % 2 == x % 2 && 2 * b % 2 == 0;
  }

  // What the format means

  /** The exponent of a number: the fewest bytes that hold it with its sign bit. */
  ghost predicate IsExponent(v: nat, e: nat) {
    if e == 0 then v == 0
    else v < Pow2(8 * e - 1) && (if e == 1 then v >= 1 else v >= Pow2(8 * e - 9))
  }

  /** The numbers with this exponent are kept to multiples of this. */
  function Granule(e: nat): (g: nat)
    ensures g > 0
  {
    if e <= 3 then 1 else Bytes(e - 3)
  }

  /** The three leading bytes overflow into the sign bit exactly when the number needs one byte more. */
  lemma SignBit(v: nat, n: nat)
    requires 0 < n
    ensures ThreeBytes(v, n) < MANTISSA <==> v < Pow2(8 * n - 1)
  {
    hide Pow2;
    Pow2Of32();
    if n <= 3 {
      Pow2Add(8 * n - 1, 8 * (3 - n));
      assert 8 * n - 1 + 8 * (3 - n) == 23;
      if v < Pow2(8 * n - 1) {
        MulStrict(Bytes(3 - n), v, Pow2(8 * n - 1));
      } else {
        MulMonotone(Bytes(3 - n), Pow2(8 * n - 1), v);
      }
    } else {
      Pow2Add(23, 8 * (n - 3));
      assert 23 + 8 * (n - 3) == 8 * n - 1;
      DivLess(v, Bytes(n - 3), MANTISSA);
    }
  }

  /** One byte more, and 256 less. */
  lemma NextMantissa(v: nat, n: nat)
    ensures ThreeBytes(v, n) / 256 == ThreeBytes(v, n + 1)
  {
    hide Pow2;
    Pow2Of32();
    if n < 3 {
      Pow2Add(8, 8 * (2 - n));
      assert 8 + 8 * (2 - n) == 8 * (3 - n);
      MulAssociate(v, 256, Bytes(2 - n));
      DivModIs(v * Bytes(3 - n), 256, v * Bytes(2 - n), 0);
    } else if n == 3 {
      Pow2Next(0);
    } else {
      Pow2Add(8 * (n - 3), 8);
      assert 8 * (n - 3) + 8 == 8 * (n - 2);
      DivDiv(v, Bytes(n - 3), 256);
    }
  }

  /** The compact word of a number is its exponent and its leading bytes. */
  lemma Encoded(v: nat, n: nat) returns (e: nat)
    requires IsBytes(v, n)
    ensures IsExponent(v, e) && ThreeBytes(v, e) < MANTISSA
    ensures CompactOf(v, n, false) == ThreeBytes(v, e) + e * 0x100_0000
  {
    hide Pow2, ThreeBytes;
    Mantissa(v, n);
    if n > 0 {
      SignBit(v, n);
    } else {
      NoBytes(v);
    }
    if ThreeBytes(v, n) >= MANTISSA {
      e := n + 1;
      NextMantissa(v, n);
      Pow2Order(8 * n, 8 * e - 1);
    } else {
      e := n;
      Pow2Order(8 * n - 9, 8 * (n - 1));
    }
  }

  lemma NoBytes(v: nat)
    requires v < Bytes(0)
    ensures v == 0 && ThreeBytes(v, 0) == 0
  {
  }

  /** What is left of a number in the compact format. */
  function Rounded(v: nat, e: nat): nat {
    v - v % Granule(e)
  }

  lemma ThreeBytesAre(v: nat, n: nat)
    ensures ThreeBytes(v, n) == if n <= 3 then v * Bytes(3 - n) else Div(v, Bytes(n - 3))
  {
  }

  /** Reading back the exponent and the leading bytes of a number. */
  lemma Decoded(v: nat, e: nat)
    requires v < Place(WIDTH_256) && IsExponent(v, e) && ThreeBytes(v, e) < MANTISSA
    ensures e <= 33
    ensures SetOf(ThreeBytes(v, e) + e * 0x100_0000) == Setting(Rounded(v, e), false, false)
  {
    hide Pow2, Place, IsExponent, ThreeBytes;
    FewBytes(v, e);
    ThreeBytesAre(v, e);
    var m := ThreeBytes(v, e);
    var c := m + e * 0x100_0000;
    DivModIs(c, 0x100_0000, e, m);
    DivModIs(c, MANTISSA, 2 * e, m);
    if e <= 3 {
      DivModIs(m, Bytes(3 - e), v, 0);
      DivModIs(v, 1, v, 0);
    } else {
      WithinSize(m * Bytes(e - 3), Place(WIDTH_256));
    }
  }

  /** 256 bits leave room for an exponent of 33 only when two bytes of mantissa do. */
  lemma FewBytes(v: nat, e: nat)
    requires v < Place(WIDTH_256) && IsExponent(v, e)
    ensures e <= 33
    ensures e == 33 ==> ThreeBytes(v, e) <= 0xffff
  {
    hide Pow2, Place;
    PlaceIsPow2(WIDTH_256);
    Pow2Order(256, 8 * e - 9);
    if e == 33 {
      Pow2Add(16, 240);
      Pow2Of32();
      DivLess(v, Bytes(30), 0x1_0000);
    }
  }

  /** The compact word of a number with a sign, however many bytes it takes. */
  ghost predicate IsCompact(v: nat, fNegative: bool, c: nat) {
    exists n :: IsBytes(v, n) && c == CompactOf(v, n, fNegative)
  }

  /** A word with the sign bit unset, its exponent and mantissa told. */
  ghost predicate Unsigned(v: nat, e: nat, c: nat) {
    && IsExponent(v, e) && ThreeBytes(v, e) < MANTISSA && c == ThreeBytes(v, e) + e * 0x100_0000
    && e <= 33
  }

  /** Only zero has no mantissa. */
  lemma Parts(v: nat, e: nat, c: nat)
    requires v < Place(WIDTH_256) && Unsigned(v, e, c)
    ensures c + MANTISSA < WORD && c / 0x100_0000 == e && (c + MANTISSA) / 0x100_0000 == e
    ensures c % MANTISSA == ThreeBytes(v, e)
    ensures SetOf(c) == Setting(Rounded(v, e), false, false)
    ensures CompactWord(c) != 0 <==> v != 0
    ensures SetOf(c + MANTISSA) == Setting(Rounded(v, e), v != 0, false)
    ensures ThreeBytes(v, e) != 0 <==> v != 0
  {
    hide Pow2, Place, ThreeBytes, IsExponent, Rounded;
    Decoded(v, e);
    RoundedNotZero(v, e);
    NothingIsZero(v, e);
    var m := ThreeBytes(v, e);
    DivModIs(c, 0x100_0000, e, m);
    DivModIs(c, MANTISSA, 2 * e, m);
    DivModIs(c + MANTISSA, 0x100_0000, e, m + MANTISSA);
    DivModIs(c + MANTISSA, MANTISSA, 2 * e + 1, m);
    assert CompactWord(c + MANTISSA) == CompactWord(c);
    if m == 0 {
      NoMantissa(c);
    }
    NotNothing(c);
  }

  lemma NotNothing(c: Word)
    requires !SetOf(c).fOverflow
    ensures SetOf(c).value != 0 <==> CompactWord(c) != 0
  {
    OverflowMeans(c);
    if c / 0x100_0000 > 3 && CompactWord(c) != 0 {
      MulMonotone(Bytes(c / 0x100_0000 - 3), 1, CompactWord(c));
    }
  }

  lemma NoMantissa(c: Word)
    requires c % MANTISSA == 0
    ensures CompactWord(c) == 0
  {
    hide Pow2;
    if c / 0x100_0000 <= 3 {
      DivModIs(0, Bytes(3 - c / 0x100_0000), 0, 0);
    }
  }

  lemma NothingIsZero(v: nat, e: nat)
    ensures v == 0 ==> ThreeBytes(v, e) == 0
  {
    hide Pow2;
    if v == 0 && e > 3 {
      DivModIs(0, Bytes(e - 3), 0, 0);
    }
  }

  lemma RoundedNotZero(v: nat, e: nat)
    requires IsExponent(v, e)
    ensures Rounded(v, e) != 0 <==> v != 0
  {
    RoundedExponent(v, e);
  }

  /** The sign is set for every number but zero. */
  lemma Signed(v: nat, n: nat, fNegative: bool) returns (e: nat, c: nat)
    requires v < Place(WIDTH_256) && IsBytes(v, n)
    ensures Unsigned(v, e, c) && CompactOf(v, n, fNegative) == c + (if fNegative && v != 0 then MANTISSA else 0)
  {
    hide Pow2, Place, ThreeBytes, IsExponent, SetOf, CompactWord, IsBytes;
    c := CompactOf(v, n, false);
    e := Encoded(v, n);
    Decoded(v, e);
    Parts(v, e, c);
    var t := ThreeBytes(v, n);
    var mantissa := if t >= MANTISSA then t / 256 else t;
    var nSize := if t >= MANTISSA then n + 1 else n;
    Mantissa(v, n);
    DivModIs(c, 0x100_0000, nSize, mantissa);
    assert mantissa == ThreeBytes(v, e);
  }

  /**
   * Encoding and decoding any 256-bit number gives back its sign, unless it is zero, never overflows, and
   * rounds it down, by less than its granule: exactly the number itself while the exponent is at most three.
   */
  lemma RoundTrip(v: nat, fNegative: bool, c: Word)
    requires v < Place(WIDTH_256) && IsCompact(v, fNegative, c)
    ensures var r := SetOf(c);
            && (r.fNegative <==> fNegative && v != 0) && !r.fOverflow
            && r.value <= v < r.value + Granule(c / 0x100_0000)
            && (c / 0x100_0000 <= 3 ==> r.value == v)
  {
    hide Pow2, Place, IsExponent, ThreeBytes, SetOf, CompactOf, IsBytes, CompactWord;
    var n :| IsBytes(v, n) && c == CompactOf(v, n, fNegative);
    var e, c0 := Signed(v, n, fNegative);
    Parts(v, e, c0);
  }

  lemma SameExponent(v: nat, e: nat, e': nat)
    requires IsExponent(v, e) && IsExponent(v, e')
    ensures e == e'
  {
    LargerExponent(v, e, v, e');
    LargerExponent(v, e', v, e);
  }

  lemma LargerExponent(v: nat, e: nat, v': nat, e': nat)
    requires v <= v' && IsExponent(v, e) && IsExponent(v', e')
    ensures e <= e'
  {
    hide Pow2;
    Pow2Order(8 * e' - 1, 8 * e - 9);
  }

  /** The least number with an exponent is a multiple of its granule, so rounding keeps the exponent. */
  lemma RoundedExponent(v: nat, e: nat)
    requires IsExponent(v, e)
    ensures IsExponent(Rounded(v, e), e)
  {
    hide Pow2;
    if e > 3 {
      LeastIsMultiple(v, e);
    } else {
      DivModIs(v, 1, v, 0);
    }
  }

  lemma LeastIsMultiple(v: nat, e: nat)
    requires e > 3 && v >= Pow2(8 * e - 9)
    ensures Rounded(v, e) >= Pow2(8 * e - 9)
  {
    hide Pow2;
    Pow2Add(15, 8 * (e - 3));
    assert 15 + 8 * (e - 3) == 8 * e - 9;
    var g := Bytes(e - 3);
    var q := Div(v, g);
    DivLess(v, g, Pow2(15));
    MulMonotone(g, Pow2(15), q);
    assert Rounded(v, e) == q * g;
  }

  /** Rounding keeps the order. */
  lemma RoundedMonotone(v: nat, e: nat, v': nat, e': nat)
    requires v <= v' && IsExponent(v, e) && IsExponent(v', e')
    ensures Rounded(v, e) <= Rounded(v', e')
  {
    hide Pow2;
    LargerExponent(v, e, v', e');
    if e == e' {
      DivMonotone(v, v', Granule(e));
    } else if e' > 3 {
      LeastIsMultiple(v', e');
      Pow2Order(8 * e - 1, 8 * e' - 9);
    } else {
      DivModIs(v, 1, v, 0);
      DivModIs(v', 1, v', 0);
    }
  }

  /** The compact format keeps the order of numbers. */
  lemma CompactMonotone(v: nat, c: Word, v': nat, c': Word)
    requires v <= v' < Place(WIDTH_256) && IsCompact(v, false, c) && IsCompact(v', false, c')
    ensures SetOf(c).value <= SetOf(c').value
  {
    hide Pow2, Place, IsExponent, ThreeBytes, SetOf, CompactOf, IsBytes;
    var n :| IsBytes(v, n) && c == CompactOf(v, n, false);
    var n' :| IsBytes(v', n') && c' == CompactOf(v', n', false);
    var e := Encoded(v, n);
    var e' := Encoded(v', n');
    Decoded(v, e);
    Decoded(v', e');
    RoundedMonotone(v, e, v', e');
  }

  /** What was decoded from a compact word, sign and all, encodes to the same word again. */
  lemma CompactStable(v: nat, fNegative: bool, c: Word, c': nat)
    requires v < Place(WIDTH_256) && IsCompact(v, fNegative, c)
    requires IsCompact(SetOf(c).value, SetOf(c).fNegative, c')
    ensures c' == c
  {
    hide Pow2, Place, IsExponent, ThreeBytes, SetOf, CompactOf, IsBytes, CompactWord, Rounded;
    var n :| IsBytes(v, n) && c == CompactOf(v, n, fNegative);
    var e, c0 := Signed(v, n, fNegative);
    Parts(v, e, c0);
    var r := Rounded(v, e);
    var n' :| IsBytes(r, n') && c' == CompactOf(r, n', SetOf(c).fNegative);
    RoundedLess(v, e);
    var e', c0' := Signed(r, n', SetOf(c).fNegative);
    RoundedExponent(v, e);
    RoundedNotZero(v, e);
    SameExponent(r, e, e');
    RoundedBytes(v, e);
  }

  lemma RoundedLess(v: nat, e: nat)
    ensures Rounded(v, e) <= v
  {
  }

  lemma RoundedBytes(v: nat, e: nat)
    ensures ThreeBytes(Rounded(v, e), e) == ThreeBytes(v, e)
  {
    hide Pow2;
    var g := Granule(e);
    DivModIs(Rounded(v, e), g, Div(v, g), 0);
    if e <= 3 {
      DivModIs(v, 1, v, 0);
    }
  }
}
