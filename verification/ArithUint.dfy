/** Unsigned integers of fixed width, worked on in place word by word. */
module ArithUint {
  import opened Arithmetic
  import opened Words

  /** Keeping the low word of n at a place and carrying the rest to the next. */
  lemma Store(s: seq<Word>, k: nat, n: nat)
    requires k < |s|
    ensures Val(s[k := n % WORD]) + n / WORD * Place(k + 1) == Val(s) - s[k] * Place(k) + n * Place(k)
  {
    hide Place, Val;
    ValUpdate(s, k, n % WORD);
    MulDistribute(n % WORD, s[k], Place(k));
    Carry(n, k);
  }

  /** What is left of a number when only so many words of it are kept. */
  lemma Truncated(v: nat, total: nat, over: nat, w: nat)
    requires v + over * Place(w) == total && v < Place(w)
    ensures v == total % Place(w)
  {
    DivModIs(total, Place(w), over, v);
  }

  class BaseUint {
    const WIDTH: nat
    const pn: array<Word>

    predicate Valid() {
      WIDTH >= 2 && pn.Length == WIDTH
    }

    ghost function Words(): seq<Word>
      reads pn
    {
      pn[..]
    }

    ghost function Value(): nat
      reads pn
    {
      Val(pn[..])
    }

    ghost function Size(): (p: nat)
      ensures p > 0
    {
      Place(WIDTH)
    }

    constructor (width: nat)
      requires width >= 2
      ensures Valid() && WIDTH == width && fresh(pn) && Value() == 0
    {
      WIDTH := width;
      pn := new Word[width](_ => 0);
      new;
      ValZeros(pn[..]);
    }

    constructor Copy(b: BaseUint)
      requires b.Valid()
      ensures Valid() && WIDTH == b.WIDTH && fresh(pn) && pn[..] == b.pn[..]
    {
      WIDTH := b.WIDTH;
      pn := new Word[b.WIDTH](_ => 0);
      new;
      for i := 0 to WIDTH
        invariant pn[..i] == b.pn[..i] && fresh(pn)
      {
        pn[i] := b.pn[i];
      }
      assert pn[..WIDTH] == pn[..] && b.pn[..WIDTH] == b.pn[..];
    }

    /** Assigning a 64-bit value. */
    method Set(b64: nat)
      requires Valid() && b64 < DWORD
      modifies pn
      ensures Value() == b64
    {
      pn[0], pn[1] := b64 % WORD, b64 / WORD;
      for i := 2 to WIDTH
        invariant pn[0] == b64 % WORD && pn[1] == b64 / WORD
        invariant forall j | 2 <= j < i :: pn[j] == 0
      {
        pn[i] := 0;
      }
      ValSplit(pn[..], 2);
      ValZeros(pn[2..]);
      assert pn[..][..2] == [b64 % WORD, b64 / WORD] && pn[..][2..] == pn[2..];
      ValPrefix(pn[..], 0);
      ValPrefix(pn[..], 1);
      assert Val(pn[..][..0]) == 0;
      assert Place(0) == 1 && Place(1) == WORD;
    }

    /** Addition, wrapping at the width; the 64-bit intermediate never overflows. */
    method Add(b: BaseUint)
      requires Valid() && b.Valid() && b.WIDTH == WIDTH
      modifies pn
      ensures Value() == (old(Value()) + old(b.Value())) % Size()
    {
      hide Place, Val;
      ghost var other := b.pn[..];
      var carry := 0;
      assert other[..0] == [];
      ValNone();
      for i := 0 to WIDTH
        invariant 0 <= carry <= 1
        invariant pn[i..] == old(pn[..])[i..]
        invariant b.pn[i..] == other[i..]
        invariant Val(pn[..]) + carry * Place(i) == old(Val(pn[..])) + Val(other[..i])
      {
        var n := carry + pn[i] + b.pn[i];
        assert n < DWORD;
        assert b.pn[i] == b.pn[i..][0] == other[i];
        SumStep(pn[..], other, i, carry, old(Value()));
        ghost var next := pn[..][i := n % WORD];
        pn[i] := n % WORD;
        assert pn[..] == next;
        carry := n / WORD;
      }
      assert other[..WIDTH] == other;
      ValBound(pn[..]);
      Truncated(Val(pn[..]), old(Value()) + old(b.Value()), carry, WIDTH);
    }

    /** Prefix increment: the carry runs through the words that overflow. */
    method Increment()
      requires Valid()
      modifies pn
      ensures Value() == (old(Value()) + 1) % Size()
    {
      hide Place, Val;
      var i := 0;
      PlaceNext(0);
      while true
        invariant 0 <= i < WIDTH
        invariant Val(pn[..]) == old(Val(pn[..])) + 1 - Place(i)
        invariant forall j | 0 <= j < i :: pn[j] == 0
        decreases WIDTH - i
      {
        var n: int := pn[i];
        n := n + 1;
        Store(pn[..], i, n);
        MulDistribute(pn[i], 1, Place(i));
        ghost var carry := n / WORD;
        assert pn[..][i := n % WORD] == pn[..i] + [n % WORD] + pn[i + 1..];
        pn[i] := n % WORD;
        if !(pn[i] == 0 && i < WIDTH - 1) {
          ValBound(pn[..]);
          assert carry == 0 || (carry == 1 && i == WIDTH - 1);
          Truncated(Val(pn[..]), old(Value()) + 1, carry, WIDTH);
          return;
        }
        assert carry == 1;
        i := i + 1;
      }
    }

    /** The complement of every bit. */
    method Complement() returns (ret: BaseUint)
      requires Valid()
      ensures ret.Valid() && ret.WIDTH == WIDTH && fresh(ret) && fresh(ret.pn)
      ensures ret.Value() == Size() - 1 - Value()
    {
      hide Place, Val, Complements;
      ret := new BaseUint(WIDTH);
      NoComplement(ret.pn[..0], pn[..0]);
      for i := 0 to WIDTH
        invariant Complements(ret.pn[..i], pn[..i])
      {
        ComplementStep(ret.pn[..i], pn[..i], pn[i]);
        ghost var next := ret.pn[..i] + [WORD - 1 - pn[i]];
        ret.pn[i] := WORD - 1 - pn[i];
        assert ret.pn[..i + 1] == next && pn[..i + 1] == pn[..i] + [pn[i]];
      }
      assert ret.pn[..WIDTH] == ret.pn[..] && pn[..WIDTH] == pn[..];
      ComplementIs(ret.pn[..], pn[..]);
    }

    /** Unary minus. */
    method Negated() returns (ret: BaseUint)
      requires Valid()
      ensures ret.Valid() && ret.WIDTH == WIDTH && fresh(ret) && fresh(ret.pn)
      ensures ret.Value() == (Size() - Value()) % Size()
    {
      ret := Complement();
      ret.Increment();
    }

    method Sub(b: BaseUint)
      requires Valid() && b.Valid() && b.WIDTH == WIDTH
      modifies pn
      ensures Value() == (old(Value()) - old(b.Value())) % Size()
    {
      hide Place, Val;
      var minus := b.Negated();
      Add(minus);
      ModOfSum(old(Value()), Size() - old(b.Value()), Size());
      WrapAround(old(Value()) - old(b.Value()), Size());
    }

    /** Prefix decrement: the borrow runs through the words that underflow. */
    method Decrement()
      requires Valid()
      modifies pn
      ensures Value() == (old(Value()) - 1) % Size()
    {
      hide Place, Val;
      var i := 0;
      PlaceNext(0);
      while true
        invariant 0 <= i < WIDTH
        invariant Val(pn[..]) == old(Val(pn[..])) - 1 + Place(i)
        decreases WIDTH - i
      {
        ghost var was := pn[i];
        var w := if pn[i] == 0 then WORD - 1 else pn[i] - 1;
        ValUpdate(pn[..], i, w);
        MulDistribute(w, was, Place(i));
        MulDistribute(WORD, 1, Place(i));
        assert pn[..][i := w] == pn[..i] + [w] + pn[i + 1..];
        pn[i] := w;
        PlaceNext(i);
        if !(pn[i] == WORD - 1 && i < WIDTH - 1) {
          ValBound(pn[..]);
          DivModIs(old(Value()) - 1, Size(), if was == 0 then -1 else 0, Val(pn[..]));
          return;
        }
        if was != 0 {
          assert false;
        }
        i := i + 1;
      }
    }

    /** Multiplication by a word. */
    method MulWord(b32: Word)
      requires Valid()
      modifies pn
      ensures Value() == old(Value()) * b32 % Size()
    {
      hide Place, Val;
      ghost var a := pn[..];
      var carry := 0;
      PlaceNext(0);
      assert a[..0] == [];
      ValNone();
      for i := 0 to WIDTH
        invariant 0 <= carry < WORD
        invariant pn[i..] == a[i..]
        invariant Val(pn[..]) + carry * Place(i) == Val(a) - Val(a[..i]) + Val(a[..i]) * b32
      {
        assert pn[i] == pn[i..][0] == a[i];
        WordProduct(b32, pn[i]);
        var n := carry + b32 * pn[i];
        assert n < DWORD;
        WordStep(pn[..], a, b32, i, carry);
        HighWord(n);
        ghost var next := pn[..][i := n % WORD];
        pn[i] := n % WORD;
        assert pn[..] == next;
        carry := n / WORD;
      }
      assert a[..WIDTH] == a;
      ValBound(pn[..]);
      Truncated(Val(pn[..]), Val(a) * b32, carry, WIDTH);
    }

    /** Multiplication; of a number with itself it gives zero, because the operand is zeroed before it is read. */
    method Mul(b: BaseUint)
      requires Valid() && b.Valid() && b.WIDTH == WIDTH
      modifies pn
      ensures Value() == if b.pn == pn then 0 else old(Value()) * old(b.Value()) % Size()
    {
      hide Place, Val;
      var a := new BaseUint.Copy(this);
      Set(0);
      ghost var over := 0;
      assert a.pn[..0] == [];
      ValNone();
      for j := 0 to WIDTH
        invariant fresh(a.pn) && a.pn[..] == old(pn[..]) && over >= 0
        invariant Value() + over * Size() == Val(a.pn[..j]) * b.Value()
        invariant b.pn == pn ==> Value() == 0
      {
        ghost var more := MulRow(b, a.pn[j], j);
        assert a.pn[..j + 1] == a.pn[..][..j + 1] && a.pn[..j] == a.pn[..][..j];
        ValPrefix(a.pn[..], j);
        MulDistribute(Val(a.pn[..j]), a.pn[j] * Place(j), b.Value());
        MulDistribute(over, more, Size());
        over := over + more;
      }
      assert a.pn[..WIDTH] == a.pn[..];
      if b.pn != pn {
        ValBound(pn[..]);
        Truncated(Value(), old(Value()) * b.Value(), over, WIDTH);
      }
    }

    /** One row of a long multiplication; zeros stay zeros even when both are one array. */
    method MulRow(b: BaseUint, aj: Word, j: nat) returns (ghost over: nat)
      requires Valid() && b.Valid() && b.WIDTH == WIDTH && j < WIDTH
      requires b.pn == pn ==> Value() == 0
      modifies pn
      ensures Value() + over * Size() == old(Value()) + aj * Place(j) * b.Value()
      ensures b.pn == pn ==> Value() == 0
    {
      hide Place, Val;
      var carry := 0;
      assert b.pn[..0] == [];
      ValNone();
      ZeroWords(pn[..]);
      for i := 0 to WIDTH - j
        invariant 0 <= carry < WORD
        invariant Value() + carry * Place(i + j) == old(Value()) + aj * Place(j) * Val(b.pn[..i])
        invariant b.pn[..] == old(b.pn[..])
        invariant b.pn == pn ==> carry == 0 && forall p | 0 <= p < WIDTH :: pn[p] == 0
      {
        WordProduct(aj, b.pn[i]);
        var n := carry + pn[i + j] + aj * b.pn[i];
        assert n < DWORD;
        assert b.pn[..i] == b.pn[..][..i] && b.pn[..i + 1] == b.pn[..][..i + 1];
        RowStep(pn[..], b.pn[..], aj, i, j, carry, old(Value()));
        HighWord(n);
        ghost var next := pn[..][i + j := n % WORD];
        assert b.pn == pn ==> n == 0 && next == b.pn[..];
        pn[i + j] := n % WORD;
        assert pn[..] == next;
        carry := n / WORD;
      }
      over := RowOver(carry, aj, b.pn[..], j);
    }

    /** Shifting left: the bits that leave at the top are lost. */
    method ShiftLeft(shift: nat)
      requires Valid()
      modifies pn
      ensures Value() == old(Value()) * Pow2(shift) % Size()
    {
      hide Place, Val, Pow2, Or, Shl, Shr, ShiftedLeft, WordShiftedLeft;
      var a := new BaseUint.Copy(this);
      Clear();
      var k, r := shift / 32, shift % 32;
      ghost var over := 0;
      ShlStart(pn[..], a.pn[..], k, r);
      for i := 0 to WIDTH
        invariant a.pn[..] == old(pn[..])
        invariant ShiftedLeft(pn[..], a.pn[..], i, k, r, over)
        invariant forall p | i + k < p < WIDTH :: pn[p] == 0
        invariant i + k < WIDTH ==> pn[i + k] < Pow2(r)
      {
        ghost var s := pn[..];
        ghost var more := ShiftWordLeft(a.pn[i], i + k, r);
        ShlSum(a.pn[..], i, k, r, s, over, pn[..], more);
        over := over + more;
      }
      ShlEnd(pn[..], a.pn[..], k, r, over);
      assert 32 * k + r == shift;
    }

    method Clear()
      requires Valid()
      modifies pn
      ensures Value() == 0 && forall p | 0 <= p < WIDTH :: pn[p] == 0
    {
      for i := 0 to WIDTH
        invariant forall p | 0 <= p < i :: pn[p] == 0
      {
        pn[i] := 0;
      }
      ValZeros(pn[..]);
    }

    /** One word of a left shift, in two halves. */
    method ShiftWordLeft(w: Word, q: nat, r: nat) returns (ghost over: nat)
      requires Valid() && r < 32
      requires forall p | q < p < WIDTH :: pn[p] == 0
      requires q < WIDTH ==> pn[q] < Pow2(r)
      modifies pn
      ensures WordShiftedLeft(pn[..], old(pn[..]), w, q, r, over)
      ensures forall p | q + 1 < p < WIDTH :: pn[p] == 0
      ensures q + 1 < WIDTH ==> pn[q + 1] < Pow2(r)
    {
      hide Place, Val, Pow2, Or, Shl, Shr;
      ghost var s := pn[..];
      if q + 1 < WIDTH && r != 0 {
        OrZero(Shr(w, 32 - r));
        ShiftedWord(w, r);
        pn[q + 1] := Or(pn[q + 1], Shr(w, 32 - r));
      }
      if q < WIDTH {
        OrShl(pn[q], w, r);
        pn[q] := Or(pn[q], Shl(w, r));
        over := ShlStep(s, w, q, r);
        assert pn[..] == ShlAt(s, w, q, r);
      } else {
        PlaceAdd(q - WIDTH, WIDTH);
        over := w * Pow2(r) * Place(q - WIDTH);
        MulAssociate(w * Pow2(r), Place(q - WIDTH), Size());
        assert pn[..] == s;
      }
    }

    /** Shifting right: the bits that leave at the bottom are lost. */
    method ShiftRight(shift: nat)
      requires Valid()
      modifies pn
      ensures Value() == old(Value()) / Pow2(shift)
    {
      hide Place, Val, Pow2, Or, Shl, Shr, ShiftedRight, WordShiftedRight;
      var a := new BaseUint.Copy(this);
      Clear();
      var k, r := shift / 32, shift % 32;
      ghost var low := 0;
      ShrStart(pn[..], a.pn[..], k, r);
      for i := 0 to WIDTH
        invariant a.pn[..] == old(pn[..])
        invariant ShiftedRight(pn[..], a.pn[..], i, k, r, low)
        invariant i <= k ==> Val(pn[..]) == 0
        invariant forall p: nat | i - k <= p < WIDTH :: pn[p] == 0
        invariant i - k - 1 >= 0 ==> pn[i - k - 1] < Pow2(32 - r)
      {
        ghost var s := pn[..];
        ghost var lost := 0;
        if i >= k {
          lost := ShiftWordRight(a.pn[i], i - k, r);
        }
        low := ShrSum(a.pn[..], i, k, r, s, low, pn[..], lost);
      }
      ShrEnd(pn[..], a.pn[..], k, r, low);
      assert 32 * k + r == shift;
    }

    /** One word of a right shift, in two halves; what falls off the lowest word is lost. */
    method ShiftWordRight(w: Word, q: nat, r: nat) returns (ghost lost: nat)
      requires Valid() && r < 32 && q < WIDTH
      requires forall p | q <= p < WIDTH :: pn[p] == 0
      requires q > 0 ==> pn[q - 1] < Pow2(32 - r)
      modifies pn
      ensures WordShiftedRight(pn[..], old(pn[..]), w, q, r, lost)
      ensures forall p | q + 1 <= p < WIDTH :: pn[p] == 0
      ensures pn[q] < Pow2(32 - r)
    {
      hide Place, Val, Pow2, Or, Shl, Shr;
      ghost var s := pn[..];
      if q - 1 >= 0 && r != 0 {
        OrShl(pn[q - 1], w, 32 - r);
        pn[q - 1] := Or(pn[q - 1], Shl(w, 32 - r));
      }
      OrZero(Shr(w, r));
      ShrSmall(w, r);
      pn[q] := Or(pn[q], Shr(w, r));
      lost := ShrStep(s, w, q, r);
      assert pn[..] == ShrAt(s, w, q, r);
    }

    /** Comparison is that of the numbers. */
    method CompareTo(b: BaseUint) returns (c: int)
      requires Valid() && b.Valid() && b.WIDTH == WIDTH
      ensures c == if Value() < b.Value() then -1 else if Value() > b.Value() then 1 else 0
      ensures c == 0 <==> pn[..] == b.pn[..]
    {
      hide Place, Val;
      for i := WIDTH downto 0
        invariant pn[i..] == b.pn[i..]
      {
        assert pn[..][i + 1..] == pn[i + 1..] && b.pn[..][i + 1..] == b.pn[i + 1..];
        if pn[i] < b.pn[i] {
          ValLess(pn[..], b.pn[..], i);
          return -1;
        }
        if pn[i] > b.pn[i] {
          ValLess(b.pn[..], pn[..], i);
          return 1;
        }
      }
      assert pn[0..] == pn[..] && b.pn[0..] == b.pn[..];
      return 0;
    }

    /** The position of the highest bit set plus one, or zero. */
    method Bits() returns (n: nat)
      requires Valid()
      ensures IsBits(Value(), n) && n <= 32 * WIDTH
    {
      hide Place, Val, Pow2, Bit, IsBits;
      for pos := WIDTH downto 0
        invariant forall p | pos <= p < WIDTH :: pn[p] == 0
      {
        if pn[pos] != 0 {
          WordTop(pn[pos]);
          for bits := 32 downto 1
            invariant pn[pos] < Pow2(bits)
          {
            TestBit(pn[pos], bits);
            if Bit(pn[pos], bits) {
              TopWord(pn[..], pos, bits);
              return 32 * pos + bits + 1;
            }
          }
          LastBit(pn[pos]);
          TopWord(pn[..], pos, 0);
          return 32 * pos + 1;
        }
      }
      ValZeros(pn[..]);
      NoBits();
      return 0;
    }

    /** The two lowest words. */
    method GetLow64() returns (v: nat)
      requires Valid()
      ensures v == Value() % DWORD
    {
      hide Place, Val, Or;
      Pow2Of32();
      OrDisjoint(pn[0], pn[1], 32);
      v := Or(pn[0], pn[1] * WORD);
      LowWords(pn[..]);
    }

    /**
     * Division: the quotient is exact, whatever the dividend and the non-zero divisor. The divisor
     * may be this number itself.
     */
    method Div(b: BaseUint) returns (divisionByZero: bool)
      requires Valid() && b.Valid() && b.WIDTH == WIDTH
      modifies pn
      ensures divisionByZero <==> old(b.Value()) == 0
      ensures Value() == if divisionByZero then 0 else old(Value()) / old(b.Value())
    {
      hide Place, Val, Pow2, IsBits, Dividing;
      var div := new BaseUint.Copy(b);
      var num := new BaseUint.Copy(this);
      Clear();
      var numBits := num.Bits();
      var divBits := div.Bits();
      ZeroBits(div.Value(), divBits);
      if divBits == 0 {
        return true;
      }
      if divBits > numBits {
        SmallDividend(num.Value(), numBits, div.Value(), divBits);
        return false;
      }
      ghost var n, d := num.Value(), div.Value();
      var shift := numBits - divBits;
      Aligned(n, numBits, d, divBits, WIDTH);
      div.ShiftLeft(shift);
      DivideStart(pn[..], n, d, shift);
      while shift >= 0
        invariant -1 <= shift < 32 * WIDTH
        invariant fresh(div.pn) && fresh(num.pn) && div.pn != num.pn
        invariant Dividing(pn[..], num.Value(), n, d, shift + 1)
        invariant shift >= 0 ==> div.Value() == d * Pow2(shift)
      {
        ghost var q, r := pn[..], num.Value();
        DivideClear(q, r, n, d, shift);
        ValBound(num.pn[..]);
        var c := num.CompareTo(div);
        if c >= 0 {
          num.Sub(div);
          WithinSize(r - d * Pow2(shift), num.Size());
          SetBit(shift);
          DivideTake(q, pn[..], r, n, d, shift);
        } else {
          DivideLeave(q, r, n, d, shift);
        }
        div.ShiftRight(1);
        if shift > 0 {
          HalfDivisor(d, shift);
        }
        shift := shift - 1;
      }
      DivideEnd(pn[..], num.Value(), n, d);
      return false;
    }

    /** Sets a bit of the quotient, below all those set so far. */
    method SetBit(shift: nat)
      requires Valid() && shift < 32 * WIDTH
      requires ClearBelow(pn[..], shift + 1)
      modifies pn
      ensures Value() == old(Value()) + Pow2(shift)
      ensures ClearBelow(pn[..], shift)
    {
      hide Place, Val, Pow2, Or, ClearUpTo;
      ghost var s := pn[..];
      var i, r := shift / 32, shift % 32;
      SetBitWord(s, i, r);
      assert 32 * i + r == shift;
      pn[i] := Or(pn[i], Pow2(r));
      assert pn[..] == s[i := s[i] + Pow2(r)];
      ClearWords(pn[..], shift);
    }
  }

  ghost predicate Complements(c: seq<Word>, s: seq<Word>) {
    |c| == |s| && Val(c) == Place(|s|) - 1 - Val(s)
  }

  lemma ComplementIs(c: seq<Word>, s: seq<Word>)
    requires Complements(c, s)
    ensures Val(c) == Place(|s|) - 1 - Val(s)
  {
  }

  lemma NoComplement(c: seq<Word>, s: seq<Word>)
    requires c == [] && s == []
    ensures Complements(c, s)
  {
  }

  /** One word more of a one's complement. */
  lemma ComplementStep(c: seq<Word>, s: seq<Word>, w: Word)
    requires Complements(c, s)
    ensures Complements(c + [WORD - 1 - w], s + [w])
  {
    hide Place, Val;
    ValAppend(c, WORD - 1 - w);
    ValAppend(s, w);
    var p := Place(|s|);
    PlaceNext(|s|);
    ComplementProduct(w, p);
  }

  lemma ComplementProduct(w: int, p: int)
    ensures (WORD - 1 - w) * p == WORD * p - p - w * p
  {
    MulDistribute(WORD - 1, w, p);
    MulDistribute(WORD, 1, p);
  }

  lemma {:induction false} ZeroWords(s: seq<Word>)
    ensures Val(s) == 0 ==> forall i | 0 <= i < |s| :: s[i] == 0
  {
    if s != [] {
      MulNat(s[|s| - 1], Place(|s| - 1));
      ZeroWords(s[..|s| - 1]);
    }
  }

  lemma WordProduct(x: Word, y: Word)
    ensures 0 <= x * y <= (WORD - 1) * (WORD - 1)
  {
    MulMonotone(x, y, WORD - 1);
    MulMonotone(WORD - 1, x, WORD - 1);
  }

  lemma HighWord(n: nat)
    requires n < DWORD
    ensures n / WORD < WORD
  {
  }

  /** One word of a sum. */
  lemma SumStep(s: seq<Word>, b: seq<Word>, i: nat, carry: nat, v: nat)
    requires i < |s| == |b|
    requires Val(s) + carry * Place(i) == v + Val(b[..i])
    ensures var n := carry + s[i] + b[i];
            Val(s[i := n % WORD]) + n / WORD * Place(i + 1) == v + Val(b[..i + 1])
  {
    hide Place, Val;
    Store(s, i, carry + s[i] + b[i]);
    ValPrefix(b, i);
    MulDistribute(carry + s[i], b[i], Place(i));
    MulDistribute(carry, s[i], Place(i));
  }

  /** One word of a product with a word. */
  lemma WordStep(s: seq<Word>, a: seq<Word>, x: Word, i: nat, carry: nat)
    requires i < |s| == |a| && s[i] == a[i] && 0 <= x * s[i]
    requires Val(s) + carry * Place(i) == Val(a) - Val(a[..i]) + Val(a[..i]) * x
    ensures var n := carry + x * s[i];
            Val(s[i := n % WORD]) + n / WORD * Place(i + 1) == Val(a) - Val(a[..i + 1]) + Val(a[..i + 1]) * x
  {
    hide Place, Val;
    Store(s, i, carry + x * s[i]);
    ValPrefix(a, i);
    MulDistribute(carry, x * s[i], Place(i));
    MulAssociate(x, s[i], Place(i));
    MulDistribute(Val(a[..i]), a[i] * Place(i), x);
    MulAssociate(a[i], Place(i), x);
  }

  /** One word of a row: the product goes to its place, and what it carries to the next. */
  lemma RowStep(s: seq<Word>, b: seq<Word>, x: Word, i: nat, j: nat, carry: nat, v: nat)
    requires i + j < |s| && i < |b|
    requires Val(s) + carry * Place(i + j) == v + x * Place(j) * Val(b[..i])
    requires 0 <= x * b[i]
    ensures var n := carry + s[i + j] + x * b[i];
            Val(s[i + j := n % WORD]) + n / WORD * Place(i + j + 1) == v + x * Place(j) * Val(b[..i + 1])
  {
    hide Place, Val;
    var n := carry + s[i + j] + x * b[i];
    Store(s, i + j, n);
    ValPrefix(b, i);
    PlaceAdd(i, j);
    RowProduct(carry, s[i + j], x, b[i], Place(i), Place(j), Val(b[..i]));
  }

  lemma RowProduct(carry: int, p: int, x: int, y: int, u: int, v: int, low: int)
    ensures (carry + p + x * y) * (u * v) == carry * (u * v) + p * (u * v) + x * v * (y * u)
    ensures x * v * (low + y * u) == x * v * low + x * v * (y * u)
  {
    MulDistribute(carry + p, x * y, u * v);
    MulDistribute(carry, p, u * v);
    assert x * y * (u * v) == x * v * (y * u);
    MulDistribute(low, y * u, x * v);
  }

  /** What a row loses at the top: its carry, and the words of b that fall outside. */
  lemma RowOver(carry: nat, x: Word, b: seq<Word>, j: nat) returns (over: nat)
    requires j <= |b|
    ensures over * Place(|b|) + x * Place(j) * Val(b[..|b| - j]) == carry * Place(|b|) + x * Place(j) * Val(b)
  {
    hide Place, Val;
    var k := |b| - j;
    ValSplit(b, k);
    PlaceAdd(k, j);
    var high := Val(b[k..]);
    MulNat(x, high);
    over := carry + x * high;
    var u, v := Place(k), Place(j);
    assert over * (u * v) == carry * (u * v) + x * high * (u * v) by {
      MulDistribute(carry, x * high, u * v);
    }
    assert x * v * (high * u) == x * high * (u * v);
    assert x * v * (Val(b[..k]) + high * u) == x * v * Val(b[..k]) + x * v * (high * u);
  }

  /** A word shifted left does not touch the bits below. */
  lemma OrShl(c: nat, w: Word, r: nat)
    requires r < 32 && c < Pow2(r)
    ensures Or(c, Shl(w, r)) == c + Shl(w, r) < WORD
  {
    hide Or, Shl, Pow2;
    if r == 0 {
      Pow2Next(0);
      ShlNothing(w);
      OrZero(w);
    } else {
      ShiftedWord(w, r);
      OrDisjoint(c, w % Pow2(32 - r), r);
      Split32(r);
      Below(c, w % Pow2(32 - r), Pow2(32 - r), Pow2(r));
    }
  }

  lemma ShlNothing(w: Word)
    ensures Shl(w, 0) == w
  {
    DivModIs(w, WORD, 0, w);
  }

  lemma Split32(r: nat)
    requires r <= 32
    ensures Pow2(32 - r) * Pow2(r) == WORD
  {
    Pow2Add(32 - r, r);
    Pow2Of32();
  }

  /** The words after one word of a left shift. */
  ghost function ShlAt(s: seq<Word>, w: Word, q: nat, r: nat): seq<Word>
    requires q < |s| && r < 32 && s[q] < Pow2(r)
  {
    OrShl(s[q], w, r);
    var t := if q + 1 < |s| && r != 0 then s[q + 1 := Shr(w, 32 - r)] else s;
    t[q := s[q] + Shl(w, r)]
  }

  lemma ShlStep(s: seq<Word>, w: Word, q: nat, r: nat) returns (over: nat)
    requires q < |s| && r < 32 && s[q] < Pow2(r) && (q + 1 < |s| ==> s[q + 1] == 0)
    ensures Val(ShlAt(s, w, q, r)) + over * Place(|s|) == Val(s) + w * Pow2(r) * Place(q)
  {
    hide Place, Val, Pow2, Shl, Shr;
    var lo := Shl(w, r);
    var hi := if r == 0 then 0 else Shr(w, 32 - r);
    assert w * Pow2(r) == hi * WORD + lo by {
      if r == 0 {
        Pow2Next(0);
        ShlNothing(w);
      } else {
        ShiftedWord(w, r);
      }
    }
    assert w * Pow2(r) * Place(q) == hi * Place(q + 1) + lo * Place(q) by {
      MulDistribute(hi * WORD, lo, Place(q));
      MulAssociate(hi, WORD, Place(q));
      PlaceNext(q);
    }
    OrShl(s[q], w, r);
    var t := if q + 1 < |s| && r != 0 then s[q + 1 := hi] else s;
    if q + 1 < |s| && r != 0 {
      ValUpdate(s, q + 1, hi);
    }
    ValUpdate(t, q, s[q] + lo);
    over := if q + 1 < |s| then 0 else hi;
  }

  /** The first i words are shifted; over counts what left at the top. */
  ghost predicate ShiftedLeft(s: seq<Word>, a: seq<Word>, i: nat, k: nat, r: nat, over: nat)
    requires i <= |a|
  {
    Val(s) + over * Place(|s|) == Val(a[..i]) * Pow2(r) * Place(k)
  }

  ghost predicate WordShiftedLeft(s': seq<Word>, s: seq<Word>, w: Word, q: nat, r: nat, over: nat) {
    Val(s') + over * Place(|s'|) == Val(s) + w * Pow2(r) * Place(q)
  }

  lemma ShlStart(s: seq<Word>, a: seq<Word>, k: nat, r: nat)
    requires Val(s) == 0
    ensures ShiftedLeft(s, a, 0, k, r, 0)
  {
  }

  lemma ShlSum(a: seq<Word>, i: nat, k: nat, r: nat, s: seq<Word>, over: nat, s': seq<Word>, more: nat)
    requires i < |a| && |s| == |s'|
    requires ShiftedLeft(s, a, i, k, r, over)
    requires WordShiftedLeft(s', s, a[i], i + k, r, more)
    ensures ShiftedLeft(s', a, i + 1, k, r, over + more)
  {
    hide Place, Val, Pow2;
    MulDistribute(over, more, Place(|s|));
    ValPrefix(a, i);
    PlaceAdd(i, k);
    ShiftedSum(Val(a[..i]), a[i], Place(i), Pow2(r), Place(k));
  }

  lemma ShlEnd(s: seq<Word>, a: seq<Word>, k: nat, r: nat, over: nat)
    requires ShiftedLeft(s, a, |a|, k, r, over)
    ensures Val(s) == Val(a) * Pow2(32 * k + r) % Place(|s|)
  {
    hide Place, Val, Pow2;
    assert a[..|a|] == a;
    ValBound(s);
    WholeShift(Val(a), k, r);
    Truncated(Val(s), Val(a) * Pow2(32 * k + r), over, |s|);
  }

  lemma ShiftedSum(low: nat, w: nat, p: nat, t: nat, u: nat)
    ensures (low + w * p) * t * u == low * t * u + w * t * (p * u)
  {
    MulDistribute(low, w * p, t);
    MulDistribute(low * t, w * p * t, u);
    assert w * p * t * u == w * t * (p * u);
  }

  lemma WholeShift(v: nat, k: nat, r: nat)
    ensures v * Pow2(r) * Place(k) == v * Pow2(32 * k + r)
  {
    hide Pow2, Place;
    PlaceIsPow2(k);
    Pow2Add(32 * k, r);
    MulAssociate(v, Pow2(r), Place(k));
  }

  /** The first i words are shifted; low is what left at the bottom. */
  ghost predicate ShiftedRight(s: seq<Word>, a: seq<Word>, i: nat, k: nat, r: nat, low: nat)
    requires i <= |a|
  {
    Val(s) * Pow2(r) * Place(k) + low == Val(a[..i]) && low < Pow2(r) * Place(k)
  }

  ghost predicate WordShiftedRight(s': seq<Word>, s: seq<Word>, w: Word, q: nat, r: nat, lost: nat) {
    && Val(s') * Pow2(r) + lost == Val(s) * Pow2(r) + w * Place(q)
    && lost < Pow2(r) && (q > 0 ==> lost == 0)
  }

  lemma ShrSmall(w: Word, r: nat)
    requires r < 32
    ensures Shr(w, r) < Pow2(32 - r)
  {
    hide Pow2;
    Pow2Add(r, 32 - r);
    Pow2Of32();
    if w / Pow2(r) >= Pow2(32 - r) {
      MulMonotone(Pow2(r), Pow2(32 - r), w / Pow2(r));
    }
  }

  /** The words after one word of a right shift. */
  ghost function ShrAt(s: seq<Word>, w: Word, q: nat, r: nat): seq<Word>
    requires q < |s| && r < 32 && (q > 0 ==> s[q - 1] < Pow2(32 - r))
  {
    if q > 0 && r != 0 then
      OrShl(s[q - 1], w, 32 - r);
      s[q - 1 := s[q - 1] + Shl(w, 32 - r)][q := Shr(w, r)]
    else s[q := Shr(w, r)]
  }

  lemma ShrStep(s: seq<Word>, w: Word, q: nat, r: nat) returns (lost: nat)
    requires q < |s| && r < 32 && (q > 0 ==> s[q - 1] < Pow2(32 - r)) && s[q] == 0
    ensures WordShiftedRight(ShrAt(s, w, q, r), s, w, q, r, lost)
  {
    if q > 0 && r != 0 {
      ShrInside(s, w, q, r);
      lost := 0;
    } else {
      lost := ShrBottom(s, w, q, r);
    }
  }

  lemma ShrInside(s: seq<Word>, w: Word, q: nat, r: nat)
    requires 0 < q < |s| && 0 < r < 32 && s[q - 1] < Pow2(32 - r) && s[q] == 0
    ensures WordShiftedRight(ShrAt(s, w, q, r), s, w, q, r, 0)
  {
    hide Place, Val, Pow2, ShrAt;
    var t, u := Pow2(r), Pow2(32 - r);
    ShrInsideValue(s, w, q, r);
    Pow2Add(r, 32 - r);
    Pow2Of32();
    PlaceNext(q - 1);
    var hi, lo := w / t, w % t;
    assert w == hi * t + lo;
    ShrProduct(Val(ShrAt(s, w, q, r)), Val(s), w, hi, lo, t, u, Place(q - 1), Place(q));
  }

  lemma ShrInsideValue(s: seq<Word>, w: Word, q: nat, r: nat)
    requires 0 < q < |s| && 0 < r < 32 && s[q - 1] < Pow2(32 - r) && s[q] == 0
    ensures var t, u := Pow2(r), Pow2(32 - r);
            Val(ShrAt(s, w, q, r)) == Val(s) + w % t * u * Place(q - 1) + w / t * Place(q)
  {
    hide Place, Val, Pow2, Shl;
    OrShl(s[q - 1], w, 32 - r);
    ShiftedWord(w, 32 - r);
    var x := w % Pow2(r) * Pow2(32 - r);
    var s1 := s[q - 1 := s[q - 1] + x];
    ValUpdate(s, q - 1, s[q - 1] + x);
    ValUpdate(s1, q, Shr(w, r));
  }

  lemma ShrProduct(x: int, v: int, w: int, hi: int, lo: int, t: int, u: int, p: int, p': int)
    requires t * u == WORD && p' == WORD * p && w == hi * t + lo
    requires x == v + lo * u * p + hi * p'
    ensures x * t == v * t + w * p'
  {
    MulDistribute(v + lo * u * p, hi * p', t);
    MulDistribute(v, lo * u * p, t);
    MulDistribute(hi * t, lo, p');
    assert lo * u * p * t == lo * (t * u * p);
    assert hi * p' * t == hi * t * p';
  }

  lemma ShrBottom(s: seq<Word>, w: Word, q: nat, r: nat) returns (lost: nat)
    requires q < |s| && r < 32 && (q == 0 || r == 0) && s[q] == 0 && (q > 0 ==> s[q - 1] < Pow2(32 - r))
    ensures WordShiftedRight(ShrAt(s, w, q, r), s, w, q, r, lost)
  {
    hide Place, Val, Pow2, Shl, WordShiftedRight;
    var t := Pow2(r);
    var hi := w / t;
    lost := w % t;
    assert w == hi * t + lost;
    ValUpdate(s, q, hi);
    var x := Val(s[q := hi]);
    Pow2Next(0);
    PlaceNext(0);
    assert q > 0 ==> t == 1;
    assert q > 0 ==> lost == 0;
    assert q == 0 ==> Place(q) == 1;
    BottomProduct(x, Val(s), w, hi, lost, t, Place(q));
    assert ShrAt(s, w, q, r) == s[q := hi];
    IsShiftedRight(s[q := hi], s, w, q, r, lost);
  }

  lemma IsShiftedRight(s': seq<Word>, s: seq<Word>, w: Word, q: nat, r: nat, lost: nat)
    requires Val(s') * Pow2(r) + lost == Val(s) * Pow2(r) + w * Place(q)
    requires lost < Pow2(r) && (q > 0 ==> lost == 0)
    ensures WordShiftedRight(s', s, w, q, r, lost)
  {
  }

  lemma BottomProduct(x: int, v: int, w: int, hi: int, lost: int, t: int, p: int)
    requires (lost == 0 || p == 1) && w == hi * t + lost && x == v + hi * p
    ensures x * t + lost == v * t + w * p
  {
    MulDistribute(v, hi * p, t);
    MulDistribute(hi * t, lost, p);
    MulAssociate(hi, p, t);
  }

  lemma ShrStart(s: seq<Word>, a: seq<Word>, k: nat, r: nat)
    requires Val(s) == 0
    ensures ShiftedRight(s, a, 0, k, r, 0)
  {
    MulNat(Pow2(r), Place(k));
  }

  lemma ShrSum(a: seq<Word>, i: nat, k: nat, r: nat, s: seq<Word>, low: nat, s': seq<Word>, lost: nat)
      returns (low': nat)
    requires i < |a| && ShiftedRight(s, a, i, k, r, low)
    requires i < k ==> s' == s && Val(s) == 0
    requires i == k ==> Val(s) == 0
    requires i >= k ==> WordShiftedRight(s', s, a[i], i - k, r, lost)
    ensures ShiftedRight(s', a, i + 1, k, r, low')
  {
    hide Place, Val, Pow2;
    ValPrefix(a, i);
    if i < k {
      low' := Val(a[..i + 1]);
      ValBound(a[..i + 1]);
      PlaceMonotone(i + 1, k);
      MulMonotone(Place(k), 1, Pow2(r));
      assert Val(s) * Pow2(r) * Place(k) == 0;
    } else {
      PlaceAdd(i - k, k);
      MulAssociate(a[i], Place(i - k), Place(k));
      MulDistribute(Val(s') * Pow2(r), lost, Place(k));
      MulDistribute(Val(s) * Pow2(r), a[i] * Place(i - k), Place(k));
      low' := low + lost * Place(k);
      if i == k {
        assert low == Val(a[..k]) by { assert Val(s) * Pow2(r) * Place(k) == 0; }
        ValBound(a[..k]);
        Below(low, lost, Pow2(r), Place(k));
      }
    }
  }

  lemma PlaceMonotone(m: nat, n: nat)
    requires m <= n
    ensures Place(m) <= Place(n)
  {
    PlaceAdd(m, n - m);
    MulMonotone(Place(m), 1, Place(n - m));
  }

  lemma ShrEnd(s: seq<Word>, a: seq<Word>, k: nat, r: nat, low: nat)
    requires ShiftedRight(s, a, |a|, k, r, low)
    ensures Val(s) == Val(a) / Pow2(32 * k + r)
  {
    hide Place, Val, Pow2;
    assert a[..|a|] == a;
    WholeShift(Val(s), k, r);
    WholeShift(1, k, r);
    DivModIs(Val(a), Pow2(32 * k + r), Val(s), low);
  }

  /** How many bits a number needs. */
  ghost predicate IsBits(v: nat, n: nat) {
    v < Pow2(n) && (n > 0 ==> Pow2(n - 1) <= v)
  }

  lemma NoBits()
    ensures IsBits(0, 0)
  {
  }

  lemma WordTop(w: Word)
    ensures w < Pow2(32)
  {
    Pow2Of32();
  }

  /** The highest bit that may be set either is, or may not be. */
  lemma TestBit(w: Word, b: nat)
    requires w < Pow2(b + 1)
    ensures if Bit(w, b) then Pow2(b) <= w else w < Pow2(b)
  {
    var t := Pow2(b);
    assert Pow2(b + 1) == 2 * t;
    var q := w / t;
    assert w == q * t + w % t;
    if q >= 2 {
      MulMonotone(t, 2, q);
    }
    if q == 1 {
      assert q * t == t;
    }
    if q == 0 {
      assert q * t == 0;
    }
  }

  lemma LastBit(w: Word)
    requires w != 0 && w < Pow2(1)
    ensures Pow2(0) <= w < Pow2(1)
  {
  }

  lemma TopWord(s: seq<Word>, pos: nat, b: nat)
    requires pos < |s| && b < 32 && Pow2(b) <= s[pos] < Pow2(b + 1)
    requires forall p | pos + 1 <= p < |s| :: s[p] == 0
    ensures IsBits(Val(s), 32 * pos + b + 1)
  {
    hide Place, Val, Pow2;
    ValSplit(s, pos + 1);
    ValZeros(s[pos + 1..]);
    ValPrefix(s, pos);
    ValBound(s[..pos]);
    PlaceIsPow2(pos);
    Pow2Add(b, 32 * pos);
    Pow2Add(b + 1, 32 * pos);
    MulMonotone(Place(pos), Pow2(b), s[pos]);
    Below(Val(s[..pos]), s[pos], Pow2(b + 1), Place(pos));
  }

  lemma LowWords(s: seq<Word>)
    requires |s| >= 2
    ensures s[0] + s[1] * WORD == Val(s) % DWORD
  {
    ValSplit(s, 2);
    ValPrefix(s, 0);
    ValPrefix(s, 1);
    assert s[..0] == [];
    assert Place(2) == DWORD;
    DivModIs(Val(s), DWORD, Val(s[2..]), s[0] + s[1] * WORD);
  }

  // Division

  /** No bit is set in the words before the i-th, nor in the r lowest of that. */
  ghost predicate ClearUpTo(q: seq<Word>, i: nat, r: nat) {
    && (forall p: nat | p < |q| && p < i :: q[p] == 0)
    && (i < |q| ==> q[i] % Pow2(r) == 0)
  }

  /** No bit below the given one is set. */
  ghost predicate ClearBelow(q: seq<Word>, s: nat) {
    s > 0 ==> ClearUpTo(q, (s - 1) / 32, (s - 1) % 32 + 1)
  }

  lemma ClearWords(q: seq<Word>, shift: nat)
    requires ClearUpTo(q, shift / 32, shift % 32)
    ensures ClearBelow(q, shift)
  {
    hide Pow2;
    var i, r := shift / 32, shift % 32;
    if shift > 0 {
      if r == 0 {
        assert (shift - 1) / 32 == i - 1 && (shift - 1) % 32 + 1 == 32;
        DivModIs(0, Pow2(32), 0, 0);
      } else {
        assert (shift - 1) / 32 == i && (shift - 1) % 32 + 1 == r;
      }
    }
  }

  lemma SetBitWord(s: seq<Word>, i: nat, r: nat)
    requires i < |s| && r < 32 && ClearUpTo(s, i, r + 1)
    ensures Or(s[i], Pow2(r)) == s[i] + Pow2(r) < WORD
    ensures Val(s[i := s[i] + Pow2(r)]) == Val(s) + Pow2(32 * i + r)
    ensures ClearUpTo(s[i := s[i] + Pow2(r)], i, r)
  {
    hide Place, Val, Or, Pow2, ClearUpTo;
    ClearWord(s, i, r + 1);
    OrBit(s[i], r);
    ValUpdate(s, i, s[i] + Pow2(r));
    PlaceIsPow2(i);
    Pow2Add(r, 32 * i);
    ClearWordSet(s, i, r, s[i] + Pow2(r));
  }

  lemma ClearWord(s: seq<Word>, i: nat, r: nat)
    requires i < |s| && ClearUpTo(s, i, r)
    ensures s[i] % Pow2(r) == 0
  {
  }

  lemma ClearWordSet(s: seq<Word>, i: nat, r: nat, w: Word)
    requires i < |s| && ClearUpTo(s, i, r + 1) && w % Pow2(r) == 0
    ensures ClearUpTo(s[i := w], i, r)
  {
  }

  lemma OrBit(w: Word, r: nat)
    requires r < 32 && w % Pow2(r + 1) == 0
    ensures Or(w, Pow2(r)) == w + Pow2(r) < WORD
    ensures (w + Pow2(r)) % Pow2(r) == 0 && w % Pow2(r) == 0
  {
    hide Or;
    var t := Pow2(r);
    var y := w / (2 * t);
    assert Pow2(r + 1) == 2 * t;
    assert w == y * (2 * t);
    OrDisjoint(t, y, r + 1);
    FitsWord(w, y, r);
    Multiples(w, y, t);
  }

  lemma Multiples(w: nat, y: nat, t: nat)
    requires t > 0 && w == y * (2 * t)
    ensures (w + t) % t == 0 && w % t == 0
  {
    MulAssociate(y, 2, t);
    MulDistribute(2 * y, 1, t);
    DivModIs(w + t, t, 2 * y + 1, 0);
    DivModIs(w, t, 2 * y, 0);
  }

  lemma FitsWord(w: Word, y: nat, r: nat)
    requires r < 32 && w == y * Pow2(r + 1)
    ensures w + Pow2(r) < WORD
  {
    assert Pow2(r + 1) == 2 * Pow2(r);
    hide Pow2;
    var t, u := Pow2(r + 1), Pow2(31 - r);
    assert u * t == WORD by { Split32(r + 1); }
    assert y < u by {
      if y >= u {
        MulMonotone(t, u, y);
      }
    }
    Below(Pow2(r), y, u, t);
  }

  /** A division down to bit s: what is divided so far, and a remainder small enough for the rest. */
  ghost predicate Dividing(q: seq<Word>, num: nat, n: nat, d: nat, s: nat) {
    Val(q) * d + num == n && num < d * Pow2(s) && ClearBelow(q, s)
  }

  lemma ZeroBits(v: nat, n: nat)
    requires IsBits(v, n)
    ensures n == 0 <==> v == 0
  {
    if n == 0 {
      assert Pow2(0) == 1;
    }
  }

  lemma SmallDividend(n: nat, numBits: nat, d: nat, divBits: nat)
    requires IsBits(n, numBits) && IsBits(d, divBits) && divBits > numBits
    ensures d > 0 && n / d == 0
  {
    PowMonotone(2, numBits, divBits - 1);
    DivModIs(n, d, 0, n);
  }

  /** The aligning shift loses no bit of the divisor, and makes it more than half the dividend. */
  lemma Aligned(n: nat, numBits: nat, d: nat, divBits: nat, width: nat)
    requires IsBits(n, numBits) && IsBits(d, divBits) && 0 < divBits <= numBits <= 32 * width
    ensures var shift := numBits - divBits;
            && d * Pow2(shift) % Place(width) == d * Pow2(shift)
            && n < d * Pow2(shift + 1)
  {
    hide Pow2, Place;
    var shift := numBits - divBits;
    PlaceIsPow2(width);
    Pow2Order(numBits, 32 * width);
    assert d * Pow2(shift) < Pow2(numBits) by {
      Pow2Add(divBits, shift);
      MulStrict(Pow2(shift), d, Pow2(divBits));
    }
    WithinSize(d * Pow2(shift), Place(width));
    assert Pow2(numBits) <= d * Pow2(shift + 1) by {
      Pow2Add(divBits - 1, shift + 1);
      MulMonotone(Pow2(shift + 1), Pow2(divBits - 1), d);
    }
  }

  lemma WithinSize(v: nat, size: nat)
    requires v < size
    ensures v % size == v
  {
    DivModIs(v, size, 0, v);
  }

  lemma DivideStart(q: seq<Word>, n: nat, d: nat, shift: nat)
    requires (forall p | 0 <= p < |q| :: q[p] == 0) && n < d * Pow2(shift + 1)
    ensures Dividing(q, n, n, d, shift + 1)
  {
    hide Val, Pow2;
    ValZeros(q);
    DivModIs(0, Pow2(shift % 32 + 1), 0, 0);
  }

  lemma DivideClear(q: seq<Word>, num: nat, n: nat, d: nat, shift: nat)
    requires Dividing(q, num, n, d, shift + 1)
    ensures ClearBelow(q, shift + 1)
  {
  }

  lemma DivideTake(q: seq<Word>, q': seq<Word>, num: nat, n: nat, d: nat, shift: nat)
    requires Dividing(q, num, n, d, shift + 1) && num >= d * Pow2(shift)
    requires Val(q') == Val(q) + Pow2(shift) && ClearBelow(q', shift)
    ensures Dividing(q', num - d * Pow2(shift), n, d, shift)
  {
    hide Val, ClearBelow;
    MulDistribute(Val(q), Pow2(shift), d);
    assert Pow2(shift + 1) == 2 * Pow2(shift);
    assert d * (2 * Pow2(shift)) == 2 * (d * Pow2(shift));
  }

  lemma DivideLeave(q: seq<Word>, num: nat, n: nat, d: nat, shift: nat)
    requires Dividing(q, num, n, d, shift + 1) && num < d * Pow2(shift) && shift < 32 * |q|
    ensures Dividing(q, num, n, d, shift)
  {
    hide Val, Pow2;
    var i, r := shift / 32, shift % 32;
    OrBit(q[i], r);
    ClearWords(q, shift);
  }

  lemma HalfDivisor(d: nat, shift: nat)
    requires shift > 0
    ensures d * Pow2(shift) / Pow2(1) == d * Pow2(shift - 1)
  {
    assert Pow2(1) == 2 && Pow2(shift) == 2 * Pow2(shift - 1);
    assert d * Pow2(shift) == d * Pow2(shift - 1) * 2;
  }

  lemma DivideEnd(q: seq<Word>, num: nat, n: nat, d: nat)
    requires Dividing(q, num, n, d, 0)
    ensures d > 0 && Val(q) == n / d && num == n % d
  {
    DivModIs(n, d, Val(q), num);
  }

  lemma ValAppend(s: seq<Word>, w: Word)
    ensures Val(s + [w]) == Val(s) + w * Place(|s|)
  {
    assert (s + [w])[..|s|] == s;
  }

  lemma WrapAround(v: int, size: nat)
    requires size > 0
    ensures (v + size) % size == v % size
  {
    DivModIs(v + size, size, v / size + 1, v % size);
  }

  lemma ModOfSum(a: int, b: int, size: nat)
    requires size > 0
    ensures (a + b % size) % size == (a + b) % size
  {
    var q, r := (a + b % size) / size, (a + b % size) % size;
    MulDistribute(q, b / size, size);
    DivModIs(a + b, size, q + b / size, r);
  }
}
