/** Laws of exclusive or on 32-bit words. */
module Xor32 {
  function Xor(a: bv32, b: bv32): bv32 {
    a ^ b
  }

  function Sum(s: bv32, a: bv32, b: bv32, c: bv32, d: bv32, e: bv32): bv32 {
    Xor(Xor(Xor(Xor(Xor(s, a), b), c), d), e)
  }

  lemma XorLaws(k: bv32)
    ensures Xor(k, k) == 0 && Xor(k, 0) == k && Xor(0, k) == k
  {
  }

  lemma XorCommutes(a: bv32, b: bv32)
    ensures Xor(a, b) == Xor(b, a)
  {
  }

  lemma XorAssociates(a: bv32, b: bv32, c: bv32)
    ensures Xor(Xor(a, b), c) == Xor(a, Xor(b, c))
  {
  }

  lemma XorSwap(a: bv32, b: bv32, c: bv32, d: bv32)
    ensures Xor(Xor(a, b), Xor(c, d)) == Xor(Xor(a, c), Xor(b, d))
  {
    hide Xor;
    XorAssociates(a, b, Xor(c, d));
    XorAssociates(b, c, d);
    XorCommutes(b, c);
    XorAssociates(c, b, d);
    XorAssociates(a, c, Xor(b, d));
  }

  lemma SumLinear(s: bv32, t: bv32, a: bv32, a': bv32, b: bv32, b': bv32,
                  c: bv32, c': bv32, d: bv32, d': bv32, e: bv32, e': bv32)
    ensures Sum(Xor(s, t), Xor(a, a'), Xor(b, b'), Xor(c, c'), Xor(d, d'), Xor(e, e')) ==
            Xor(Sum(s, a, b, c, d, e), Sum(t, a', b', c', d', e'))
  {
    hide Xor;
    XorSwap(s, t, a, a');
    XorSwap(Xor(s, a), Xor(t, a'), b, b');
    XorSwap(Xor(Xor(s, a), b), Xor(Xor(t, a'), b'), c, c');
    XorSwap(Xor(Xor(Xor(s, a), b), c), Xor(Xor(Xor(t, a'), b'), c'), d, d');
    XorSwap(Xor(Xor(Xor(Xor(s, a), b), c), d), Xor(Xor(Xor(Xor(t, a'), b'), c'), d'), e, e');
  }

  /** The lowest five bits. */
  function Low(x: bv32): bv5 {
    (x & 31) as bv5
  }

  function Xor5(a: bv5, b: bv5): bv5 {
    a ^ b
  }

  lemma LowXor(a: bv32, b: bv32)
    ensures Low(Xor(a, b)) == Xor5(Low(a), Low(b))
  {
  }

  lemma LowSum(s: bv32, a: bv32, b: bv32, c: bv32, d: bv32, e: bv32)
    ensures Low(Sum(s, a, b, c, d, e)) == Xor5(Xor5(Xor5(Xor5(Xor5(Low(s), Low(a)), Low(b)), Low(c)), Low(d)), Low(e))
  {
    hide Xor, Low, Xor5;
    LowXor(s, a);
    LowXor(Xor(s, a), b);
    LowXor(Xor(Xor(s, a), b), c);
    LowXor(Xor(Xor(Xor(s, a), b), c), d);
    LowXor(Xor(Xor(Xor(Xor(s, a), b), c), d), e);
  }

  const BITS_30: bv32 := 0x4000_0000

  lemma XorBound(a: bv32, b: bv32)
    requires a < BITS_30 && b < BITS_30
    ensures Xor(a, b) < BITS_30
  {
  }

  lemma SumBound(s: bv32, a: bv32, b: bv32, c: bv32, d: bv32, e: bv32)
    requires s < BITS_30 && a < BITS_30 && b < BITS_30 && c < BITS_30 && d < BITS_30 && e < BITS_30
    ensures Sum(s, a, b, c, d, e) < BITS_30
  {
    hide Xor;
    XorBound(s, a);
    XorBound(Xor(s, a), b);
    XorBound(Xor(Xor(s, a), b), c);
    XorBound(Xor(Xor(Xor(s, a), b), c), d);
    XorBound(Xor(Xor(Xor(Xor(s, a), b), c), d), e);
  }
}
