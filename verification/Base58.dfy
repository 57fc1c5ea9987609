/** Byte strings as numbers in base 58, leading zero bytes as leading ones. */
module Base58 {
  import opened Arithmetic
  import opened Options
  import opened Radix

  /** All alphanumeric characters except 0, I, O and l. */
  const ALPHABET := "123456789" + "ABCDEFGH" + "JKLMN" + "PQRSTUVWXYZ" + "abcdefghijk" + "mnopqrstuvwxyz"

  type Bytes = v: seq<nat> | AreDigits(v, 256) witness []

  /** How many zeros lead. */
  function LeadingZeros(v: seq<nat>): (n: nat)
    ensures n <= |v| && forall i | 0 <= i < n :: v[i] == 0
    ensures n < |v| ==> v[n] != 0
  {
    if v == [] || v[0] != 0 then 0
    else
      var n := LeadingZeros(v[1..]);
      assert forall i | 0 <= i < n :: v[1..][i] == v[i + 1];
      1 + n
  }

  function Chars(digits: seq<nat>): (s: string)
    requires AreDigits(digits, 58)
    ensures |s| == |digits| && forall i | 0 <= i < |s| :: s[i] == ALPHABET[digits[i]]
  {
    seq(|digits|, i requires 0 <= i < |digits| => ALPHABET[digits[i]])
  }

  function Ones(n: nat): (s: string)
    ensures |s| == n && forall i | 0 <= i < n :: s[i] == '1'
  {
    seq(n, _ => '1')
  }

  function Zeros(n: nat): (s: seq<nat>)
    ensures |s| == n && forall i | 0 <= i < n :: s[i] == 0
  {
    seq(n, _ => 0)
  }

  function Encoded(v: Bytes): string {
    Ones(LeadingZeros(v)) + Chars(Digits(Num(v, 256), 58))
  }

  // The carry loop that encoding and decoding share

  /** One digit of the loop. */
  lemma CarryStep(base: nat, mult: nat, ch: nat, d: nat, carry: nat, low: nat, was: nat, p: nat)
    requires base > 0 && low + carry * p == mult * was + ch
    ensures 0 <= mult * d
    ensures var n := carry + mult * d;
            n % base * p + low + n / base * (base * p) == mult * (d * p + was) + ch
  {
    MulNat(mult, d);
    var n := carry + mult * d;
    Spread(n, base, p);
    Gather(carry, mult, d, p, was);
  }

  /** A number is its last digit and the rest, at any place. */
  lemma Spread(n: nat, base: nat, p: nat)
    requires base > 0
    ensures n * p == n % base * p + n / base * (base * p)
  {
    var q, r := Div(n, base), n % base;
    MulDistribute(q * base, r, p);
    MulAssociate(q, base, p);
  }

  lemma Gather(carry: int, mult: int, d: int, p: int, was: int)
    ensures (carry + mult * d) * p == carry * p + mult * (d * p + was) - mult * was
  {
    MulDistribute(carry, mult * d, p);
    MulAssociate(mult, d, p);
    MulDistribute(d * p, was, mult);
  }

  lemma NumFront(d: nat, s: seq<nat>, base: nat)
    ensures Num([d] + s, base) == d * Pow(base, |s|) + Num(s, base)
  {
    NumAppend([d], s, base);
    assert [d][..0] == [];
  }

  /** The i lowest digits are done, with something left to carry; the others are as they were. */
  ghost predicate Carrying(s: seq<nat>, was: seq<nat>, base: nat, mult: nat, ch: nat, i: nat, carry: nat) {
    && i <= |s| == |was|
    && s[..|s| - i] == was[..|s| - i]
    && Num(s[|s| - i..], base) + carry * Pow(base, i) == mult * Num(was[|s| - i..], base) + ch
  }

  lemma CarryStarts(s: seq<nat>, base: nat, mult: nat, ch: nat)
    ensures Carrying(s, s, base, mult, ch, 0, ch)
  {
    assert s[|s|..] == [];
    assert Pow(base, 0) == 1;
    assert mult * Num(s[|s|..], base) == 0;
  }

  lemma CarryOn(s: seq<nat>, was: seq<nat>, base: nat, mult: nat, ch: nat, i: nat, carry: nat)
    requires base > 0 && Carrying(s, was, base, mult, ch, i, carry) && i < |s|
    ensures var k := |s| - 1 - i;
            && 0 <= mult * s[k]
            && Carrying(s[k := (carry + mult * s[k]) % base], was, base, mult, ch, i + 1, (carry + mult * s[k]) / base)
  {
    hide Num, Pow;
    var k := |s| - 1 - i;
    var low, oldLow := s[k + 1..], was[k + 1..];
    assert s[k] == s[..k + 1][k] == was[..k + 1][k] == was[k];
    CarryStep(base, mult, ch, s[k], carry, Num(low, base), Num(oldLow, base), Pow(base, i));
    var n := carry + mult * s[k];
    var next := s[k := n % base];
    assert next[k..] == [n % base] + low && was[k..] == [was[k]] + oldLow;
    NumFront(n % base, low, base);
    NumFront(was[k], oldLow, base);
    PowNext(base, i);
    assert next[..k] == s[..k + 1][..k] == was[..k];
  }

  lemma CarryEnds(s: seq<nat>, was: seq<nat>, base: nat, mult: nat, ch: nat, i: nat, carry: nat, length: nat)
    requires base > 0 && Carrying(s, was, base, mult, ch, i, carry) && length <= |s|
    requires (carry == 0 && i >= length) || i == |s|
    requires forall k | 0 <= k < |s| - length :: was[k] == 0
    requires mult * Num(was, base) + ch < Pow(base, |s|)
    ensures carry == 0 && Num(s, base) == mult * Num(was, base) + ch
    ensures forall k | 0 <= k < |s| - i :: s[k] == 0
  {
    hide Num, Pow;
    var low, total := Num(s[|s| - i..], base), mult * Num(was[|s| - i..], base) + ch;
    if i == |s| {
      assert s[0..] == s && was[0..] == was;
      NothingCarried(low, carry, Pow(base, i), total);
    }
    assert carry * Pow(base, i) == 0;
    StillZero(s, was, |s| - i);
    NumSkip(s, |s| - i, base);
    NumSkip(was, |s| - i, base);
  }

  lemma NothingCarried(low: nat, carry: nat, p: nat, total: nat)
    requires low + carry * p == total < p
    ensures carry == 0
  {
    if carry > 0 {
      MulMonotone(p, 1, carry);
    }
  }

  lemma StillZero(s: seq<nat>, was: seq<nat>, k: nat)
    requires k <= |s| == |was| && s[..k] == was[..k] && forall j | 0 <= j < k :: was[j] == 0
    ensures forall j | 0 <= j < k :: s[j] == 0
  {
    forall j | 0 <= j < k ensures s[j] == 0 {
      assert s[j] == s[..k][j] == was[..k][j] == was[j];
    }
  }

  lemma OneDigit(s: seq<nat>, k: nat, n: nat, base: nat)
    requires base > 0 && k < |s| && AreDigits(s, base)
    ensures 0 <= n % base && 0 <= n / base && AreDigits(s[k := n % base], base)
  {
  }

  /**
   * Multiplies a number in place and adds to it, stopping early where nothing is left to carry. There
   * is room for the result, so nothing is left to carry at the end.
   */
  method MulAdd(b: array<nat>, base: nat, mult: nat, ch: nat, length: nat) returns (i: nat)
    requires base > 1 && AreDigits(b[..], base) && length <= b.Length
    requires forall k | 0 <= k < b.Length - length :: b[k] == 0
    requires mult * Num(b[..], base) + ch < Pow(base, b.Length)
    modifies b
    ensures AreDigits(b[..], base) && Num(b[..], base) == mult * old(Num(b[..], base)) + ch
    ensures i <= b.Length && forall k | 0 <= k < b.Length - i :: b[k] == 0
  {
    hide Num, Pow, Carrying, AreDigits;
    ghost var was := b[..];
    var carry: nat := ch;
    i := 0;
    CarryStarts(was, base, mult, ch);
    while (carry != 0 || i < length) && i < b.Length
      invariant i <= b.Length && AreDigits(b[..], base)
      invariant Carrying(b[..], was, base, mult, ch, i, carry)
    {
      var k := b.Length - 1 - i;
      ghost var before := b[..];
      CarryOn(before, was, base, mult, ch, i, carry);
      carry := carry + mult * b[k];
      OneDigit(before, k, carry, base);
      var digit: nat := carry % base;
      b[k] := digit;
      assert b[..] == before[k := digit];
      carry := carry / base;
      i := i + 1;
    }
    CarryEnds(b[..], was, base, mult, ch, i, carry, length);
    assert carry == 0;
  }

  // Encoding

  /** The estimate of the size is large enough: 138/100 is more than log 256 / log 58. */
  lemma RoomToEncode(n: nat)
    ensures Pow(256, n) <= Pow(58, n * 138 / 100 + 1)
  {
    hide Pow;
    Logarithms();
    EnoughDigits(256, 8, 58, 11, n, n * 138 / 100 + 1);
  }

  /** And 733/1000 is more than log 58 / log 256. */
  lemma RoomToDecode(n: nat)
    ensures Pow(58, n) <= Pow(256, n * 733 / 1000 + 1)
  {
    hide Pow;
    Logarithms();
    EnoughDigits(58, 71, 256, 52, n, n * 733 / 1000 + 1);
  }

  /** The number of a longer prefix, and room for it. */
  lemma PrefixStep(v: seq<nat>, j: nat, base: nat, room: nat)
    requires base > 0 && AreDigits(v, base) && j < |v| && Pow(base, |v|) <= room
    ensures Num(v[..j + 1], base) == base * Num(v[..j], base) + v[j] < room
  {
    hide Pow;
    assert v[..j + 1][..j] == v[..j];
    NumBound(v[..j + 1], base);
    PowMonotone(base, j + 1, |v|);
    assert Num(v[..j], base) * base == base * Num(v[..j], base);
  }

  /** What is left of an array of digits without the zeros in front, of which some are known. */
  method SkipZeros(b: array<nat>, base: nat, from: nat) returns (digits: seq<nat>)
    requires base > 1 && AreDigits(b[..], base) && from <= b.Length
    requires forall k | 0 <= k < from :: b[k] == 0
    ensures digits == Digits(Num(b[..], base), base)
  {
    hide Num, Digits;
    var it := from;
    while it < b.Length && b[it] == 0
      invariant from <= it <= b.Length && forall k | 0 <= k < it :: b[k] == 0
    {
      it := it + 1;
    }
    Canonical(b[..], it, base);
    assert b[..][it..] == b[it..];
    return b[it..];
  }

  /** The digits of a number that was built up in an array. */
  method Convert(v: seq<nat>, from: nat, to: nat, size: nat) returns (digits: seq<nat>)
    requires from > 1 && to > 1 && AreDigits(v, from) && Pow(from, |v|) <= Pow(to, size)
    ensures digits == Digits(Num(v, from), to)
  {
    hide Num, Pow, Digits;
    var b := new nat[size](_ => 0);
    var length: nat := 0;
    NumZeros(b[..], to);
    assert v[..0] == [];
    NumNone(from);
    for j := 0 to |v|
      invariant AreDigits(b[..], to) && Num(b[..], to) == Num(v[..j], from)
      invariant length <= size && forall k | 0 <= k < size - length :: b[k] == 0
    {
      PrefixStep(v, j, from, Pow(to, size));
      length := MulAdd(b, to, from, v[j], length);
    }
    assert v[..|v|] == v;
    digits := SkipZeros(b, to, size - length);
  }

  lemma DigitsOfRest(v: seq<nat>, base: nat)
    ensures Num(v, base) == Num(v[LeadingZeros(v)..], base)
  {
    NumSkip(v, LeadingZeros(v), base);
  }

  method EncodeBase58(v: Bytes) returns (str: string)
    ensures str == Encoded(v)
  {
    hide Num, Pow, Digits;
    var zeroes := 0;
    while zeroes < |v| && v[zeroes] == 0
      invariant zeroes <= |v| && forall k | 0 <= k < zeroes :: v[k] == 0
    {
      zeroes := zeroes + 1;
    }
    ZerosAre(v, zeroes);
    DigitsOfRest(v, 256);
    var rest := v[zeroes..];
    RoomToEncode(|rest|);
    var digits := Convert(rest, 256, 58, |rest| * 138 / 100 + 1);
    str := Ones(zeroes);
    for i := 0 to |digits|
      invariant str == Ones(zeroes) + Chars(digits)[..i]
    {
      str := str + [ALPHABET[digits[i]]];
    }
    assert Chars(digits)[..|digits|] == Chars(digits);
  }

  lemma ZerosAre(v: seq<nat>, n: nat)
    requires n <= |v| && (forall k | 0 <= k < n :: v[k] == 0) && (n < |v| ==> v[n] != 0)
    ensures LeadingZeros(v) == n
  {
  }

  // Decoding

  predicate IsSpace(c: char) {
    c == ' ' || c == '\t' || c == '\n' || c == '\r' || c as int == 11 || c as int == 12
  }

  /** A C string ends at its first zero character. */
  function CString(s: string): (r: string)
    ensures r <= s && forall c <- r :: c as int != 0
  {
    if s == [] || s[0] as int == 0 then []
    else
      var r := CString(s[1..]);
      assert r <= s[1..];
      [s[0]] + r
  }

  function SkipSpaces(s: string): (n: nat)
    ensures n <= |s| && forall i | 0 <= i < n :: IsSpace(s[i])
    ensures n < |s| ==> !IsSpace(s[n])
  {
    if s == [] || !IsSpace(s[0]) then 0
    else
      var n := SkipSpaces(s[1..]);
      assert forall i | 0 <= i < n :: s[1..][i] == s[i + 1];
      1 + n
  }

  function LeadingOnes(s: string): (n: nat)
    ensures n <= |s| && forall i | 0 <= i < n :: s[i] == '1'
    ensures n < |s| ==> s[n] != '1'
  {
    if s == [] || s[0] != '1' then 0
    else
      var n := LeadingOnes(s[1..]);
      assert forall i | 0 <= i < n :: s[1..][i] == s[i + 1];
      1 + n
  }

  /** The length up to the first space. */
  function WordLength(s: string): (n: nat)
    ensures n <= |s| && forall i | 0 <= i < n :: !IsSpace(s[i])
    ensures n < |s| ==> IsSpace(s[n])
  {
    if s == [] || IsSpace(s[0]) then 0
    else
      var n := WordLength(s[1..]);
      assert forall i | 0 <= i < n :: s[1..][i] == s[i + 1];
      1 + n
  }

  predicate InAlphabet(c: char) {
    c in ALPHABET
  }

  predicate AllIn(s: string) {
    forall i | 0 <= i < |s| :: InAlphabet(s[i])
  }

  /** The place of a character in the alphabet. */
  function DigitOf(c: char): (d: nat)
    requires InAlphabet(c)
    ensures d < 58 && ALPHABET[d] == c
  {
    Find(ALPHABET, c, 0)
  }

  /** The first place of a character in a string, from the given one on. */
  function Find(s: string, c: char, from: nat): (d: nat)
    requires from < |s| && c in s[from..]
    ensures from <= d < |s| && s[d] == c && c !in s[from..d]
    decreases |s| - from
  {
    if s[from] == c then from
    else
      assert s[from..] == [s[from]] + s[from + 1..];
      var d := Find(s, c, from + 1);
      assert s[from..d] == [s[from]] + s[from + 1..d];
      d
  }

  function DigitsIn(s: string): (d: seq<nat>)
    requires AllIn(s)
    ensures |d| == |s| && AreDigits(d, 58) && forall i | 0 <= i < |s| :: d[i] == DigitOf(s[i])
  {
    seq(|s|, i requires 0 <= i < |s| => DigitOf(s[i]))
  }

  /** What a string without leading space decodes to. */
  function WordDecoded(t: string): Option<Bytes> {
    var zeroes := LeadingOnes(t);
    var u := t[zeroes..];
    var n := WordLength(u);
    if !AllIn(u[..n]) || n + SkipSpaces(u[n..]) < |u| then None
    else Some(ZerosAnd(zeroes, Digits(Num(DigitsIn(u[..n]), 58), 256)))
  }

  function ZerosAnd(n: nat, v: seq<nat>): Bytes
    requires AreDigits(v, 256)
  {
    Zeros(n) + v
  }

  function Decoded(s: string): Option<Bytes> {
    var psz := CString(s);
    WordDecoded(psz[SkipSpaces(psz)..])
  }

  /** One character more of the word. */
  lemma DigitStep(w: string, c: char, length: nat, room: nat)
    requires AllIn(w) && InAlphabet(c) && |w| < length && Pow(58, length) <= room
    ensures AllIn(w + [c])
    ensures Num(DigitsIn(w + [c]), 58) == 58 * Num(DigitsIn(w), 58) + DigitOf(c) < room
  {
    hide Pow, Num, InAlphabet;
    var v := DigitsIn(w + [c]);
    assert v[..|w|] == DigitsIn(w);
    assert DigitsIn(w) + [DigitOf(c)] == v;
    NumOneMore(DigitsIn(w), DigitOf(c), 58);
    NumBound(v, 58);
    PowMonotone(58, |w| + 1, length);
  }

  lemma WordIs(u: string, n: nat)
    requires n <= |u| && (forall i | 0 <= i < n :: !IsSpace(u[i])) && (n < |u| ==> IsSpace(u[n]))
    ensures WordLength(u) == n
  {
  }

  lemma SpacesAre(s: string, n: nat)
    requires n <= |s| && (forall i | 0 <= i < n :: IsSpace(s[i])) && (n < |s| ==> !IsSpace(s[n]))
    ensures SkipSpaces(s) == n
  {
  }

  lemma OnesAre(s: string, n: nat)
    requires n <= |s| && (forall i | 0 <= i < n :: s[i] == '1') && (n < |s| ==> s[n] != '1')
    ensures LeadingOnes(s) == n
  {
  }

  method FindSpaces(s: string, from: nat) returns (n: nat)
    requires from <= |s|
    ensures n == from + SkipSpaces(s[from..])
  {
    hide IsSpace;
    n := from;
    while n < |s| && IsSpace(s[n])
      invariant from <= n <= |s| && forall i | from <= i < n :: IsSpace(s[i])
    {
      n := n + 1;
    }
    SpacesAre(s[from..], n - from);
  }

  method DecodeBase58(s: string) returns (vch: Option<Bytes>)
    ensures vch == Decoded(s)
  {
    hide Num, Pow, Digits, IsSpace, InAlphabet, WordLength, SkipSpaces, LeadingOnes;
    var psz := CString(s);
    var start := FindSpaces(psz, 0);
    assert psz[0..] == psz;
    var t := psz[start..];
    var zeroes := 0;
    while zeroes < |t| && t[zeroes] == '1'
      invariant zeroes <= |t| && forall i | 0 <= i < zeroes :: t[i] == '1'
    {
      zeroes := zeroes + 1;
    }
    OnesAre(t, zeroes);
    var digits := DecodeWord(t[zeroes..]);
    if digits.None? {
      return None;
    }
    return Some(ZerosAnd(zeroes, digits.value));
  }

  /** The part after the leading ones, up to the end of the string. */
  method DecodeWord(u: string) returns (r: Option<Bytes>)
    ensures var n := WordLength(u);
            if !AllIn(u[..n]) || n + SkipSpaces(u[n..]) < |u| then r == None
            else r == Some(Digits(Num(DigitsIn(u[..n]), 58), 256))
  {
    hide Num, Pow, Digits, IsSpace, InAlphabet, WordLength, SkipSpaces, AllIn, DigitsIn;
    var size := |u| * 733 / 1000 + 1;
    RoomToDecode(|u|);
    var b256 := new nat[size](_ => 0);
    NumZeros(b256[..], 256);
    var length: nat, j: nat := 0, 0;
    NoDigits(u[..0]);
    while j < |u| && !IsSpace(u[j])
      invariant j <= |u| && AllIn(u[..j]) && forall i | 0 <= i < j :: !IsSpace(u[i])
      invariant AreDigits(b256[..], 256) && Num(b256[..], 256) == Num(DigitsIn(u[..j]), 58)
      invariant length <= size && forall k | 0 <= k < size - length :: b256[k] == 0
    {
      if !InAlphabet(u[j]) {
        NotEnded(u, j);
        NotAllIn(u[..WordLength(u)], j);
        return None;
      }
      DigitStep(u[..j], u[j], |u|, Pow(256, size));
      assert u[..j] + [u[j]] == u[..j + 1];
      length := MulAdd(b256, 256, 58, DigitOf(u[j]), length);
      j := j + 1;
    }
    WordIs(u, j);
    var end := FindSpaces(u, j);
    if end != |u| {
      return None;
    }
    var digits := SkipZeros(b256, 256, size - length);
    return Some(digits);
  }

  lemma NoDigits(w: string)
    requires w == []
    ensures AllIn(w) && Num(DigitsIn(w), 58) == 0
  {
  }

  lemma NotAllIn(w: string, j: nat)
    requires j < |w| && !InAlphabet(w[j])
    ensures !AllIn(w)
  {
  }

  lemma NotEnded(u: string, j: nat)
    requires j < |u| && forall i | 0 <= i <= j :: !IsSpace(u[i])
    ensures j < WordLength(u)
  {
  }

  // Round trips

  /** Where each stretch of the alphabet starts. */
  function CodeAt(i: nat): int {
    if i < 9 then '1' as int + i
    else if i < 17 then 'A' as int + i - 9
    else if i < 22 then 'J' as int + i - 17
    else if i < 33 then 'P' as int + i - 22
    else if i < 44 then 'a' as int + i - 33
    else 'm' as int + i - 44
  }

  lemma Stretches()
    ensures forall i | 0 <= i < 9 :: "123456789"[i] as int == '1' as int + i
    ensures forall i | 0 <= i < 8 :: "ABCDEFGH"[i] as int == 'A' as int + i
    ensures forall i | 0 <= i < 5 :: "JKLMN"[i] as int == 'J' as int + i
  {
  }

  lemma LongStretches()
    ensures forall i | 0 <= i < 11 :: "PQRSTUVWXYZ"[i] as int == 'P' as int + i
    ensures forall i | 0 <= i < 11 :: "abcdefghijk"[i] as int == 'a' as int + i
    ensures forall i | 0 <= i < 14 :: "mnopqrstuvwxyz"[i] as int == 'm' as int + i
  {
  }

  lemma AlphabetCode(i: nat)
    requires i < 58
    ensures ALPHABET[i] as int == CodeAt(i)
  {
    Stretches();
    LongStretches();
  }

  /** No character is there twice. */
  lemma AlphabetInjective(d: nat)
    requires d < 58
    ensures InAlphabet(ALPHABET[d]) && DigitOf(ALPHABET[d]) == d
  {
    hide Find;
    assert ALPHABET[d] in ALPHABET;
    AlphabetCode(d);
    AlphabetCode(DigitOf(ALPHABET[d]));
  }

  /** Nothing in the alphabet is a space or ends a string. */
  lemma AlphabetPlain(c: char)
    requires InAlphabet(c)
    ensures !IsSpace(c) && c as int != 0
    ensures c == '1' <==> DigitOf(c) == 0
  {
    AlphabetCode(DigitOf(c));
    AlphabetCode(0);
    AlphabetInjective(0);
  }

  lemma CharsBack(d: seq<nat>)
    requires AreDigits(d, 58)
    ensures AllIn(Chars(d)) && DigitsIn(Chars(d)) == d
  {
    hide InAlphabet, Find;
    forall i | 0 <= i < |d| ensures InAlphabet(Chars(d)[i]) && DigitOf(Chars(d)[i]) == d[i] {
      AlphabetInjective(d[i]);
    }
  }

  lemma DigitsBack(w: string)
    requires AllIn(w)
    ensures Chars(DigitsIn(w)) == w
  {
    hide InAlphabet;
  }

  lemma {:induction false} PlainCString(w: string)
    requires AllIn(w)
    ensures CString(w) == w
  {
    hide InAlphabet;
    if w != [] {
      AlphabetPlain(w[0]);
      assert AllIn(w[1..]) by {
        forall i | 0 <= i < |w[1..]| ensures InAlphabet(w[1..][i]) {
          assert w[1..][i] == w[i + 1];
        }
      }
      PlainCString(w[1..]);
    }
  }

  lemma PlainWord(w: string)
    requires AllIn(w)
    ensures SkipSpaces(w) == 0 && WordLength(w) == |w|
  {
    hide InAlphabet, IsSpace;
    forall i | 0 <= i < |w| ensures !IsSpace(w[i]) {
      AlphabetPlain(w[i]);
    }
    SpacesAre(w, 0);
    WordIs(w, |w|);
  }

  /** Ones in front of characters whose first is no one. */
  lemma OnesThen(n: nat, w: string)
    requires AllIn(w) && (w != [] ==> w[0] != '1')
    ensures LeadingOnes(Ones(n) + w) == n && (Ones(n) + w)[n..] == w && AllIn(Ones(n) + w)
  {
    hide Find;
    OnesAre(Ones(n) + w, n);
    AlphabetInjective(0);
    AlphabetCode(0);
  }

  /** A word of the alphabet decodes, as the ones in front and the number of the rest. */
  lemma DecodesWord(w: string)
    requires AllIn(w)
    ensures var n := LeadingOnes(w);
            && AllIn(w[n..])
            && Decoded(w) == Some(ZerosAnd(n, Digits(Num(DigitsIn(w[n..]), 58), 256)))
  {
    hide InAlphabet, IsSpace, Num, Digits, LeadingOnes, WordLength, SkipSpaces, CString;
    PlainCString(w);
    PlainWord(w);
    assert w[0..] == w;
    var u := w[LeadingOnes(w)..];
    assert AllIn(u);
    PlainWord(u);
    assert u[..|u|] == u && u[|u|..] == [];
    SpacesAre(u[|u|..], 0);
  }

  /** Decoding undoes encoding, for every byte string. */
  lemma DecodesEncoded(v: Bytes)
    ensures Decoded(Encoded(v)) == Some(v)
  {
    hide Num, Digits, Decoded, AllIn, InAlphabet, Find, LeadingOnes;
    var z, n := LeadingZeros(v), Num(v, 256);
    var d := Digits(n, 58);
    CharsBack(d);
    if d != [] {
      FirstChar(d);
    }
    OnesThen(z, Chars(d));
    DecodesWord(Encoded(v));
    NumOfDigits(n, 58);
    Canonical(v, z, 256);
    assert Zeros(z) + v[z..] == v;
  }

  lemma FirstChar(d: seq<nat>)
    requires AreDigits(d, 58) && d != [] && d[0] != 0
    ensures Chars(d)[0] != '1'
  {
    AlphabetCode(d[0]);
  }

  /** Encoding undoes decoding, for every string over the alphabet. */
  lemma EncodesDecoded(w: string)
    requires AllIn(w)
    ensures Decoded(w).Some? && Encoded(Decoded(w).value) == w
  {
    hide Num, Digits, Decoded, InAlphabet, Find, LeadingOnes;
    DecodesWord(w);
    var z := LeadingOnes(w);
    var u := w[z..];
    var d := DigitsIn(u);
    if u != [] {
      AlphabetPlain(u[0]);
    }
    DigitsOfNum(d, 58);
    var n := Num(d, 58);
    var b := Digits(n, 256);
    NumOfDigits(n, 256);
    ZerosThen(z, b);
    DigitsBack(u);
    assert Ones(z) + u == w;
  }

  lemma ZerosThen(z: nat, b: seq<nat>)
    requires AreDigits(b, 256) && (b != [] ==> b[0] != 0)
    ensures LeadingZeros(ZerosAnd(z, b)) == z && Num(ZerosAnd(z, b), 256) == Num(b, 256)
  {
    hide Num;
    ZerosAre(ZerosAnd(z, b), z);
    NumSkip(ZerosAnd(z, b), z, 256);
    assert ZerosAnd(z, b)[z..] == b;
  }

  /** No two byte strings have the same encoding. */
  lemma EncodedInjective(v: Bytes, w: Bytes)
    requires Encoded(v) == Encoded(w)
    ensures v == w
  {
    DecodesEncoded(v);
    DecodesEncoded(w);
  }

  // Which strings decode

  predicate AllSpaces(s: string) {
    forall i | 0 <= i < |s| :: IsSpace(s[i])
  }

  /** Space, a word, space. */
  ghost predicate Padded(s: string, a: string, w: string, b: string) {
    AllSpaces(a) && AllIn(w) && AllSpaces(b) && s == a + w + b
  }

  lemma WordStart(s: string, a: string, w: string, b: string)
    requires Padded(s, a, w, b) && w != [] && !IsSpace(w[0])
    ensures SkipSpaces(s) == |a| && s[|a|..] == w + b
  {
    hide InAlphabet, IsSpace;
    SpacesAre(s, |a|);
  }

  lemma OnlySpaces(s: string, a: string, b: string)
    requires AllSpaces(a) && AllSpaces(b) && s == a + b
    ensures s[SkipSpaces(s)..] == []
  {
    hide IsSpace;
    SpacesAre(s, |s|);
  }

  /** Space around a word makes no difference. */
  lemma SpacesAround(s: string, a: string, w: string, b: string)
    requires Padded(s, a, w, b)
    ensures WordDecoded(s[SkipSpaces(s)..]) == WordDecoded(w)
  {
    hide InAlphabet, IsSpace, WordDecoded, SkipSpaces;
    if w == [] {
      assert s == a + b;
      OnlySpaces(s, a, b);
    } else {
      forall i | 0 <= i < |w| ensures !IsSpace(w[i]) {
        AlphabetPlain(w[i]);
      }
      WordStart(s, a, w, b);
      WordThenSpaces(w, b);
    }
  }

  lemma OneIsNoSpace()
    ensures !IsSpace('1')
  {
  }

  lemma WordThenSpaces(w: string, b: string)
    requires AllIn(w) && AllSpaces(b) && w != []
    requires forall i | 0 <= i < |w| :: !IsSpace(w[i])
    ensures WordDecoded(w + b) == WordDecoded(w)
  {
    hide InAlphabet, IsSpace, Num, Digits, LeadingOnes, WordLength, SkipSpaces;
    var n := LeadingOnes(w);
    var u := w[n..];
    OneIsNoSpace();
    assert b != [] ==> b[0] != '1';
    OnesAre(w + b, n);
    assert (w + b)[n..] == u + b;
    WordIs(u + b, |u|);
    WordIs(u, |u|);
    assert (u + b)[..|u|] == u == u[..|u|];
    assert (u + b)[|u|..] == b && u[|u|..] == [];
    SpacesAre(b, |b|);
    SpacesAre(u[|u|..], 0);
  }

  /** A string decodes exactly when it is a word of the alphabet with nothing but space around it. */
  lemma DecodesOnlyWords(s: string)
    ensures Decoded(s).Some? <==> exists a, w, b :: Padded(CString(s), a, w, b)
  {
    hide Decoded, CString, Padded;
    forall a, w, b | Padded(CString(s), a, w, b) ensures Decoded(s).Some? {
      PaddedDecodes(s, a, w, b);
    }
    if Decoded(s).Some? {
      var a, w, b := Parts(s);
      assert Padded(CString(s), a, w, b);
    }
  }

  lemma PaddedDecodes(s: string, a: string, w: string, b: string)
    requires Padded(CString(s), a, w, b)
    ensures Decoded(s).Some?
  {
    hide WordDecoded, CString;
    SpacesAround(CString(s), a, w, b);
    AllIsWord(w);
  }

  lemma Parts(s: string) returns (a: string, w: string, b: string)
    requires Decoded(s).Some?
    ensures Padded(CString(s), a, w, b)
  {
    hide InAlphabet, IsSpace, Num, Digits, SkipSpaces, WordLength, LeadingOnes, CString;
    var psz := CString(s);
    var k := SkipSpaces(psz);
    var t := psz[k..];
    var z := LeadingOnes(t);
    var u := t[z..];
    var n := WordLength(u);
    OnesInAlphabet(t[..z]);
    a, w, b := psz[..k], t[..z] + u[..n], u[n..];
    Rejoin(psz, k, z, n);
  }

  lemma Rejoin(s: string, k: nat, z: nat, n: nat)
    requires k + z + n <= |s|
    ensures s == s[..k] + (s[k..][..z] + s[k..][z..][..n]) + s[k..][z..][n..]
  {
  }

  lemma AllIsWord(w: string)
    requires AllIn(w)
    ensures WordDecoded(w).Some?
  {
    hide WordDecoded, Num, Digits, InAlphabet;
    DecodesWord(w);
    PlainCString(w);
    PlainWord(w);
    assert w[0..] == w;
  }

  lemma OnesInAlphabet(w: string)
    requires forall i | 0 <= i < |w| :: w[i] == '1'
    ensures AllIn(w)
  {
    assert ALPHABET[0] == '1';
  }

  // With a hash at the end

  /** Four bytes, as of a hash of which nothing else is known. */
  type Four = v: Bytes | |v| == 4 witness [0, 0, 0, 0]

  function EncodedCheck(v: Bytes, hash: Bytes -> Four): string {
    Encoded(v + hash(v))
  }

  function DecodedCheck(s: string, hash: Bytes -> Four): Option<Bytes> {
    match Decoded(s)
    case None => None
    case Some(v) => if |v| < 4 || hash(v[..|v| - 4]) != v[|v| - 4..] then None else Some(v[..|v| - 4])
  }

  method EncodeBase58Check(vchIn: Bytes, hash: Bytes -> Four) returns (str: string)
    ensures str == EncodedCheck(vchIn, hash)
  {
    var vch := vchIn + hash(vchIn);
    str := EncodeBase58(vch);
  }

  method DecodeBase58Check(psz: string, hash: Bytes -> Four) returns (vchRet: Option<Bytes>)
    ensures vchRet == DecodedCheck(psz, hash)
  {
    vchRet := DecodeBase58(psz);
    if vchRet.None? || |vchRet.value| < 4 {
      return None;
    }
    var v := vchRet.value;
    if hash(v[..|v| - 4]) != v[|v| - 4..] {
      return None;
    }
    return Some(v[..|v| - 4]);
  }

  /** A string passes the check exactly when it decodes to the bytes with their own hash behind them. */
  lemma CheckMeans(s: string, v: Bytes, hash: Bytes -> Four)
    ensures DecodedCheck(s, hash) == Some(v) <==> Decoded(s) == Some(v + hash(v))
    ensures DecodedCheck(EncodedCheck(v, hash), hash) == Some(v)
  {
    hide Decoded, Encoded;
    DecodesEncoded(v + hash(v));
    var w := v + hash(v);
    assert w[..|w| - 4] == v && w[|w| - 4..] == hash(v);
    if DecodedCheck(s, hash) == Some(v) {
      var u := Decoded(s).value;
      assert u == u[..|u| - 4] + u[|u| - 4..];
    }
  }
}
