/** Variable-length integers, and what reading from a stream yields. */
module VarInts {
  import opened Arithmetic
  import opened CoinData
  import opened Words

  type Stream = seq<Byte>

  /** What reading yields: the value and the rest of the stream, or the end of the stream. */
  datatype Read<+T> = Got(value: T, rest: Stream) | EndOfStream

  /** What was read before, in front of what is read. */
  function Prepend<T>(before: seq<T>, r: Read<seq<T>>): (p: Read<seq<T>>)
    ensures before == [] ==> p == r
    ensures r.Got? && r.value == [] ==> p == Got(before, r.rest)
  {
    match r
    case Got(value, rest) =>
      assert [] + value == value && before + [] == before;
      Got(before + value, rest)
    case EndOfStream => EndOfStream
  }

  lemma PrependTwice<T>(a: seq<T>, b: seq<T>, r: Read<seq<T>>)
    ensures Prepend(a, Prepend(b, r)) == Prepend(a + b, r)
  {
    if r.Got? {
      assert a + (b + r.value) == a + b + r.value;
    }
  }

  // Variable-length integers

  /** Base 128, most significant first; every byte but the last carries bit 128 and one is taken off. */
  function VarInt(n: nat, more: bool): (s: Stream)
    ensures |s| > 0
  {
    var flag := if more then 128 else 0;
    if n < 128 then [n + flag] else VarInt(n / 128 - 1, true) + [n % 128 + flag]
  }

  /** The numbers that take one byte, two and three. */
  lemma VarIntSizes(n: nat)
    ensures |VarInt(n, false)| == 1 <==> n <= 127
    ensures |VarInt(n, false)| == 2 <==> 128 <= n <= 16511
    ensures |VarInt(n, false)| == 3 <==> 16512 <= n <= 2113663
  {
    if n >= 128 {
      var m := n / 128 - 1;
      if m >= 128 {
        var l := m / 128 - 1;
        assert l >= 128 ==> |VarInt(l, true)| == |VarInt(l / 128 - 1, true)| + 1;
      }
    }
  }

  /** The numbers whose bytes the source lists; of these it gives 16511 and 65535 otherwise. */
  lemma VarIntExamples()
    ensures VarInt(0, false) == [0x00] && VarInt(1, false) == [0x01] && VarInt(127, false) == [0x7f]
    ensures VarInt(128, false) == [0x80, 0x00] && VarInt(255, false) == [0x80, 0x7f]
    ensures VarInt(256, false) == [0x81, 0x00] && VarInt(16383, false) == [0xfe, 0x7f]
    ensures VarInt(16384, false) == [0xff, 0x00] && VarInt(16511, false) == [0xff, 0x7f]
    ensures VarInt(65535, false) == [0x82, 0xfe, 0x7f]
  {
  }

  lemma VarIntOfWord()
    ensures VarInt(0x1_0000_0000, false) == [0x8e, 0xfe, 0xfe, 0xff, 0x00]
  {
  }

  function Reversed(s: Stream): Stream {
    if s == [] then [] else [s[|s| - 1]] + Reversed(s[..|s| - 1])
  }

  lemma ReversedNone(s: Stream)
    requires s == []
    ensures Reversed(s) == []
  {
  }

  lemma ReversedMore(s: Stream, b: Byte)
    ensures Reversed(s + [b]) == [b] + Reversed(s)
  {
    assert (s + [b])[..|s|] == s;
  }

  /** One digit more in the buffer, one less to come. */
  lemma DigitWritten(whole: Stream, m: nat, more: bool, tmp: Stream, d: Byte)
    requires whole == VarInt(m, more) + Reversed(tmp)
    requires d == m % 128 + (if more then 128 else 0)
    ensures m <= 127 ==> whole == Reversed(tmp + [d])
    ensures m > 127 ==> whole == VarInt(m / 128 - 1, true) + Reversed(tmp + [d])
  {
    ReversedMore(tmp, d);
  }

  /** Sends a buffer in reverse. */
  method SendReversed(tmp: array<Byte>, n: nat) returns (out: Stream)
    requires n <= tmp.Length
    ensures out == Reversed(tmp[..n])
  {
    hide Reversed;
    out := [];
    for i := n downto 0
      invariant Reversed(tmp[..n]) == out + Reversed(tmp[..i])
    {
      assert tmp[..i + 1] == tmp[..i] + [tmp[i]];
      ReversedMore(tmp[..i], tmp[i]);
      out := out + [tmp[i]];
    }
    ReversedNone(tmp[..0]);
  }

  /** The digits come last first into a buffer that is large enough, and go out in reverse. */
  method WriteVarInt(n: nat, bits: nat) returns (out: Stream)
    requires 0 < bits && n < Pow2(bits)
    ensures out == VarInt(n, false)
  {
    hide Pow2, Or, VarInt, Reversed;
    var tmp := new Byte[(bits + 6) / 7](_ => 0);
    var m: nat, len: nat := n, 0;
    ReversedNone(tmp[..0]);
    while true
      invariant 7 * len < bits && m < Pow2(bits - 7 * len)
      invariant VarInt(n, false) == VarInt(m, len > 0) + Reversed(tmp[..len])
      decreases m
    {
      OrFlag(m % 128);
      ghost var before := tmp[..len];
      tmp[len] := Or(m % 128, if len > 0 then 128 else 0);
      DigitWritten(VarInt(n, false), m, len > 0, before, tmp[len]);
      assert tmp[..len + 1] == before + [tmp[len]];
      if m <= 0x7f {
        out := SendReversed(tmp, len + 1);
        return;
      }
      SevenBits(m, bits - 7 * len);
      m := m / 128 - 1;
      len := len + 1;
    }
  }

  lemma Pow2Of7()
    ensures Pow2(7) == 128
  {
    assert Pow(2, 4) == 16 && Pow(2, 3) == 8;
    PowAdd(2, 4, 3);
  }

  lemma OrFlag(x: nat)
    requires x < 128
    ensures Or(x, 0) == x && Or(x, 128) == x + 128
  {
    hide Or;
    OrZero(x);
    Pow2Of7();
    OrDisjoint(x, 1, 7);
  }

  /** A number of more than one digit has more than seven bits, and the rest of it seven fewer. */
  lemma SevenBits(m: nat, bits: nat)
    requires 127 < m < Pow2(bits)
    ensures bits > 7 && m / 128 - 1 < Pow2(bits - 7)
  {
    hide Pow2;
    Pow2Of7();
    Pow2Order(bits, 7);
    if bits > 7 {
      Pow2Add(bits - 7, 7);
    }
  }

  /** What a type of limited width keeps. */
  function Wrap(v: nat, limit: nat): nat
    requires limit > 0
  {
    v % limit
  }

  /** Reading digits onto what was read so far, in the width of the type read into. */
  function VarIntIn(s: Stream, n: nat, limit: nat): (r: Read<nat>)
    requires limit > 0
  {
    if s == [] then EndOfStream
    else
      var m := Wrap(n * 128, limit) + s[0] % 128;
      if s[0] >= 128 then VarIntIn(s[1..], Wrap(m + 1, limit), limit) else Got(m, s[1..])
  }

  method ReadVarInt(s: Stream, bits: nat) returns (r: Read<nat>)
    requires bits >= 7
    ensures r == VarIntIn(s, 0, Pow2(bits))
  {
    hide Pow2, Or, Wrap;
    var n: nat, rest := 0, s;
    while rest != []
      invariant VarIntIn(s, 0, Pow2(bits)) == VarIntIn(rest, n, Pow2(bits))
      decreases |rest|
    {
      var chData := rest[0];
      rest := rest[1..];
      OrDigit(n, chData % 128, bits);
      n := Or(Wrap(n * 128, Pow2(bits)), chData % 128);
      if chData >= 128 {
        n := Wrap(n + 1, Pow2(bits));
      } else {
        return Got(n, rest);
      }
    }
    return EndOfStream;
  }

  /** Shifted up by seven, a number has room for a digit, whatever the width cuts off. */
  lemma OrDigit(n: nat, x: nat, bits: nat)
    requires x < 128 && bits >= 7
    ensures Or(Wrap(n * 128, Pow2(bits)), x) == Wrap(n * 128, Pow2(bits)) + x
  {
    hide Or;
    Pow2Of7();
    Pow2Add(bits - 7, 7);
    var d := Pow2(bits - 7);
    var q, r := n / d, n % d;
    assert n == q * d + r;
    MulDistribute(q * d, r, 128);
    MulAssociate(q, d, 128);
    DivModIs(n * 128, Pow2(bits), q, r * 128);
    OrDisjoint(x, r, 7);
  }

  /** Reading what all digits but the last of a number wrote leaves one more than that part. */
  lemma {:induction false} ReadsDigits(n: nat, rest: Stream, limit: nat)
    requires n + 1 < limit
    ensures VarIntIn(VarInt(n, true) + rest, 0, limit) == VarIntIn(rest, n + 1, limit)
  {
    hide Wrap;
    if n < 128 {
      assert (VarInt(n, true) + rest)[1..] == rest;
      WithinLimit(0, limit);
      WithinLimit(n + 1, limit);
    } else {
      var last := n % 128 + 128;
      assert VarInt(n, true) + rest == VarInt(n / 128 - 1, true) + ([last] + rest);
      ReadsDigits(n / 128 - 1, [last] + rest, limit);
      assert ([last] + rest)[1..] == rest;
      WithinLimit(n / 128 * 128, limit);
      WithinLimit(n + 1, limit);
    }
  }

  /** What is read fits the type it is read into. */
  lemma {:induction false} VarIntBelow(s: Stream, n: nat, limit: nat)
    requires limit > 0 && limit % 128 == 0 && VarIntIn(s, n, limit).Got?
    ensures VarIntIn(s, n, limit).value < limit
  {
    var d := limit / 128;
    var q, r := n / d, n % d;
    assert n == q * d + r;
    MulDistribute(q * d, r, 128);
    MulAssociate(q, d, 128);
    DivModIs(n * 128, limit, q, r * 128);
    if s[0] >= 128 {
      VarIntBelow(s[1..], Wrap(Wrap(n * 128, limit) + s[0] % 128 + 1, limit), limit);
    }
  }

  lemma WithinLimit(n: nat, limit: nat)
    requires n < limit
    ensures Wrap(n, limit) == n
  {
    DivModIs(n, limit, 0, n);
  }

  /** What was written is read back, and nothing beyond it is touched. */
  lemma VarIntRoundTrip(n: nat, rest: Stream, limit: nat)
    requires n < limit
    ensures VarIntIn(VarInt(n, false) + rest, 0, limit) == Got(n, rest)
  {
    hide Wrap;
    if n < 128 {
      assert (VarInt(n, false) + rest)[1..] == rest;
      WithinLimit(0, limit);
    } else {
      var last := n % 128;
      assert VarInt(n, false) + rest == VarInt(n / 128 - 1, true) + ([last] + rest);
      ReadsDigits(n / 128 - 1, [last] + rest, limit);
      assert ([last] + rest)[1..] == rest;
      WithinLimit(n / 128 * 128, limit);
    }
  }
}
