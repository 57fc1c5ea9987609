/** Compressed amounts, scripts and transaction outputs. */
module Compressor {
  import opened Arithmetic
  import opened CoinData
  import opened Options
  import opened VarInts
  import opened Words

  // Amounts

  /** The amount without its trailing zeros, up to nine of them, and their number. */
  function Stripped(n: nat, e: nat): (r: (nat, nat))
    requires e <= 9
    ensures e <= r.1 <= 9 && r.0 <= n
    ensures r.1 < 9 && n > 0 ==> r.0 % 10 != 0
    ensures n > 0 ==> r.0 > 0
    decreases 9 - e
  {
    if n % 10 == 0 && e < 9 then Stripped(n / 10, e + 1) else (n, e)
  }

  /** The compressed amount, before any wrap-around. */
  function Compressed(n: nat): nat {
    if n == 0 then 0
    else
      var (m, e) := Stripped(n, 0);
      if e < 9 then 1 + (m / 10 * 9 + m % 10 - 1) * 10 + e else 1 + (m - 1) * 10 + 9
  }

  function Tens(e: nat): (p: nat)
    ensures p > 0
  {
    Pow(10, e)
  }

  function Decompressed(x: nat): nat {
    if x == 0 then 0
    else
      var e, y := (x - 1) % 10, (x - 1) / 10;
      MulNat(if e < 9 then y / 9 * 10 + y % 9 + 1 else y + 1, Tens(e));
      (if e < 9 then y / 9 * 10 + y % 9 + 1 else y + 1) * Tens(e)
  }

  /** 64-bit arithmetic wraps. */
  method CompressAmount(nAmount: nat) returns (x: nat)
    requires nAmount < DWORD
    ensures x == Compressed(nAmount) % DWORD
  {
    if nAmount == 0 {
      return 0;
    }
    var n: nat, e: nat := nAmount, 0;
    while n % 10 == 0 && e < 9
      invariant e <= 9 && Stripped(nAmount, 0) == Stripped(n, e)
      decreases 9 - e
    {
      n := n / 10;
      e := e + 1;
    }
    if e < 9 {
      var d := n % 10;
      assert 1 <= d <= 9;
      n := n / 10;
      x := (1 + (n * 9 + d - 1) * 10 + e) % DWORD;
    } else {
      x := (1 + (n - 1) * 10 + 9) % DWORD;
    }
  }

  method DecompressAmount(nAmount: nat) returns (n: nat)
    requires nAmount < DWORD
    ensures n == Decompressed(nAmount) % DWORD
  {
    if nAmount == 0 {
      return 0;
    }
    var x: nat := nAmount - 1;
    var e: nat := x % 10;
    x := x / 10;
    if e < 9 {
      var d := x % 9 + 1;
      x := x / 9;
      n := (x * 10 + d) % DWORD;
    } else {
      n := (x + 1) % DWORD;
    }
    ghost var whole, all := if e < 9 then x * 10 + (nAmount - 1) / 10 % 9 + 1 else x + 1, e;
    assert Tens(0) == 1;
    while e > 0
      invariant 0 <= e <= all && n == whole * Tens(all - e) % DWORD
    {
      TensMore(whole, all - e);
      n := n * 10 % DWORD;
      e := e - 1;
    }
  }

  lemma TensMore(whole: nat, k: nat)
    ensures whole * Tens(k) % DWORD * 10 % DWORD == whole * Tens(k + 1) % DWORD
  {
    var v := whole * Tens(k);
    MulNat(whole, Tens(k));
    var q, r := v / DWORD, v % DWORD;
    assert whole * Tens(k + 1) == v * 10;
    var q', r' := r * 10 / DWORD, r * 10 % DWORD;
    assert v * 10 == (q * 10 + q') * DWORD + r';
    DivModIs(v * 10, DWORD, q * 10 + q', r');
  }

  /** Stripping takes off exactly the zeros that multiplying puts on. */
  lemma {:induction false} StripTens(m: nat, k: nat, e: nat)
    requires m > 0 && e + k <= 9 && (e + k < 9 ==> m % 10 != 0)
    ensures m * Tens(k) >= 0 && Stripped(m * Tens(k), e) == (m, e + k)
    decreases k
  {
    MulNat(m, Tens(k));
    if k == 0 {
      assert m * Tens(0) == m;
    } else {
      MulNat(m, Tens(k - 1));
      var v := m * Tens(k - 1);
      MulAssociate(m, 10, Tens(k - 1));
      MulAssociate(10, m, Tens(k - 1));
      assert m * Tens(k) == 10 * v;
      StripTens(m, k - 1, e + 1);
    }
  }

  lemma {:induction false} StrippedTens(n: nat, e: nat)
    requires e <= 9
    ensures n == Stripped(n, e).0 * Tens(Stripped(n, e).1 - e)
    decreases 9 - e
  {
    if n % 10 == 0 && e < 9 {
      StrippedTens(n / 10, e + 1);
      var (m, f) := Stripped(n / 10, e + 1);
      MulAssociate(m, 10, Tens(f - e - 1));
      MulAssociate(10, m, Tens(f - e - 1));
    } else {
      assert Tens(0) == 1;
    }
  }

  /** Every amount is recovered from its compressed form. */
  lemma DecompressesCompressed(n: nat)
    ensures Decompressed(Compressed(n)) == n
  {
    if n > 0 {
      var (m, e) := Stripped(n, 0);
      StrippedTens(n, 0);
      var x := Compressed(n);
      var y := if e < 9 then m / 10 * 9 + m % 10 - 1 else m - 1;
      DivModIs(x - 1, 10, y, e);
      if e < 9 {
        DivModIs(y, 9, m / 10, m % 10 - 1);
      }
    }
  }

  /** Every number is the compressed form of the amount it decompresses to. */
  lemma CompressesDecompressed(x: nat)
    ensures Compressed(Decompressed(x)) == x
  {
    if x > 0 {
      var e, y := (x - 1) % 10, (x - 1) / 10;
      var m := if e < 9 then y / 9 * 10 + y % 9 + 1 else y + 1;
      if e < 9 {
        DivModIs(m, 10, y / 9, y % 9 + 1);
      }
      StripTens(m, e, 0);
    }
  }

  /** Amounts up to a ninth of the range stay in 64 bits. */
  lemma CompressedFits(n: nat)
    requires 9 * n <= 0xffff_ffff_ffff_ffff
    ensures Compressed(n) < DWORD
  {
    if n > 0 {
      var (m, e) := Stripped(n, 0);
      StrippedTens(n, 0);
      if e > 0 {
        PowMonotone(10, 1, e);
        MulMonotone(m, 10, Tens(e));
        assert Tens(1) == 10;
      } else {
        assert Tens(0) == 1;
      }
      if e == 9 {
        PowMonotone(10, 2, 9);
        MulMonotone(m, 100, Tens(9));
        assert Tens(2) == 100;
      }
    }
  }

  /** An amount that fits the range and whose compressed form does too; a test made before compressing. */
  predicate Compressible(n: nat) {
    n < DWORD && (n % 10 == 0 || 9 * n + n % 10 - 9 < DWORD)
  }

  /** The compressed form of an amount that does not end in a zero. */
  lemma CompressedPlain(n: nat)
    requires n % 10 != 0
    ensures Compressed(n) == 9 * n + n % 10 - 9
  {
    assert Stripped(n, 0) == (n, 0);
  }

  /** The compressed form of an amount that ends in a zero is smaller. */
  lemma CompressedRound(n: nat)
    requires n % 10 == 0
    ensures Compressed(n) <= n / 10 * 9 + 9
  {
    if n > 0 {
      var (m, e) := Stripped(n, 0);
      StrippedTens(n, 0);
      assert Stripped(n, 0) == Stripped(n / 10, 1);
      PowMonotone(10, 1, e);
      MulMonotone(m, 10, Tens(e));
      assert Tens(1) == 10;
      if e == 9 {
        PowMonotone(10, 2, 9);
        MulMonotone(m, 100, Tens(9));
        assert Tens(2) == 100;
      }
    }
  }

  /** The test is exact. */
  lemma CompressibleFits(n: nat)
    requires n < DWORD
    ensures Compressible(n) <==> Compressed(n) < DWORD
  {
    hide Compressed;
    if n % 10 != 0 {
      CompressedPlain(n);
    } else {
      CompressedRound(n);
    }
  }

  /**
   * The leading digits that are read back from a form that wrapped k times: lower than those written by
   * 10 a + b, where 90 a + 10 b is what the wrapping took off, or by one more for a borrow.
   */
  lemma ReadBack(n: nat, k: nat, e: nat, a: nat, b: nat, x: nat)
    requires n % 10 != 0 && e < 9 && b < 9 && k * DWORD + e == 90 * a + 10 * b
    requires 0 < x == 9 * n + n % 10 - 9 - k * DWORD
    ensures exists m: nat :: Decompressed(x) == MulTens(m, e) && (m == n - 10 * a - b || m == n - 10 * a - b - 1)
  {
    hide Tens;
    var q, d := n / 10, n % 10;
    var y := 9 * q + d - 1 - 9 * a - b;
    DivModIs(x - 1, 10, y, e);
    if d - 1 >= b {
      DivModIs(y, 9, q - a, d - 1 - b);
    } else {
      DivModIs(y, 9, q - a - 1, d + 8 - b);
    }
    var m: nat := y / 9 * 10 + y % 9 + 1;
    assert Decompressed(x) == MulTens(m, e);
  }

  function MulTens(m: nat, e: nat): nat {
    MulNat(m, Tens(e));
    m * Tens(e)
  }

  /** A factor that has an inverse in the range determines the number it is multiplied with. */
  lemma Determined(n: nat, f: int, g: int, u: int, v: int, t: int)
    requires n < DWORD && n * f == g + t * DWORD && u * f == 1 + v * DWORD
    ensures n == u * g % DWORD
  {
    var s := n * v - u * t;
    assert u * (n * f) == n + n * v * DWORD by {
      assert u * (n * f) == n * (u * f);
    }
    assert u * (n * f) == u * g + u * t * DWORD;
    assert s * DWORD == n * v * DWORD - u * t * DWORD by {
      MulDistribute(n * v, u * t, DWORD);
    }
    DivModIs(u * g, DWORD, s, n);
  }

  /** What must hold of an amount that comes back with its leading digits lower by c. */
  lemma ComesBack(n: nat, m: nat, p: nat)
    requires m * p % DWORD == n
    ensures m * p >= 0 && n * (p - 1) == (n - m) * p + m * p / DWORD * DWORD
  {
    MulNat(m, p);
    MulDistribute(n, m, p);
  }

  /** An amount whose form would wrap another number of times. */
  predicate WrapsOtherwise(n: nat, k: nat) {
    n % 10 == 0 || (9 * n + n % 10 - 9) / DWORD != k
  }

  /**
   * The numbers that belong to wrapping k times: e zeros are put back, 90 a + 10 b is what the wrapping
   * took off, u is the inverse of 10^e - 1 in the range, and n0 and n1 are the amounts that alone could
   * come back. Neither wraps k times.
   */
  datatype Wrapping = Wrapping(e: nat, p: nat, a: nat, b: nat, u: nat, v: nat, n0: nat, n1: nat) {
    predicate Fits(k: nat) {
      && e < 9 && p == Tens(e) && b < 9 && k * DWORD + e == 90 * a + 10 * b
      && u * (p - 1) == 1 + v * DWORD
      && n0 == u * ((10 * a + b) * p) % DWORD && n1 == u * ((10 * a + b + 1) * p) % DWORD
      && WrapsOtherwise(n0, k) && WrapsOtherwise(n1, k)
    }
  }

  /** No amount comes back from a form that wrapped. */
  lemma Lost(n: nat, k: nat, w: Wrapping)
    requires n < DWORD && n % 10 != 0 && Compressed(n) / DWORD == k && w.Fits(k)
    ensures Decompressed(Compressed(n) % DWORD) % DWORD != n
  {
    hide Compressed, Decompressed, Tens;
    CompressedPlain(n);
    var x := Compressed(n) % DWORD;
    assert x == 9 * n + n % 10 - 9 - k * DWORD;
    NothingBack();
    if Decompressed(x) % DWORD == n {
      ReadBack(n, k, w.e, w.a, w.b, x);
      var m: nat :| Decompressed(x) == MulTens(m, w.e) && (m == n - 10 * w.a - w.b || m == n - 10 * w.a - w.b - 1);
      ComesBack(n, m, w.p);
      Determined(n, w.p - 1, (n - m) * w.p, w.u, w.v, m * w.p / DWORD);
    }
  }

  lemma NothingBack()
    ensures Decompressed(0) == 0
  {
  }

  lemma SomeTens()
    ensures Tens(0) == 1 && Tens(2) == 100 && Tens(4) == 10000 && Tens(6) == 1000000 && Tens(8) == 100000000
  {
    assert Tens(2) == 10 * Tens(1) == 100 * Tens(0);
    PowAdd(10, 2, 2);
    PowAdd(10, 2, 4);
    PowAdd(10, 4, 4);
  }

  const WRAPPED_1 := Wrapping(4, 10000, 204963823041217240, 2, 13458245626333751279, 7295,
                              15288550632769423584, 10300052185393623248)

  lemma Fits1()
    ensures WRAPPED_1.Fits(1)
  {
    hide Tens;
    SomeTens();
  }

  const WRAPPED_2 := Wrapping(8, 100000000, 409927646082434480, 4, 300153063250403071, 1627133,
                              14480868974329830400, 14781022037580233472)

  lemma Fits2()
    ensures WRAPPED_2.Fits(2)
  {
    hide Tens;
    SomeTens();
  }

  const WRAPPED_3 := Wrapping(2, 100, 614891469123651720, 5, 12670490878911611211, 68,
                              1925417731599313468, 14595908610510924680)

  lemma Fits3()
    ensures WRAPPED_3.Fits(3)
  {
    hide Tens;
    SomeTens();
  }

  const WRAPPED_4 := Wrapping(6, 1000000, 819855292164868960, 7, 1672254362768354751, 90653,
                              14161661572577611840, 15833915935345966592)

  lemma Fits4()
    ensures WRAPPED_4.Fits(4)
  {
    hide Tens;
    SomeTens();
  }

  const WRAPPED_6 := Wrapping(4, 10000, 1229782938247303441, 1, 13458245626333751279, 7295,
                              4486081875444583760, 17944327501778335040)

  lemma Fits6()
    ensures WRAPPED_6.Fits(6)
  {
    hide Tens;
    SomeTens();
  }

  const WRAPPED_7 := Wrapping(8, 100000000, 1434746761288520681, 3, 300153063250403071, 1627133,
                              4266028162630124288, 4566181225880527360)

  lemma Fits7()
    ensures WRAPPED_7.Fits(7)
  {
    hide Tens;
    SomeTens();
  }

  const WRAPPED_8 := Wrapping(2, 100, 1639710584329737921, 4, 12670490878911611211, 68,
                              7432526512302726184, 1656273317504785780)

  lemma Fits8()
    ensures WRAPPED_8.Fits(8)
  {
    hide Tens;
    SomeTens();
  }

  /** A form that wrapped five times has no zeros to put back. */
  lemma LostFiveTimes(n: nat)
    requires n < DWORD && n % 10 != 0 && Compressed(n) / DWORD == 5
    ensures Decompressed(Compressed(n) % DWORD) % DWORD != n
  {
    hide Compressed, Tens;
    CompressedPlain(n);
    var x := Compressed(n) % DWORD;
    SomeTens();
    if x > 0 {
      ReadBack(n, 5, 0, 1024819115206086200, 8, x);
    }
  }

  /**
   * An amount survives being compressed and decompressed in 64 bits exactly when it ends in a zero or
   * nine times it, corrected by its last digit, stays in the range.
   */
  lemma SurvivesCompression(n: nat)
    requires n < DWORD
    ensures Decompressed(Compressed(n) % DWORD) % DWORD == n <==> Compressible(n)
  {
    hide Compressed, Decompressed, Wrapping.Fits;
    CompressibleFits(n);
    DecompressesCompressed(n);
    var k := Compressed(n) / DWORD;
    if n % 10 != 0 {
      CompressedPlain(n);
      assert k <= 8;
      if k == 1 {
        Fits1();
        Lost(n, 1, WRAPPED_1);
      } else if k == 2 {
        Fits2();
        Lost(n, 2, WRAPPED_2);
      } else if k == 3 {
        Fits3();
        Lost(n, 3, WRAPPED_3);
      } else if k == 4 {
        Fits4();
        Lost(n, 4, WRAPPED_4);
      } else if k == 5 {
        LostFiveTimes(n);
      } else if k == 6 {
        Fits6();
        Lost(n, 6, WRAPPED_6);
      } else if k == 7 {
        Fits7();
        Lost(n, 7, WRAPPED_7);
      } else if k == 8 {
        Fits8();
        Lost(n, 8, WRAPPED_8);
      }
    }
  }

  /** The leading digits a form stands for, and the number of zeros behind them. */
  function Parts(x: nat): (r: (nat, nat))
    requires x > 0
    ensures Decompressed(x) == MulTens(r.0, r.1)
  {
    var e, y := (x - 1) % 10, (x - 1) / 10;
    (if e < 9 then y / 9 * 10 + y % 9 + 1 else y + 1, e)
  }

  /** What a form stands for is in the range; a test made before multiplying. */
  predicate Decompressible(x: nat) {
    x < DWORD && (x == 0 || Parts(x).0 <= Div(DWORD - 1, Tens(Parts(x).1)))
  }

  lemma DecompressibleFits(x: nat)
    requires x < DWORD
    ensures Decompressible(x) <==> Decompressed(x) < DWORD
  {
    hide Decompressed, Tens;
    if x > 0 {
      hide Parts;
      var (m, e) := Parts(x);
      DivLess(DWORD - 1, Tens(e), m);
    } else {
      NothingBack();
    }
  }

  /** A form survives being decompressed and compressed in 64 bits exactly when its amount is in the range. */
  lemma SurvivesDecompression(x: nat)
    requires x < DWORD
    ensures Compressed(Decompressed(x) % DWORD) % DWORD == x <==> Decompressible(x)
  {
    hide Compressed, Decompressed, Decompressible;
    CompressesDecompressed(x);
    DecompressibleFits(x);
    var n := Decompressed(x) % DWORD;
    if Compressed(n) % DWORD == x {
      SurvivesCompression(n);
      CompressibleFits(n);
      DecompressesCompressed(n);
    }
  }

  /** Above a ninth of the range there are amounts that are lost. */
  lemma LosesAmounts()
    ensures var n := 2049638230412172411;
            n < DWORD && Decompressed(Compressed(n) % DWORD) % DWORD == 80000
  {
    var n := 2049638230412172411;
    assert Stripped(n, 0) == (n, 0);
    assert Compressed(n) == 18446744073709551691;
    assert Tens(4) == 10 * Tens(3) == 100 * Tens(2) == 1000 * Tens(1) == 10000 * Tens(0) == 10000;
    assert Decompressed(75) == 8 * Tens(4);
  }

  // Scripts

  const OP_DUP: Byte := 0x76
  const OP_EQUAL: Byte := 0x87
  const OP_EQUALVERIFY: Byte := 0x88
  const OP_HASH160: Byte := 0xa9
  const OP_CHECKSIG: Byte := 0xac

  const SPECIAL_SCRIPTS := 6

  /** The elliptic curve, as far as scripts need it: validity of a full key, and recovering one. */
  datatype Curve = Curve(fullyValid: Stream -> bool, decompress: Stream -> Option<FullKey>)

  type FullKey = key: Stream | |key| == 65 witness seq(65, _ => 0)

  /** Decompressing gives back every valid full key from its first coordinate and its parity. */
  ghost predicate Lawful(curve: Curve) {
    forall key: Stream | |key| == 65 && key[0] == 4 && curve.fullyValid(key) ::
      curve.decompress([2 + key[64] % 2] + key[1..33]) == Some(key)
  }

  function KeyHashScript(hash: Stream): Stream {
    [OP_DUP, OP_HASH160, 20] + hash + [OP_EQUALVERIFY, OP_CHECKSIG]
  }

  function ScriptHashScript(hash: Stream): Stream {
    [OP_HASH160, 20] + hash + [OP_EQUAL]
  }

  function PubKeyScript(key: Stream): Stream
    requires |key| < 256
  {
    [|key|] + key + [OP_CHECKSIG]
  }

  /** The hash a script pays to, if it is of that form. */
  function IsToKeyID(script: Stream): (r: Option<Stream>)
    ensures forall hash :: r == Some(hash) <==> |hash| == 20 && script == KeyHashScript(hash)
  {
    if |script| == 25 && script[0] == OP_DUP && script[1] == OP_HASH160 && script[2] == 20 &&
       script[23] == OP_EQUALVERIFY && script[24] == OP_CHECKSIG
    then
      assert script == KeyHashScript(script[3..23]);
      Some(script[3..23])
    else None
  }

  function IsToScriptID(script: Stream): (r: Option<Stream>)
    ensures forall hash :: r == Some(hash) <==> |hash| == 20 && script == ScriptHashScript(hash)
  {
    if |script| == 23 && script[0] == OP_HASH160 && script[1] == 20 && script[22] == OP_EQUAL
    then
      assert script == ScriptHashScript(script[2..22]);
      Some(script[2..22])
    else None
  }

  /** A key that has a compressed form. */
  predicate IsKey(key: Stream, curve: Curve) {
    (|key| == 33 && (key[0] == 2 || key[0] == 3)) || (|key| == 65 && key[0] == 4 && curve.fullyValid(key))
  }

  function IsToPubKey(script: Stream, curve: Curve): (r: Option<Stream>)
    ensures forall key :: r == Some(key) <==> IsKey(key, curve) && script == PubKeyScript(key)
  {
    if |script| == 35 && script[0] == 33 && script[34] == OP_CHECKSIG && (script[1] == 2 || script[1] == 3) then
      assert script == PubKeyScript(script[1..34]);
      Some(script[1..34])
    else if |script| == 67 && script[0] == 65 && script[66] == OP_CHECKSIG && script[1] == 4 then
      assert script == PubKeyScript(script[1..66]);
      if curve.fullyValid(script[1..66]) then Some(script[1..66]) else None
    else None
  }

  /** The special form of a script, led by one of six numbers. */
  function Compress(script: Stream, curve: Curve): (out: Option<Stream>)
    ensures out.Some? ==> |out.value| > 0 && out.value[0] < SPECIAL_SCRIPTS
  {
    match IsToKeyID(script)
    case Some(hash) => Some([0] + hash)
    case None =>
      match IsToScriptID(script)
      case Some(hash) => Some([1] + hash)
      case None =>
        match IsToPubKey(script, curve)
        case Some(key) => Some([if key[0] == 4 then 4 + key[64] % 2 else key[0]] + key[1..33])
        case None => None
  }

  function GetSpecialSize(nSize: nat): nat {
    if nSize == 0 || nSize == 1 then 20 else if 2 <= nSize <= 5 then 32 else 0
  }

  function Decompress(nSize: nat, data: Stream, curve: Curve): Option<Stream>
    requires |data| == GetSpecialSize(nSize)
  {
    if nSize == 0 then Some(KeyHashScript(data))
    else if nSize == 1 then Some(ScriptHashScript(data))
    else if nSize == 2 || nSize == 3 then Some(PubKeyScript([nSize] + data))
    else if nSize == 4 || nSize == 5 then
      match curve.decompress([nSize - 2] + data)
      case Some(key) => Some(PubKeyScript(key))
      case None => None
    else None
  }

  /** A special form decompresses to the script it came from. */
  lemma DecompressesScript(script: Stream, curve: Curve)
    requires Lawful(curve) && Compress(script, curve).Some?
    ensures var out := Compress(script, curve).value;
            && |out| == 1 + GetSpecialSize(out[0])
            && Decompress(out[0], out[1..], curve) == Some(script)
  {
    var out := Compress(script, curve).value;
    if IsToKeyID(script).Some? {
      assert out[1..] == IsToKeyID(script).value;
    } else if IsToScriptID(script).Some? {
      assert out[1..] == IsToScriptID(script).value;
    } else {
      var key := IsToPubKey(script, curve).value;
      assert out[1..] == key[1..33];
      if key[0] != 4 {
        assert [out[0]] + out[1..] == key;
      }
    }
  }

  /** What is written for a script. */
  function ScriptBytes(script: Stream, curve: Curve): Stream {
    match Compress(script, curve)
    case Some(out) => out
    case None => VarInt(|script| + SPECIAL_SCRIPTS, false) + script
  }

  /** What is read for a script; where decompression fails the script stays as it was. */
  function ScriptIn(s: Stream, before: Stream, curve: Curve): Read<Stream> {
    match VarIntIn(s, 0, WORD)
    case EndOfStream => EndOfStream
    case Got(nSize, rest) =>
      if nSize < SPECIAL_SCRIPTS then
        var n := GetSpecialSize(nSize);
        if |rest| < n then EndOfStream
        else
          match Decompress(nSize, rest[..n], curve)
          case Some(script) => Got(script, rest[n..])
          case None => Got(before, rest[n..])
      else if |rest| < nSize - SPECIAL_SCRIPTS then EndOfStream
      else Got(rest[..nSize - SPECIAL_SCRIPTS], rest[nSize - SPECIAL_SCRIPTS..])
  }

  /** The numbers that lead a special form are those below the bound, and there are six. */
  lemma SpecialForms(n: nat)
    ensures n < SPECIAL_SCRIPTS <==> GetSpecialSize(n) > 0
    ensures GetSpecialSize(n) == if n < 2 then 20 else if n < 6 then 32 else 0
  {
  }

  /** The forms in bytes: paying to the hash of a key leads with 0. */
  lemma KeyHashForm(hash: Stream, curve: Curve)
    requires |hash| == 20
    ensures ScriptBytes([0x76, 0xa9, 20] + hash + [0x88, 0xac], curve) == [0] + hash
  {
    assert IsToKeyID(KeyHashScript(hash)) == Some(hash);
  }

  /** To the hash of a script, with 1. */
  lemma ScriptHashForm(hash: Stream, curve: Curve)
    requires |hash| == 20
    ensures ScriptBytes([0xa9, 20] + hash + [0x87], curve) == [1] + hash
  {
    var script := ScriptHashScript(hash);
    assert IsToScriptID(script) == Some(hash);
    assert |script| == 23;
  }

  /** To a key, with its own first byte if it is short, and with 4 or 5 by its parity if it is full. */
  lemma KeyForm(key: Stream, curve: Curve)
    requires (|key| == 33 && (key[0] == 2 || key[0] == 3)) || (|key| == 65 && key[0] == 4 && curve.fullyValid(key))
    ensures ScriptBytes([|key|] + key + [0xac], curve) ==
            [if |key| == 33 then key[0] else if key[64] % 2 == 0 then 4 else 5] + key[1..33]
  {
    var script := PubKeyScript(key);
    assert |script| == |key| + 2;
    assert IsToPubKey(script, curve) == Some(key);
  }

  /** One of these scripts. */
  ghost predicate IsSpecial(script: Stream, curve: Curve) {
    || (exists hash: Stream :: |hash| == 20 && script == [0x76, 0xa9, 20] + hash + [0x88, 0xac])
    || (exists hash: Stream :: |hash| == 20 && script == [0xa9, 20] + hash + [0x87])
    || (exists key: Stream :: |key| == 33 && (key[0] == 2 || key[0] == 3) && script == [33] + key + [0xac])
    || (exists key: Stream ::
          |key| == 65 && key[0] == 4 && curve.fullyValid(key) && script == [65] + key + [0xac])
  }

  /** What has a special form is one of them. */
  lemma CompressesSpecial(script: Stream, curve: Curve)
    ensures Compress(script, curve).Some? ==> IsSpecial(script, curve)
  {
    if IsToKeyID(script).Some? {
      assert script == KeyHashScript(IsToKeyID(script).value);
    } else if IsToScriptID(script).Some? {
      assert script == ScriptHashScript(IsToScriptID(script).value);
    } else if IsToPubKey(script, curve).Some? {
      assert script == PubKeyScript(IsToPubKey(script, curve).value);
    }
  }

  /** Any other script follows its length and six. */
  lemma PlainForm(script: Stream, curve: Curve)
    requires !IsSpecial(script, curve)
    ensures ScriptBytes(script, curve) == VarInt(|script| + 6, false) + script
    ensures script == [] ==> ScriptBytes(script, curve) == [6]
  {
    hide IsSpecial, Compress;
    CompressesSpecial(script, curve);
  }

  /** Every script is read back as it was written, special or not. */
  lemma ScriptRoundTrip(script: Stream, before: Stream, rest: Stream, curve: Curve)
    requires Lawful(curve) && |script| + SPECIAL_SCRIPTS < WORD
    ensures ScriptIn(ScriptBytes(script, curve) + rest, before, curve) == Got(script, rest)
  {
    hide Compress, Decompress, Lawful;
    match Compress(script, curve) {
      case Some(out) =>
        DecompressesScript(script, curve);
        assert VarInt(out[0], false) == [out[0]];
        assert out + rest == [out[0]] + (out[1..] + rest);
        VarIntRoundTrip(out[0], out[1..] + rest, WORD);
        var n := GetSpecialSize(out[0]);
        assert (out[1..] + rest)[..n] == out[1..] && (out[1..] + rest)[n..] == rest;
      case None =>
        var n := |script| + SPECIAL_SCRIPTS;
        assert ScriptBytes(script, curve) + rest == VarInt(n, false) + (script + rest);
        VarIntRoundTrip(n, script + rest, WORD);
        assert (script + rest)[..|script|] == script && (script + rest)[|script|..] == rest;
    }
  }

  method WriteScript(script: Stream, curve: Curve) returns (out: Stream)
    requires |script| + SPECIAL_SCRIPTS < WORD
    ensures out == ScriptBytes(script, curve)
  {
    hide Compress;
    Pow2Of32();
    var compr := Compress(script, curve);
    if compr.Some? {
      return compr.value;
    }
    var nSize := |script| + SPECIAL_SCRIPTS;
    out := WriteVarInt(nSize, 32);
    out := out + script;
  }

  method ReadScript(s: Stream, before: Stream, curve: Curve) returns (r: Read<Stream>)
    ensures r == ScriptIn(s, before, curve)
  {
    hide Decompress;
    Pow2Of32();
    var size := ReadVarInt(s, 32);
    if size.EndOfStream? {
      return EndOfStream;
    }
    var nSize, rest := size.value, size.rest;
    if nSize < SPECIAL_SCRIPTS {
      var n := GetSpecialSize(nSize);
      if |rest| < n {
        return EndOfStream;
      }
      var script := Decompress(nSize, rest[..n], curve);
      return Got(if script.Some? then script.value else before, rest[n..]);
    }
    nSize := nSize - SPECIAL_SCRIPTS;
    if |rest| < nSize {
      return EndOfStream;
    }
    return Got(rest[..nSize], rest[nSize..]);
  }

  // Outputs

  /** A 64-bit pattern read as signed, and back. */
  function ToSigned64(v: nat): int
    requires v < DWORD
  {
    if v < DWORD / 2 then v else v - DWORD
  }

  function ToUnsigned64(v: int): (u: nat)
    ensures u < DWORD
  {
    v % DWORD
  }

  function TxOutBytes(out: TxOut, curve: Curve): Stream {
    VarInt(Compressed(ToUnsigned64(out.nValue)) % DWORD, false) + ScriptBytes(out.script, curve)
  }

  function TxOutIn(s: Stream, before: TxOut, curve: Curve): Read<TxOut> {
    match VarIntIn(s, 0, DWORD)
    case EndOfStream => EndOfStream
    case Got(nVal, rest) =>
      match ScriptIn(rest, before.script, curve)
      case EndOfStream => EndOfStream
      case Got(script, end) => Got(TxOut(ToSigned64(Decompressed(nVal) % DWORD), script), end)
  }

  method WriteTxOut(txout: TxOut, curve: Curve) returns (out: Stream)
    requires |txout.script| + SPECIAL_SCRIPTS < WORD
    ensures out == TxOutBytes(txout, curve)
  {
    hide Compressed;
    Pow2Of64();
    var nVal := CompressAmount(ToUnsigned64(txout.nValue));
    out := WriteVarInt(nVal, 64);
    var script := WriteScript(txout.script, curve);
    out := out + script;
  }

  method ReadTxOut(s: Stream, before: TxOut, curve: Curve) returns (r: Read<TxOut>)
    ensures r == TxOutIn(s, before, curve)
  {
    hide Decompressed, ScriptIn;
    Pow2Of64();
    var size := ReadVarInt(s, 64);
    if size.EndOfStream? {
      return EndOfStream;
    }
    VarIntBelow(s, 0, DWORD);
    var nValue := DecompressAmount(size.value);
    var script := ReadScript(size.rest, before.script, curve);
    if script.EndOfStream? {
      return EndOfStream;
    }
    return Got(TxOut(ToSigned64(nValue), script.value), script.rest);
  }

  lemma Pow2Of64()
    ensures Pow2(64) == DWORD
  {
    Pow2Of32();
    Pow2Add(32, 32);
  }

  /** An output with a 64-bit amount and a script with a 32-bit size: all that can be written. */
  ghost predicate Sized(out: TxOut) {
    -DWORD / 2 <= out.nValue < DWORD / 2 && |out.script| + SPECIAL_SCRIPTS < WORD
  }

  /** An output that is written without loss. */
  ghost predicate Encodable(out: TxOut) {
    Sized(out) && Compressible(ToUnsigned64(out.nValue))
  }

  /** An output as it is read back: only its amount may differ. */
  function Reread(out: TxOut): TxOut {
    TxOut(ToSigned64(Decompressed(Compressed(ToUnsigned64(out.nValue)) % DWORD) % DWORD), out.script)
  }

  /** What was written is read back, up to the loss in the amount, and nothing behind it is touched. */
  lemma ReadsBack(out: TxOut, before: TxOut, rest: Stream, curve: Curve)
    requires Lawful(curve) && Sized(out)
    ensures TxOutIn(TxOutBytes(out, curve) + rest, before, curve) == Got(Reread(out), rest)
  {
    hide Compressed, Decompressed, ScriptIn, ScriptBytes, Lawful;
    var x := Compressed(ToUnsigned64(out.nValue)) % DWORD;
    var tail := ScriptBytes(out.script, curve) + rest;
    assert TxOutBytes(out, curve) + rest == VarInt(x, false) + tail;
    VarIntRoundTrip(x, tail, DWORD);
    ScriptRoundTrip(out.script, before.script, rest, curve);
  }

  /** An output comes back as it was exactly when its amount survives compression. */
  lemma RereadIsSame(out: TxOut)
    requires Sized(out)
    ensures Reread(out) == out <==> Encodable(out)
  {
    hide Compressed, Decompressed, Compressible;
    SurvivesCompression(ToUnsigned64(out.nValue));
  }

  /** Every output is read back but for an amount that does not survive, and nothing behind it is touched. */
  lemma TxOutRoundTrip(out: TxOut, before: TxOut, rest: Stream, curve: Curve)
    requires Lawful(curve) && Sized(out)
    ensures TxOutIn(TxOutBytes(out, curve) + rest, before, curve) == Got(out, rest) <==> Encodable(out)
    ensures var r := TxOutIn(TxOutBytes(out, curve) + rest, before, curve);
            r.Got? && r.value.script == out.script && r.rest == rest
  {
    hide TxOutIn, TxOutBytes, Compressed, Decompressed, Lawful, Encodable;
    ReadsBack(out, before, rest, curve);
    RereadIsSame(out);
  }
}
