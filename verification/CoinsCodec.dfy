/** The stored form of a transaction's coins: flags, a mask of unspent outputs, and these. */
module CoinsCodec {
  import opened Arithmetic
  import opened CoinData
  import opened Compressor
  import opened VarInts
  import opened Words

  /** Whether an output is there and unspent. */
  predicate Available(vout: seq<TxOut>, i: nat) {
    i < |vout| && !vout[i].IsNull()
  }

  // The mask

  /** A mask byte: one bit for each of up to eight outputs, the first the lowest. */
  function MaskByte(vout: seq<TxOut>, first: nat, k: nat): (c: nat)
    ensures c < Pow2(k)
    decreases k
  {
    if k == 0 then 0
    else (if Available(vout, first) then 1 else 0) + 2 * MaskByte(vout, first + 1, k - 1)
  }

  /** How many of the mask bytes from b up to n are not zero. */
  function NonzeroBytes(vout: seq<TxOut>, b: nat, n: nat): nat
    requires b <= n
    decreases n - b
  {
    if b == n then 0 else (if ByteUsed(vout, b) then 1 else 0) + NonzeroBytes(vout, b + 1, n)
  }

  lemma {:induction false} NonzeroMore(vout: seq<TxOut>, b: nat, n: nat)
    requires b <= n
    ensures NonzeroBytes(vout, b, n + 1) == NonzeroBytes(vout, b, n) + (if ByteUsed(vout, n) then 1 else 0)
    decreases n - b
  {
    if b < n {
      NonzeroMore(vout, b + 1, n);
    }
  }

  /** Whether the mask byte has an unspent output. */
  predicate ByteUsed(vout: seq<TxOut>, b: nat) {
    exists i: nat | 2 + b * 8 <= i < 10 + b * 8 :: Available(vout, i)
  }

  /** The number of mask bytes up to the last that is not zero. */
  ghost predicate IsMaskSize(vout: seq<TxOut>, n: nat) {
    && (n > 0 ==> ByteUsed(vout, n - 1))
    && (forall i: nat :: i >= 2 + n * 8 ==> !Available(vout, i))
  }

  method CalcMaskSize(vout: seq<TxOut>) returns (nBytes: nat, nNonzeroBytes: nat)
    ensures IsMaskSize(vout, nBytes) && nNonzeroBytes == NonzeroBytes(vout, 0, nBytes)
  {
    nBytes, nNonzeroBytes := 0, 0;
    var b := 0;
    while 2 + b * 8 < |vout|
      invariant nBytes <= b && nNonzeroBytes == NonzeroBytes(vout, 0, nBytes)
      invariant nBytes > 0 ==> ByteUsed(vout, nBytes - 1)
      invariant forall i: nat :: 2 + nBytes * 8 <= i < 2 + b * 8 ==> !Available(vout, i)
    {
      var fZero := true;
      var i := 0;
      while i < 8 && 2 + b * 8 + i < |vout|
        invariant 0 <= i <= 8
        invariant fZero <==> forall j: nat :: 2 + b * 8 <= j < 2 + b * 8 + i ==> !Available(vout, j)
      {
        if !vout[2 + b * 8 + i].IsNull() {
          assert Available(vout, 2 + b * 8 + i);
          fZero := false;
        }
        i := i + 1;
      }
      if !fZero {
        NonzeroSkip(vout, nBytes, b);
        NonzeroMore(vout, 0, b);
        nBytes := b + 1;
        nNonzeroBytes := nNonzeroBytes + 1;
      }
      b := b + 1;
    }
  }

  lemma {:induction false} NonzeroSkip(vout: seq<TxOut>, m: nat, n: nat)
    requires m <= n && forall i: nat :: 2 + m * 8 <= i < 2 + n * 8 ==> !Available(vout, i)
    ensures NonzeroBytes(vout, 0, n) == NonzeroBytes(vout, 0, m)
  {
    if m < n {
      NonzeroMore(vout, 0, n - 1);
      NonzeroSkip(vout, m, n - 1);
    }
  }

  /** A mask byte says of each output whether it is there. */
  lemma {:induction false} MaskByteMeans(vout: seq<TxOut>, first: nat, k: nat, p: nat)
    requires p < k
    ensures Bit(MaskByte(vout, first, k), p) <==> Available(vout, first + p)
    decreases k
  {
    var c := MaskByte(vout, first, k);
    var rest := MaskByte(vout, first + 1, k - 1);
    DivModIs(c, 2, rest, if Available(vout, first) then 1 else 0);
    if p == 0 {
      BitOfHalf(c, 0);
    } else {
      BitOfHalf(c, p - 1);
      MaskByteMeans(vout, first + 1, k - 1, p - 1);
    }
  }

  /** One bit more, at the top. */
  lemma {:induction false} MaskByteMore(vout: seq<TxOut>, first: nat, k: nat)
    ensures MaskByte(vout, first, k + 1) ==
            MaskByte(vout, first, k) + (if Available(vout, first + k) then Pow2(k) else 0)
    decreases k
  {
    if k > 0 {
      MaskByteMore(vout, first + 1, k - 1);
    }
  }

  lemma MaskOr(vout: seq<TxOut>, first: nat, k: nat)
    ensures MaskByte(vout, first, k + 1) ==
            if Available(vout, first + k) then Or(MaskByte(vout, first, k), Pow2(k)) else MaskByte(vout, first, k)
  {
    hide Or, Pow2, MaskByte;
    MaskByteMore(vout, first, k);
    OrDisjoint(MaskByte(vout, first, k), 1, k);
  }

  /** Outputs that are not there leave the byte as it is. */
  lemma {:induction false} MaskByteSkip(vout: seq<TxOut>, first: nat, k: nat, m: nat)
    requires k <= m && forall i: nat :: first + k <= i < first + m ==> !Available(vout, i)
    ensures MaskByte(vout, first, m) == MaskByte(vout, first, k)
  {
    if k < m {
      MaskByteMore(vout, first, m - 1);
      MaskByteSkip(vout, first, k, m - 1);
    }
  }

  lemma MaskByteZero(vout: seq<TxOut>, b: nat)
    ensures MaskByte(vout, 2 + b * 8, 8) < 256
    ensures MaskByte(vout, 2 + b * 8, 8) != 0 <==> ByteUsed(vout, b)
  {
    Pow2Of32();
    var first := 2 + b * 8;
    if ByteUsed(vout, b) {
      var i: nat :| first <= i < first + 8 && Available(vout, i);
      MaskByteMeans(vout, first, 8, i - first);
      DivModIs(0, Pow2(i - first), 0, 0);
    } else {
      MaskByteSkip(vout, first, 0, 8);
    }
  }

  /** The mask bytes from the given one on. */
  function MaskBytes(vout: seq<TxOut>, b: nat, n: nat): (s: Stream)
    requires b <= n
    decreases n - b
  {
    if b == n then []
    else
      MaskByteZero(vout, b);
      [MaskByte(vout, 2 + b * 8, 8)] + MaskBytes(vout, b + 1, n)
  }

  /** What a mask byte says of eight outputs. */
  function MaskFlags(c: Byte): seq<bool> {
    seq(8, p requires 0 <= p < 8 => Bit(c, p))
  }

  /** Reading mask bytes until so many are not zero. */
  function MaskIn(s: Stream, nMaskCode: nat): Read<seq<bool>> {
    if nMaskCode == 0 then Got([], s)
    else if s == [] then EndOfStream
    else Prepend(MaskFlags(s[0]), MaskIn(s[1..], if s[0] != 0 then nMaskCode - 1 else nMaskCode))
  }

  /** Which outputs from the given one on are there. */
  function Flags(vout: seq<TxOut>, first: nat, n: nat): (r: seq<bool>)
    ensures |r| == n && forall i: nat | i < n :: r[i] == Available(vout, first + i)
  {
    seq(n, i requires 0 <= i < n => Available(vout, first + i))
  }

  /** The mask reader stops after the last byte written, having learnt of every output in between. */
  lemma {:induction false} MaskRoundTrip(vout: seq<TxOut>, b: nat, n: nat, rest: Stream)
    requires b <= n && (b < n ==> ByteUsed(vout, n - 1))
    ensures MaskIn(MaskBytes(vout, b, n) + rest, NonzeroBytes(vout, b, n)) ==
            Got(Flags(vout, 2 + b * 8, (n - b) * 8), rest)
    decreases n - b
  {
    hide MaskByte, ByteUsed, Bit, MaskFlags, Available;
    var s := MaskBytes(vout, b, n) + rest;
    if b == n {
      assert s == rest;
    } else {
      NonzeroMore(vout, b, n - 1);
      MaskByteZero(vout, b);
      assert s[0] == MaskByte(vout, 2 + b * 8, 8);
      assert s[1..] == MaskBytes(vout, b + 1, n) + rest;
      MaskRoundTrip(vout, b + 1, n, rest);
      FlagsMore(vout, b, n);
    }
  }

  lemma FlagsMore(vout: seq<TxOut>, b: nat, n: nat)
    requires b < n
    ensures MaskByte(vout, 2 + b * 8, 8) < 256
    ensures MaskFlags(MaskByte(vout, 2 + b * 8, 8)) + Flags(vout, 2 + (b + 1) * 8, (n - b - 1) * 8) ==
            Flags(vout, 2 + b * 8, (n - b) * 8)
  {
    hide MaskByte, Available, Bit;
    MaskByteZero(vout, b);
    var first := 2 + b * 8;
    var flags := MaskFlags(MaskByte(vout, first, 8));
    forall p: nat | p < 8 ensures flags[p] == Available(vout, first + p) {
      MaskByteMeans(vout, first, 8, p);
    }
  }

  // The outputs

  function OutsBytes(vout: seq<TxOut>, i: nat, curve: Curve): Stream
    requires i <= |vout|
    decreases |vout| - i
  {
    if i == |vout| then []
    else (if vout[i].IsNull() then [] else TxOutBytes(vout[i], curve)) + OutsBytes(vout, i + 1, curve)
  }

  /** Reading the outputs that are there into a list of spent ones. */
  function OutsIn(s: Stream, vAvail: seq<bool>, curve: Curve): Read<seq<TxOut>>
    decreases |vAvail|
  {
    if vAvail == [] then Got([], s)
    else
      var first := if vAvail[0] then TxOutIn(s, NULL_OUT, curve) else Got(NULL_OUT, s);
      match first
      case EndOfStream => EndOfStream
      case Got(out, more) => Prepend([out], OutsIn(more, vAvail[1..], curve))
  }

  /** So many outputs from the given one on as they are read back, the spent ones blank. */
  function Kept(vout: seq<TxOut>, i: nat, n: nat): (r: seq<TxOut>)
    ensures |r| == n
    ensures forall j: nat | j < n :: r[j] == if Available(vout, i + j) then Reread(vout[i + j]) else NULL_OUT
  {
    seq(n, j requires 0 <= j < n => if Available(vout, i + j) then Reread(vout[i + j]) else NULL_OUT)
  }

  ghost predicate AllSized(vout: seq<TxOut>) {
    forall i: nat | i < |vout| && !vout[i].IsNull() :: Sized(vout[i])
  }

  /** No unspent output has an amount that is lost. */
  ghost predicate AllEncodable(vout: seq<TxOut>) {
    forall i: nat | i < |vout| && !vout[i].IsNull() :: Encodable(vout[i])
  }

  lemma {:induction false} OutsRoundTrip(vout: seq<TxOut>, i: nat, n: nat, rest: Stream, curve: Curve)
    requires Lawful(curve) && AllSized(vout) && i <= |vout|
    requires forall j: nat | j >= i + n :: !Available(vout, j)
    ensures OutsIn(OutsBytes(vout, i, curve) + rest, Flags(vout, i, n), curve) == Got(Kept(vout, i, n), rest)
    decreases n
  {
    hide TxOutBytes, TxOutIn, Lawful, Sized, Reread;
    if n == 0 {
      forall j | i <= j < |vout| ensures vout[j].IsNull() {
        assert !Available(vout, j);
      }
      NothingThere(vout, i, curve);
      assert OutsBytes(vout, i, curve) + rest == rest;
    } else if i == |vout| {
      BlankRest(vout, i, n, rest, curve);
      assert OutsBytes(vout, i, curve) + rest == rest;
    } else {
      var flags := Flags(vout, i, n);
      assert flags[1..] == Flags(vout, i + 1, n - 1);
      assert Kept(vout, i, n) == [Kept(vout, i, n)[0]] + Kept(vout, i + 1, n - 1);
      OutsRoundTrip(vout, i + 1, n - 1, rest, curve);
      var tail := OutsBytes(vout, i + 1, curve) + rest;
      if vout[i].IsNull() {
        assert OutsBytes(vout, i, curve) + rest == tail;
      } else {
        ReadsBack(vout[i], NULL_OUT, tail, curve);
        assert OutsBytes(vout, i, curve) + rest == TxOutBytes(vout[i], curve) + tail;
      }
    }
  }

  lemma {:induction false} NothingThere(vout: seq<TxOut>, i: nat, curve: Curve)
    requires i <= |vout| && forall j | i <= j < |vout| :: vout[j].IsNull()
    ensures OutsBytes(vout, i, curve) == []
    decreases |vout| - i
  {
    hide TxOutBytes;
    if i < |vout| {
      NothingThere(vout, i + 1, curve);
    }
  }

  lemma {:induction false} BlankRest(vout: seq<TxOut>, i: nat, n: nat, rest: Stream, curve: Curve)
    requires i >= |vout|
    ensures OutsIn(rest, Flags(vout, i, n), curve) == Got(Kept(vout, i, n), rest)
    decreases n
  {
    if n > 0 {
      assert Flags(vout, i, n)[1..] == Flags(vout, i + 1, n - 1);
      assert Kept(vout, i, n) == [NULL_OUT] + Kept(vout, i + 1, n - 1);
      BlankRest(vout, i + 1, n - 1, rest, curve);
    }
  }

  // All of it

  /** The two first outputs are noted with the flags, not in the mask. */
  function HeaderCode(c: Coins, nMaskCode: nat): int {
    var fFirst, fSecond := Available(c.vout, 0), Available(c.vout, 1);
    16 * (nMaskCode - (if fFirst || fSecond then 0 else 1)) + (if c.fCoinBase then 1 else 0) +
    (if c.fCoinStake then 2 else 0) + (if fFirst then 4 else 0) + (if fSecond then 8 else 0)
  }

  /** What is written for coins with a mask of n bytes. */
  ghost function CoinsBytes(c: Coins, n: nat, curve: Curve): Stream
    requires 0 <= c.nVersion && 0 <= c.nHeight && 0 <= HeaderCode(c, NonzeroBytes(c.vout, 0, n))
  {
    VarInt(c.nVersion, false) + (VarInt(HeaderCode(c, NonzeroBytes(c.vout, 0, n)), false) +
    (MaskBytes(c.vout, 0, n) + (OutsBytes(c.vout, 0, curve) + VarInt(c.nHeight, false))))
  }

  function ToSigned32(v: nat): int {
    if v < WORD / 2 then v else v - WORD
  }

  /** Versions and heights are signed: what was read counts up to a multiple of 2^32. */
  lemma SignedMeans(v: nat)
    requires v < 0x1_0000_0000
    ensures -0x8000_0000 <= ToSigned32(v) < 0x8000_0000 && (v - ToSigned32(v)) % 0x1_0000_0000 == 0
  {
  }

  /** What is read as coins. */
  function CoinsIn(s: Stream, curve: Curve): Read<Coins> {
    match VarIntIn(s, 0, WORD)
    case EndOfStream => EndOfStream
    case Got(nVersion, s1) =>
      match VarIntIn(s1, 0, WORD)
      case EndOfStream => EndOfStream
      case Got(nCode, s2) => BodyIn(s2, nVersion, nCode, curve)
  }

  /** The part after the header. */
  function BodyIn(s: Stream, nVersion: nat, nCode: nat, curve: Curve): Read<Coins> {
    var first := [nCode / 4 % 2 == 1, nCode / 8 % 2 == 1];
    match MaskIn(s, nCode / 16 + (if first[0] || first[1] then 0 else 1))
    case EndOfStream => EndOfStream
    case Got(flags, s1) => TailIn(s1, first + flags, nVersion, nCode, curve)
  }

  /** The part after the mask. */
  function TailIn(s: Stream, vAvail: seq<bool>, nVersion: nat, nCode: nat, curve: Curve): Read<Coins> {
    match OutsIn(s, vAvail, curve)
    case EndOfStream => EndOfStream
    case Got(vout, s1) =>
      match VarIntIn(s1, 0, WORD)
      case EndOfStream => EndOfStream
      case Got(nHeight, rest) =>
        Got(Coins(nCode % 2 == 1, nCode / 2 % 2 == 1, Trim(vout), ToSigned32(nHeight), ToSigned32(nVersion)), rest)
  }

  /** Coins that can be written: something is unspent, and every number fits its type. */
  ghost predicate Writable(c: Coins) {
    && !c.IsPruned()
    && 0 <= c.nVersion < WORD / 2 && 0 <= c.nHeight < WORD / 2
    && |c.vout| < WORD / 4
    && AllSized(c.vout)
  }

  /** In numbers: versions and heights of 31 bits, fewer than 2^30 outputs, amounts of 64 bits and scripts of up to
      2^32 - 7 bytes. */
  lemma WhatIsWritable(c: Coins)
    ensures Writable(c) <==>
              && (exists i | 0 <= i < |c.vout| :: c.vout[i].nValue != -1)
              && 0 <= c.nVersion < 0x8000_0000 && 0 <= c.nHeight < 0x8000_0000 && |c.vout| < 0x4000_0000
              && (forall i | 0 <= i < |c.vout| && c.vout[i].nValue != -1 ::
                    && -0x8000_0000_0000_0000 <= c.vout[i].nValue < 0x8000_0000_0000_0000
                    && |c.vout[i].script| <= 0xffff_fff9)
  {
  }

  lemma {:induction false} NonzeroBound(vout: seq<TxOut>, b: nat, n: nat)
    requires b <= n
    ensures NonzeroBytes(vout, b, n) <= n - b
    decreases n - b
  {
    if b < n {
      NonzeroBound(vout, b + 1, n);
    }
  }

  /** Coins that are not pruned have an output in the header or a byte in the mask. */
  lemma HeaderFits(c: Coins, n: nat)
    requires Writable(c) && IsMaskSize(c.vout, n)
    ensures 0 <= HeaderCode(c, NonzeroBytes(c.vout, 0, n)) < WORD
    ensures !Available(c.vout, 0) && !Available(c.vout, 1) ==> NonzeroBytes(c.vout, 0, n) > 0
  {
    NonzeroBound(c.vout, 0, n);
    if n > 0 {
      NonzeroMore(c.vout, 0, n - 1);
      var i: nat :| 2 + (n - 1) * 8 <= i < 10 + (n - 1) * 8 && Available(c.vout, i);
      assert 8 * n < |c.vout| + 8;
    } else {
      var i :| 0 <= i < |c.vout| && !c.vout[i].IsNull();
      assert Available(c.vout, i);
    }
  }

  /** A header code that tells its parts apart. */
  ghost predicate IsHeader(c: Coins, n: nat, nCode: nat) {
    && (nCode % 2 == 1 <==> c.fCoinBase) && (nCode / 2 % 2 == 1 <==> c.fCoinStake)
    && (nCode / 4 % 2 == 1 <==> Available(c.vout, 0)) && (nCode / 8 % 2 == 1 <==> Available(c.vout, 1))
    && nCode / 16 + (if Available(c.vout, 0) || Available(c.vout, 1) then 0 else 1) == NonzeroBytes(c.vout, 0, n)
  }

  lemma HeaderMeans(c: Coins, n: nat, nCode: nat)
    requires nCode == HeaderCode(c, NonzeroBytes(c.vout, 0, n))
    ensures IsHeader(c, n, nCode)
  {
    hide NonzeroBytes, Available;
    var k := NonzeroBytes(c.vout, 0, n) - (if Available(c.vout, 0) || Available(c.vout, 1) then 0 else 1);
    HeaderBits(k, if c.fCoinBase then 1 else 0, if c.fCoinStake then 1 else 0,
               if Available(c.vout, 0) then 1 else 0, if Available(c.vout, 1) then 1 else 0);
  }

  lemma HeaderBits(k: int, b0: int, b1: int, b2: int, b3: int)
    requires 0 <= b0 <= 1 && 0 <= b1 <= 1 && 0 <= b2 <= 1 && 0 <= b3 <= 1
    ensures var x := 16 * k + b0 + 2 * b1 + 4 * b2 + 8 * b3;
            x % 2 == b0 && x / 2 % 2 == b1 && x / 4 % 2 == b2 && x / 8 % 2 == b3 && x / 16 == k
  {
    var x := 16 * k + b0 + 2 * b1 + 4 * b2 + 8 * b3;
    assert x == 2 * (8 * k + 4 * b3 + 2 * b2 + b1) + b0;
    assert x / 2 == 8 * k + 4 * b3 + 2 * b2 + b1;
    assert x / 4 == 4 * k + 2 * b3 + b2;
    assert x / 8 == 2 * k + b3;
  }

  /** Blank outputs at the end are trimmed, however many there are. */
  lemma {:induction false} TrimKept(vout: seq<TxOut>, n: nat, m: nat)
    requires n <= m && forall j: nat | j >= n :: !Available(vout, j)
    ensures Trim(Kept(vout, 0, m)) == Trim(Kept(vout, 0, n))
  {
    hide Available, Reread;
    if n < m {
      TrimKept(vout, n, m - 1);
      assert Kept(vout, 0, m)[m - 1] == NULL_OUT;
      assert Kept(vout, 0, m)[..m - 1] == Kept(vout, 0, m - 1);
    }
  }

  /** Coins as they are read back. */
  function Reloaded(c: Coins): Coins {
    c.(vout := Trim(Kept(c.vout, 0, |c.vout|)))
  }

  /** Nothing but spent outputs at the end is lost exactly when all amounts survive compression. */
  lemma ReloadedIsSame(c: Coins)
    requires AllSized(c.vout) && NullsAreBlank(c)
    ensures Reloaded(c) == c.(vout := Trim(c.vout)) <==> AllEncodable(c.vout)
  {
    hide Sized, Encodable, Reread;
    var kept := Kept(c.vout, 0, |c.vout|);
    forall i: nat | i < |c.vout| && !c.vout[i].IsNull()
      ensures i < |Trim(c.vout)| && c.vout[i] == Trim(c.vout)[i]
      ensures kept[i] == Reread(c.vout[i]) && (Reread(c.vout[i]) == c.vout[i] <==> Encodable(c.vout[i]))
    {
      RereadIsSame(c.vout[i]);
    }
    if Trim(kept) == Trim(c.vout) {
      forall i: nat | i < |c.vout| && !c.vout[i].IsNull() ensures Encodable(c.vout[i]) {
        assert kept[i] == Trim(kept)[i];
      }
    }
    if AllEncodable(c.vout) {
      assert kept == c.vout;
    }
  }

  /**
   * Reading coins back gives the same flags, height and version, stops at exactly the last byte written,
   * and gives the same outputs, with spent ones at the end dropped, exactly when every amount survives.
   */
  lemma CoinsRoundTrip(c: Coins, n: nat, rest: Stream, curve: Curve)
    requires Lawful(curve) && Writable(c) && IsMaskSize(c.vout, n)
    ensures 0 <= HeaderCode(c, NonzeroBytes(c.vout, 0, n))
    ensures var r := CoinsIn(CoinsBytes(c, n, curve) + rest, curve);
      && r == Got(Reloaded(c), rest)
      && (NullsAreBlank(c) ==> (r == Got(c.(vout := Trim(c.vout)), rest) <==> AllEncodable(c.vout)))
  {
    hide NonzeroBytes, HeaderCode, Lawful, BodyIn, MaskBytes;
    hide OutsBytes, Reloaded, AllSized, AllEncodable, NullsAreBlank;
    HeaderFits(c, n);
    var nCode := HeaderCode(c, NonzeroBytes(c.vout, 0, n));
    var body := Body(c, n, rest, curve);
    assert CoinsBytes(c, n, curve) + rest == VarInt(c.nVersion, false) + (VarInt(nCode, false) + body);
    VarIntRoundTrip(c.nVersion, VarInt(nCode, false) + body, WORD);
    VarIntRoundTrip(nCode, body, WORD);
    HeaderMeans(c, n, nCode);
    ReadsBody(c, n, nCode, rest, curve);
    if NullsAreBlank(c) {
      ReloadedIsSame(c);
    }
  }

  /** What is left to read after the header. */
  ghost function Body(c: Coins, n: nat, rest: Stream, curve: Curve): Stream
    requires 0 <= c.nHeight
  {
    MaskBytes(c.vout, 0, n) + (OutsBytes(c.vout, 0, curve) + (VarInt(c.nHeight, false) + rest))
  }

  lemma ReadsBody(c: Coins, n: nat, nCode: nat, rest: Stream, curve: Curve)
    requires Lawful(curve) && Writable(c) && IsMaskSize(c.vout, n)
    requires IsHeader(c, n, nCode)
    ensures BodyIn(Body(c, n, rest, curve), c.nVersion, nCode, curve) == Got(Reloaded(c), rest)
  {
    hide NonzeroBytes, Lawful, MaskBytes, OutsBytes, MaskIn, OutsIn, Available, Trim, Sized, TailIn;
    hide IsMaskSize, AllSized, Reloaded;
    var tail := OutsBytes(c.vout, 0, curve) + (VarInt(c.nHeight, false) + rest);
    MaskEnds(c, n, tail);
    FirstFlags(c.vout, n);
    ReadsTail(c, n, nCode, rest, curve);
  }

  lemma MaskEnds(c: Coins, n: nat, tail: Stream)
    requires IsMaskSize(c.vout, n)
    ensures MaskIn(MaskBytes(c.vout, 0, n) + tail, NonzeroBytes(c.vout, 0, n)) == Got(Flags(c.vout, 2, n * 8), tail)
  {
    MaskRoundTrip(c.vout, 0, n, tail);
  }

  lemma ReadsTail(c: Coins, n: nat, nCode: nat, rest: Stream, curve: Curve)
    requires Lawful(curve) && Writable(c) && IsMaskSize(c.vout, n)
    requires IsHeader(c, n, nCode)
    ensures TailIn(OutsBytes(c.vout, 0, curve) + (VarInt(c.nHeight, false) + rest), Flags(c.vout, 0, 2 + n * 8),
                   c.nVersion, nCode, curve) ==
            Got(Reloaded(c), rest)
  {
    hide NonzeroBytes, Lawful, OutsBytes, OutsIn, Available, Trim, Sized;
    hide AllSized, Kept, Flags, VarInt, VarIntIn, Reloaded;
    assert forall j: nat :: j >= 2 + n * 8 ==> !Available(c.vout, j);
    assert AllSized(c.vout) && 0 <= c.nHeight < WORD / 2 && 0 <= c.nVersion < WORD / 2;
    MaskIsEnough(c, n);
    hide Writable, IsMaskSize;
    OutsRoundTrip(c.vout, 0, 2 + n * 8, VarInt(c.nHeight, false) + rest, curve);
    VarIntRoundTrip(c.nHeight, rest, WORD);
  }

  /** The outputs that the mask speaks of are all that matter. */
  lemma MaskIsEnough(c: Coins, n: nat)
    requires IsMaskSize(c.vout, n)
    ensures Reloaded(c) == c.(vout := Trim(Kept(c.vout, 0, 2 + n * 8)))
  {
    hide Kept, Trim, ByteUsed;
    var m := 2 + n * 8;
    assert forall j: nat | j >= m :: !Available(c.vout, j);
    assert forall j: nat | j >= |c.vout| :: !Available(c.vout, j);
    hide Available, IsMaskSize;
    if |c.vout| <= m {
      TrimKept(c.vout, |c.vout|, m);
    } else {
      TrimKept(c.vout, m, |c.vout|);
    }
  }

  lemma FirstFlags(vout: seq<TxOut>, n: nat)
    ensures [Available(vout, 0), Available(vout, 1)] + Flags(vout, 2, n * 8) == Flags(vout, 0, 2 + n * 8)
  {
  }

  // The loops that write and read

  method Serialize(c: Coins, curve: Curve) returns (out: Stream)
    requires Writable(c)
    ensures exists n :: IsMaskSize(c.vout, n) && 0 <= HeaderCode(c, NonzeroBytes(c.vout, 0, n)) &&
                        out == CoinsBytes(c, n, curve)
  {
    hide MaskBytes, OutsBytes, NonzeroBytes, Sized;
    Pow2Of32();
    var nMaskSize, nMaskCode := CalcMaskSize(c.vout);
    HeaderFits(c, nMaskSize);
    var fFirst, fSecond := |c.vout| > 0 && !c.vout[0].IsNull(), |c.vout| > 1 && !c.vout[1].IsNull();
    assert fFirst || fSecond || nMaskCode > 0;
    var nCode := 16 * (nMaskCode - (if fFirst || fSecond then 0 else 1)) + (if c.fCoinBase then 1 else 0) +
                 (if c.fCoinStake then 2 else 0) + (if fFirst then 4 else 0) + (if fSecond then 8 else 0);
    var version := WriteVarInt(c.nVersion, 32);
    var code := WriteVarInt(nCode, 32);
    var mask := WriteMask(c.vout, nMaskSize);
    var outs := WriteOuts(c.vout, curve);
    var height := WriteVarInt(c.nHeight, 32);
    out := version + (code + (mask + (outs + height)));
    assert out == CoinsBytes(c, nMaskSize, curve);
  }

  method WriteMask(vout: seq<TxOut>, nMaskSize: nat) returns (out: Stream)
    ensures out == MaskBytes(vout, 0, nMaskSize)
  {
    hide Pow2, Or, Available, MaskByte;
    out := [];
    for b := 0 to nMaskSize
      invariant MaskBytes(vout, 0, nMaskSize) == out + MaskBytes(vout, b, nMaskSize)
    {
      var chAvail := WriteMaskByte(vout, b);
      MaskByteZero(vout, b);
      out := out + [chAvail];
    }
  }

  method WriteMaskByte(vout: seq<TxOut>, b: nat) returns (chAvail: nat)
    ensures chAvail == MaskByte(vout, 2 + b * 8, 8)
  {
    hide Pow2, Or, MaskByte, Available;
    var first := 2 + b * 8;
    chAvail := 0;
    NoMaskBits(vout, first);
    var i: nat := 0;
    while i < 8 && first + i < |vout|
      invariant i <= 8 && chAvail == MaskByte(vout, first, i)
    {
      MaskOr(vout, first, i);
      IsAvailable(vout, first + i);
      if !vout[first + i].IsNull() {
        chAvail := Or(chAvail, Pow2(i));
      }
      i := i + 1;
    }
    MaskByteEnds(vout, first, i);
  }

  lemma NoMaskBits(vout: seq<TxOut>, first: nat)
    ensures MaskByte(vout, first, 0) == 0
  {
  }

  lemma IsAvailable(vout: seq<TxOut>, i: nat)
    requires i < |vout|
    ensures Available(vout, i) <==> !vout[i].IsNull()
  {
  }

  lemma MaskByteEnds(vout: seq<TxOut>, first: nat, i: nat)
    requires i == 8 || (i < 8 && first + i >= |vout|)
    ensures MaskByte(vout, first, i) == MaskByte(vout, first, 8)
  {
    MaskByteSkip(vout, first, i, 8);
  }

  method WriteOuts(vout: seq<TxOut>, curve: Curve) returns (out: Stream)
    requires AllSized(vout)
    ensures out == OutsBytes(vout, 0, curve)
  {
    hide TxOutBytes, AllSized, OutsBytes;
    out := [];
    for i := 0 to |vout|
      invariant OutsBytes(vout, 0, curve) == out + OutsBytes(vout, i, curve)
    {
      OutsStep(vout, i, curve);
      if !vout[i].IsNull() {
        var one := WriteTxOut(vout[i], curve);
        assert out + (one + OutsBytes(vout, i + 1, curve)) == out + one + OutsBytes(vout, i + 1, curve);
        out := out + one;
      }
    }
    NothingThere(vout, |vout|, curve);
  }

  lemma OutsStep(vout: seq<TxOut>, i: nat, curve: Curve)
    requires i < |vout| && AllSized(vout)
    ensures OutsBytes(vout, i, curve) ==
            if vout[i].IsNull() then OutsBytes(vout, i + 1, curve)
            else TxOutBytes(vout[i], curve) + OutsBytes(vout, i + 1, curve)
    ensures !vout[i].IsNull() ==> |vout[i].script| + SPECIAL_SCRIPTS < WORD
  {
    hide TxOutBytes;
    assert !vout[i].IsNull() ==> Sized(vout[i]);
  }

  method ReadMask(s: Stream, nCode: nat) returns (r: Read<seq<bool>>)
    ensures r == MaskIn(s, nCode)
  {
    hide Bit;
    var vAvail: seq<bool>, rest, nMaskCode: nat := [], s, nCode;
    while nMaskCode > 0
      invariant MaskIn(s, nCode) == Prepend(vAvail, MaskIn(rest, nMaskCode))
      decreases |rest|
    {
      if rest == [] {
        return EndOfStream;
      }
      var chAvail := rest[0];
      var more: seq<bool> := [];
      for p := 0 to 8
        invariant |more| == p && forall q | 0 <= q < p :: more[q] == Bit(chAvail, q)
      {
        more := more + [Bit(chAvail, p)];
      }
      assert more == MaskFlags(chAvail);
      rest := rest[1..];
      if chAvail != 0 {
        nMaskCode := nMaskCode - 1;
      }
      PrependTwice(vAvail, more, MaskIn(rest, nMaskCode));
      vAvail := vAvail + more;
    }
    return Got(vAvail, rest);
  }

  method ReadOuts(s: Stream, vAvail: seq<bool>, curve: Curve) returns (r: Read<seq<TxOut>>)
    ensures r == OutsIn(s, vAvail, curve)
  {
    hide TxOutIn;
    var vout: seq<TxOut>, rest := [], s;
    assert vAvail[0..] == vAvail;
    for i := 0 to |vAvail|
      invariant OutsIn(s, vAvail, curve) == Prepend(vout, OutsIn(rest, vAvail[i..], curve))
    {
      assert vAvail[i..][1..] == vAvail[i + 1..];
      var out := NULL_OUT;
      if vAvail[i] {
        var one := ReadTxOut(rest, out, curve);
        if one.EndOfStream? {
          return EndOfStream;
        }
        out, rest := one.value, one.rest;
      }
      PrependTwice(vout, [out], OutsIn(rest, vAvail[i + 1..], curve));
      vout := vout + [out];
    }
    return Got(vout, rest);
  }

  method Unserialize(s: Stream, curve: Curve) returns (r: Read<Coins>)
    ensures r == CoinsIn(s, curve)
  {
    hide MaskIn, OutsIn, Trim;
    Pow2Of32();
    var version := ReadVarInt(s, 32);
    if version.EndOfStream? {
      return EndOfStream;
    }
    var code := ReadVarInt(version.rest, 32);
    if code.EndOfStream? {
      return EndOfStream;
    }
    var nCode := code.value;
    var vAvail := [nCode / 4 % 2 == 1, nCode / 8 % 2 == 1];
    var mask := ReadMask(code.rest, nCode / 16 + (if vAvail[0] || vAvail[1] then 0 else 1));
    if mask.EndOfStream? {
      return EndOfStream;
    }
    var outs := ReadOuts(mask.rest, vAvail + mask.value, curve);
    if outs.EndOfStream? {
      return EndOfStream;
    }
    var height := ReadVarInt(outs.rest, 32);
    if height.EndOfStream? {
      return EndOfStream;
    }
    var c := Coins(nCode % 2 == 1, nCode / 2 % 2 == 1, outs.value, ToSigned32(height.value), ToSigned32(version.value));
    c := Cleanup(c);
    return Got(c, height.rest);
  }

  /** Written and read back, with anything behind it: the same coins, without spent outputs at the end,
      exactly when every amount survives compression. */
  method StoreAndLoad(c: Coins, rest: Stream, curve: Curve) returns (r: Read<Coins>)
    requires Lawful(curve) && Writable(c)
    ensures r == Got(Reloaded(c), rest)
    ensures NullsAreBlank(c) ==> (r == Got(c.(vout := Trim(c.vout)), rest) <==> AllEncodable(c.vout))
  {
    hide Reloaded, AllEncodable, NullsAreBlank;
    var out := Serialize(c, curve);
    ghost var n :| IsMaskSize(c.vout, n) && 0 <= HeaderCode(c, NonzeroBytes(c.vout, 0, n)) &&
                   out == CoinsBytes(c, n, curve);
    CoinsRoundTrip(c, n, rest, curve);
    r := Unserialize(out + rest, curve);
  }
}
