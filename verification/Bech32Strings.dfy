/** Encoding and decoding whole Bech32 strings: BIP 173, section "Bech32". */
module Bech32Strings {
  import opened Bech32

  const MAX_LENGTH := 90

  function Letters(v: Data): (t: Text)
    ensures |t| == |v| && forall i | 0 <= i < |v| :: t[i] == Letter(v[i])
  {
    seq(|v|, i requires 0 <= i < |v| => Letter(v[i]))
  }

  function Encoded(hrp: Text, values: Data): Text {
    hrp + [SEPARATOR] + Letters(values + Checksum(hrp, values))
  }

  method Encode(hrp: Text, values: Data) returns (ret: Text)
    requires AllFive(values)
    ensures ret == Encoded(hrp, values)
  {
    hide Letter, Checksum;
    var checksum := CreateChecksum(hrp, values);
    var combined := values + checksum;
    ret := hrp + [SEPARATOR];
    for i := 0 to |combined|
      invariant ret == hrp + [SEPARATOR] + Letters(combined)[..i]
    {
      ret := ret + [Letter(combined[i])];
    }
    assert Letters(combined)[..|combined|] == Letters(combined);
  }

  // Decoding

  predicate AllPrintable(s: Text) {
    forall i | 0 <= i < |s| :: IsPrintable(s[i])
  }

  predicate HasLower(s: Text) {
    exists i | 0 <= i < |s| :: IsLower(s[i])
  }

  predicate HasUpper(s: Text) {
    exists i | 0 <= i < |s| :: IsUpper(s[i])
  }

  /** The position of the last separator, or -1. */
  function LastSeparator(s: Text): (p: int)
    ensures -1 <= p < |s|
    ensures p >= 0 ==> s[p] == SEPARATOR
    ensures forall i | p < i < |s| :: s[i] != SEPARATOR
  {
    if s == [] then -1
    else if s[|s| - 1] == SEPARATOR then |s| - 1
    else LastSeparator(s[..|s| - 1])
  }

  function LowerCase(c: bv8): bv8 {
    if IsUpper(c) then (c - 65) + 97 else c
  }

  function Lowered(s: Text): (r: Text)
    ensures |r| == |s| && forall i | 0 <= i < |s| :: r[i] == LowerCase(s[i])
  {
    seq(|s|, i requires 0 <= i < |s| => LowerCase(s[i]))
  }

  function Values(s: Text): (r: Data)
    ensures |r| == |s| && forall i | 0 <= i < |s| :: r[i] == ValueOf(s[i])
  {
    seq(|s|, i requires 0 <= i < |s| => ValueOf(s[i]))
  }

  const FAILED: (Text, Data) := ([], [])

  /** What a string decodes to; an empty human-readable part means failure. */
  function Decoded(s: Text): (Text, Data) {
    var pos := LastSeparator(s);
    if !AllPrintable(s) || (HasLower(s) && HasUpper(s)) || |s| > MAX_LENGTH || pos < 1 || pos + 7 > |s| then FAILED
    else
      var values := Values(s[pos + 1..]);
      var hrp := Lowered(s[..pos]);
      if NO_VALUE in values || !Verifies(hrp, values) then FAILED
      else (hrp, values[..|values| - 6])
  }

  /** A string of the format, in numbers: no more than 90 printable characters, not of both cases, and behind the
      last digit one, which is not the first character, at least six letters, which verify. */
  predicate IsBech32(s: Text, p: nat) {
    && |s| <= 90 && (forall i | 0 <= i < |s| :: 33 <= s[i] <= 126)
    && !((exists i | 0 <= i < |s| :: 65 <= s[i] <= 90) && exists i | 0 <= i < |s| :: 97 <= s[i] <= 122)
    && 1 <= p && p + 7 <= |s| && s[p] == 49 && (forall i | p < i < |s| :: s[i] != 49 && ValueOf(s[i]) != 255)
    && Verifies(Lowered(s[..p]), Values(s[p + 1..]))
  }

  /** What decodes is of the format, and nothing else. */
  lemma DecodesExactly(s: Text)
    ensures Decoded(s) != FAILED <==> exists p: nat :: IsBech32(s, p)
    ensures forall p: nat | IsBech32(s, p) ::
              Decoded(s) == (Lowered(s[..p]), Values(s[p + 1..])[..|s| - p - 7])
  {
    hide ValueOf, Verifies;
    var pos := LastSeparator(s);
    if Decoded(s) != FAILED {
      forall i | pos < i < |s| ensures ValueOf(s[i]) != 255 {
        assert Values(s[pos + 1..])[i - pos - 1] == ValueOf(s[i]);
      }
      assert IsBech32(s, pos);
    }
    forall p: nat | IsBech32(s, p)
      ensures Decoded(s) == (Lowered(s[..p]), Values(s[p + 1..])[..|s| - p - 7]) && Decoded(s) != FAILED
    {
      assert p == pos;
    }
  }

  method FindLast(s: Text) returns (pos: int)
    ensures pos == LastSeparator(s)
  {
    pos := |s| - 1;
    assert s[..|s|] == s;
    while pos >= 0 && s[pos] != SEPARATOR
      invariant -1 <= pos < |s| && LastSeparator(s) == LastSeparator(s[..pos + 1])
    {
      assert s[..pos + 1][..pos] == s[..pos];
      pos := pos - 1;
    }
  }

  method CheckCharacters(s: Text) returns (ok: bool)
    ensures ok <==> AllPrintable(s) && !(HasLower(s) && HasUpper(s))
  {
    hide IsPrintable, IsLower, IsUpper;
    var lower, upper := false, false;
    for i := 0 to |s|
      invariant forall j | 0 <= j < i :: IsPrintable(s[j])
      invariant lower <==> exists j | 0 <= j < i :: IsLower(s[j])
      invariant upper <==> exists j | 0 <= j < i :: IsUpper(s[j])
    {
      if !IsPrintable(s[i]) {
        return false;
      }
      if IsLower(s[i]) {
        lower := true;
      }
      if IsUpper(s[i]) {
        upper := true;
      }
    }
    return !(lower && upper);
  }

  method Decode(s: Text) returns (hrp: Text, data: Data)
    ensures (hrp, data) == Decoded(s)
  {
    hide IsPrintable, IsLower, IsUpper, ValueOf, Verifies, LowerCase, LastSeparator;
    var ok := CheckCharacters(s);
    if !ok {
      return [], [];
    }
    var pos := FindLast(s);
    if |s| > MAX_LENGTH || pos == -1 || pos == 0 || pos + 7 > |s| {
      return [], [];
    }
    var values := new bv8[|s| - 1 - pos](_ => 0);
    for i := 0 to |s| - 1 - pos
      invariant forall j | 0 <= j < i :: values[j] == ValueOf(s[j + pos + 1]) != NO_VALUE
    {
      var c := s[i + pos + 1];
      assert IsPrintable(c);
      var rev := ValueOf(c);
      if rev == NO_VALUE {
        assert Values(s[pos + 1..])[i] == NO_VALUE;
        return [], [];
      }
      values[i] := rev;
    }
    assert values[..] == Values(s[pos + 1..]);
    var part: Text := [];
    for i := 0 to pos
      invariant part == Lowered(s[..pos])[..i]
    {
      part := part + [LowerCase(s[i])];
    }
    assert Lowered(s[..pos])[..pos] == Lowered(s[..pos]);
    var verified := VerifyChecksum(part, values[..]);
    if !verified {
      return [], [];
    }
    return part, values[..values.Length - 6];
  }

  // Round trip

  predicate AllPlain(s: Text) {
    forall i | 0 <= i < |s| :: IsPlain(s[i])
  }

  /** What fits into a Bech32 string. */
  predicate Sendable(hrp: Text, values: Data) {
    hrp != [] && AllPlain(hrp) && |hrp| + 1 + |values| + 6 <= MAX_LENGTH
  }

  lemma {:induction false} SeparatorPlace(hrp: Text, t: Text)
    requires forall i | 0 <= i < |t| :: t[i] != SEPARATOR
    ensures LastSeparator(hrp + [SEPARATOR] + t) == |hrp|
  {
    var s := hrp + [SEPARATOR] + t;
    if t != [] {
      var u := t[..|t| - 1];
      assert s[..|s| - 1] == hrp + [SEPARATOR] + u;
      SeparatorPlace(hrp, u);
    }
  }

  lemma LettersBack(v: Data)
    requires AllFive(v)
    ensures Values(Letters(v)) == v && NO_VALUE !in v && AllPlain(Letters(v))
    ensures forall i | 0 <= i < |v| :: Letters(v)[i] != SEPARATOR
  {
    hide Letter, ValueOf, IsPlain;
    forall i | 0 <= i < |v|
      ensures Values(Letters(v))[i] == v[i] && IsPlain(Letters(v)[i]) && v[i] != NO_VALUE
      ensures Letters(v)[i] != SEPARATOR
    {
      LetterValue(v[i]);
    }
  }

  lemma LoweredPlain(s: Text)
    ensures AllPrintable(s) ==> (Lowered(s) == s <==> AllPlain(s))
  {
    if AllPrintable(s) && !AllPlain(s) {
      var i :| 0 <= i < |s| && !IsPlain(s[i]);
      assert Lowered(s)[i] != s[i];
    }
  }

  lemma PlainText(hrp: Text, t: Text)
    ensures AllPlain(hrp) && AllPlain(t) ==>
              var s := hrp + [SEPARATOR] + t; AllPrintable(s) && !HasUpper(s)
    ensures AllPrintable(hrp + [SEPARATOR] + t) ==> AllPrintable(hrp)
  {
    var s := hrp + [SEPARATOR] + t;
    if AllPlain(hrp) && AllPlain(t) {
      forall i | 0 <= i < |s| ensures IsPrintable(s[i]) && !IsUpper(s[i]) {
        if i < |hrp| {
          assert IsPlain(hrp[i]);
        } else if i > |hrp| {
          assert IsPlain(t[i - |hrp| - 1]);
        }
      }
    }
    if AllPrintable(s) {
      forall i | 0 <= i < |hrp| ensures IsPrintable(hrp[i]) {
        assert IsPrintable(s[i]);
      }
    }
  }

  /**
   * Decoding an encoded pair gives the pair back exactly when it fits: a non-empty human-readable
   * part, printable and not upper case, and at most 90 characters in all. (The empty pair is also what
   * stands for failure.)
   */
  lemma RoundTrip(hrp: Text, values: Data)
    requires AllFive(values)
    ensures Decoded(Encoded(hrp, values)) == (hrp, values) <==> Sendable(hrp, values) || (hrp, values) == FAILED
  {
    hide IsPlain, IsPrintable, IsUpper, IsLower, Letter, ValueOf, Verifies, Checksum, LowerCase, LastSeparator;
    hide AllPlain, AllPrintable, HasUpper, HasLower;
    var v := values + Checksum(hrp, values);
    var t := Letters(v);
    var s := Encoded(hrp, values);
    LettersBack(v);
    SeparatorPlace(hrp, t);
    LoweredPlain(hrp);
    PlainText(hrp, t);
    ChecksumVerifies(hrp, values);
    assert s[..|hrp|] == hrp && s[|hrp| + 1..] == t;
    assert v[..|v| - 6] == values;
  }

  /** An upper-case prefix is encoded as it is, and does not come back. */
  method UpperCaseIsLost() returns (text: Text, hrp: Text, values: Data)
    ensures text == Encoded([65], []) && (hrp, values) != ([65], [])
  {
    text := Encode([65], []);
    hrp, values := Decode(text);
    RoundTrip([65], []);
  }

  lemma SameValue0(c: bv8)
    requires 65 <= c < 72
    ensures ValueOf(c + 32) == ValueOf(c)
  {
  }

  lemma SameValue1(c: bv8)
    requires 72 <= c < 79
    ensures ValueOf(c + 32) == ValueOf(c)
  {
  }

  lemma SameValue2(c: bv8)
    requires 79 <= c < 85
    ensures ValueOf(c + 32) == ValueOf(c)
  {
  }

  lemma SameValue3(c: bv8)
    requires 85 <= c < 91
    ensures ValueOf(c + 32) == ValueOf(c)
  {
  }

  /** A letter has the same value in either case. */
  lemma CaseIsIgnored(c: bv8)
    ensures ValueOf(LowerCase(c)) == ValueOf(c)
    ensures LowerCase(LowerCase(c)) == LowerCase(c) && (IsPrintable(c) <==> IsPrintable(LowerCase(c)))
    ensures !IsUpper(LowerCase(c)) && (LowerCase(c) == SEPARATOR <==> c == SEPARATOR)
  {
    hide ValueOf;
    if 65 <= c < 72 {
      SameValue0(c);
    } else if 72 <= c < 79 {
      SameValue1(c);
    } else if 79 <= c < 85 {
      SameValue2(c);
    } else if 85 <= c < 91 {
      SameValue3(c);
    }
    assert IsUpper(c) ==> LowerCase(c) == c + 32;
  }

  lemma {:induction false} SameLastSeparator(s: Text)
    ensures LastSeparator(Lowered(s)) == LastSeparator(s)
  {
    hide LowerCase;
    if s != [] {
      CaseIsIgnored(s[|s| - 1]);
      assert Lowered(s)[..|s| - 1] == Lowered(s[..|s| - 1]);
      SameLastSeparator(s[..|s| - 1]);
    }
  }

  /** A string without lower case decodes to what it does in lower case. */
  lemma UpperCaseDecodes(s: Text)
    requires !HasLower(s)
    ensures Decoded(s) == Decoded(Lowered(s))
  {
    hide LowerCase, ValueOf, IsPrintable, IsUpper, IsLower, LastSeparator, Verifies;
    var t, p := Lowered(s), LastSeparator(s);
    SameLastSeparator(s);
    forall i | 0 <= i < |s|
      ensures ValueOf(t[i]) == ValueOf(s[i]) && LowerCase(t[i]) == LowerCase(s[i])
      ensures !IsUpper(t[i]) && (IsPrintable(s[i]) <==> IsPrintable(t[i]))
    {
      CaseIsIgnored(s[i]);
    }
    assert AllPrintable(s) == AllPrintable(t) by {
      if AllPrintable(t) {
        forall i | 0 <= i < |s| ensures IsPrintable(s[i]) {
          assert IsPrintable(t[i]);
        }
      }
    }
    assert !HasUpper(t);
    if p >= 0 {
      assert Values(t[p + 1..]) == Values(s[p + 1..]);
      assert Lowered(t[..p]) == Lowered(s[..p]);
    }
  }

  /** A12UEL5L, which the standard lists as valid. */
  const EXAMPLE: Text := [65, 49, 50, 85, 69, 76, 53, 76]

  lemma ExampleVerifies()
    ensures Poly(1, [3, 0, 1, 10, 28, 25, 31, 20, 31]) == 1
  {
  }

  lemma ExampleValues()
    ensures Values([50, 85, 69, 76, 53, 76]) == [10, 28, 25, 31, 20, 31]
    ensures Expanded(Lowered([65])) == [3, 0, 1]
  {
  }

  /** It decodes to the prefix a and no values. */
  lemma DecodesExample()
    ensures Decoded(EXAMPLE) == ([97], [])
  {
    hide Poly, ValueOf, Expanded;
    ExampleVerifies();
    ExampleValues();
    var values := [10, 28, 25, 31, 20, 31];
    assert LastSeparator(EXAMPLE) == 1 by {
      ExampleSeparator(LastSeparator(EXAMPLE));
    }
    assert EXAMPLE[2..] == [50, 85, 69, 76, 53, 76] && EXAMPLE[..1] == [65];
    assert [3, 0, 1] + values == [3, 0, 1, 10, 28, 25, 31, 20, 31];
    assert Lowered([65]) == [97] && Verifies(Lowered([65]), values);
    assert AllPrintable(EXAMPLE) && !HasLower(EXAMPLE) && |EXAMPLE| == 8;
    assert NO_VALUE !in values && values[..0] == [];
  }

  lemma ExampleSeparator(p: int)
    requires p == LastSeparator(EXAMPLE)
    ensures p == 1
  {
    assert EXAMPLE[1] == SEPARATOR;
  }
}
