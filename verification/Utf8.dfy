/** Validation of UTF-8 byte sequences, and the encoder of the string scanner. */
module Utf8 {
  import opened Util

  /** Section 3.9 of the Unicode Standard, Table 3-7: well-formed byte sequences. */
  predicate InTable(s: seq<byte>) {
    match |s|
    case 1 => s[0] <= 0x7f
    case 2 => 0xc2 <= s[0] <= 0xdf && IsTail(s[1])
    case 3 =>
      && IsTail(s[2])
      && (|| (s[0] == 0xe0 && 0xa0 <= s[1] <= 0xbf)
          || (0xe1 <= s[0] <= 0xec && IsTail(s[1]))
          || (s[0] == 0xed && 0x80 <= s[1] <= 0x9f)
          || (0xee <= s[0] <= 0xef && IsTail(s[1])))
    case 4 =>
      && IsTail(s[2]) && IsTail(s[3])
      && (|| (s[0] == 0xf0 && 0x90 <= s[1] <= 0xbf)
          || (0xf1 <= s[0] <= 0xf3 && IsTail(s[1]))
          || (s[0] == 0xf4 && 0x80 <= s[1] <= 0x8f))
    case _ => false
  }

  predicate IsTail(b: byte) { 0x80 <= b <= 0xbf }

  /** Definition D76: code points except surrogates. */
  predicate IsScalarValue(c: int) {
    0 <= c <= 0xd7ff || 0xe000 <= c <= 0x10ffff
  }

  /** Table 3-6: the bytes of a code point. */
  function Encode(c: int): seq<byte>
    requires 0 <= c <= 0x10ffff
  {
    if c <= 0x7f then [c]
    else if c <= 0x7ff then [0xc0 + c / 0x40, 0x80 + c % 0x40]
    else if c <= 0xffff then [0xe0 + c / 0x1000, 0x80 + c / 0x40 % 0x40, 0x80 + c % 0x40]
    else [0xf0 + c / 0x40000, 0x80 + c / 0x1000 % 0x40, 0x80 + c / 0x40 % 0x40, 0x80 + c % 0x40]
  }

  /** The code point of a sequence in the table. */
  function Decode(s: seq<byte>): int
    requires InTable(s)
  {
    var lead: int := s[0];
    match |s|
    case 1 => lead
    case 2 => (lead - 0xc0) * 0x40 + Low6(s[1])
    case 3 => (lead - 0xe0) * 0x1000 + Low6(s[1]) * 0x40 + Low6(s[2])
    case 4 => (lead - 0xf0) * 0x40000 + Low6(s[1]) * 0x1000 + Low6(s[2]) * 0x40 + Low6(s[3])
  }

  function Low6(b: byte): int { b - 0x80 }

  /** The table holds exactly the encodings of scalar values. */
  lemma TableIsEncodings(s: seq<byte>)
    ensures InTable(s) <==> exists c :: IsScalarValue(c) && Encode(c) == s
  {
    hide Encode;
    if InTable(s) {
      EncodeDecode(s);
      assert IsScalarValue(Decode(s)) && Encode(Decode(s)) == s;
    }
    forall c | IsScalarValue(c) && Encode(c) == s ensures InTable(s) {
      EncodingInTable(c);
    }
  }

  lemma EncodeDecode(s: seq<byte>)
    requires InTable(s)
    ensures IsScalarValue(Decode(s)) && Encode(Decode(s)) == s
  {
    var c := Decode(s);
    match |s|
    case 1 =>
    case 2 =>
      var low: int := Low6(s[1]);
      assert c / 0x40 == s[0] - 0xc0 && c % 0x40 == low;
    case 3 =>
      var mid := (s[0] as int - 0xe0) * 0x40 + Low6(s[1]);
      assert c == mid * 0x40 + Low6(s[2]);
      assert c / 0x40 == mid && c % 0x40 == Low6(s[2]);
      assert mid / 0x40 == s[0] - 0xe0 && mid % 0x40 == Low6(s[1]);
      assert c / 0x1000 == mid / 0x40;
    case 4 =>
      var high := (s[0] as int - 0xf0) * 0x40 + Low6(s[1]);
      var mid := high * 0x40 + Low6(s[2]);
      assert c == mid * 0x40 + Low6(s[3]);
      assert c / 0x40 == mid && c % 0x40 == Low6(s[3]);
      assert mid / 0x40 == high && mid % 0x40 == Low6(s[2]);
      assert high / 0x40 == s[0] - 0xf0 && high % 0x40 == Low6(s[1]);
      assert c / 0x1000 == mid / 0x40 && c / 0x40000 == high / 0x40;
  }

  /** Of all code points, exactly the scalar values have an encoding in the table. */
  lemma EncodingInTable(c: int)
    requires 0 <= c <= 0x10ffff
    ensures InTable(Encode(c)) <==> IsScalarValue(c)
    ensures IsScalarValue(c) ==> Decode(Encode(c)) == c
  {
    if c > 0x7ff {
      assert c / 0x1000 == c / 0x40 / 0x40;
    }
    if c > 0xffff {
      assert c / 0x40000 == c / 0x1000 / 0x40;
    }
  }

  // ---------------------------------------------------------- whole strings

  ghost predicate AllInTable(parts: seq<seq<byte>>) {
    forall i :: 0 <= i < |parts| ==> InTable(parts[i])
  }

  /** A string is well formed if it is a concatenation of sequences from the table. */
  ghost predicate IsConcatenation(s: seq<byte>) {
    exists parts: seq<seq<byte>> :: AllInTable(parts) && Flatten(parts) == s
  }

  ghost predicate EncodesScalarValues(s: seq<byte>) {
    exists codePoints :: AllScalar(codePoints) && EncodeAll(codePoints) == s
  }

  ghost predicate AllScalar(codePoints: seq<int>) {
    forall i :: 0 <= i < |codePoints| ==> IsScalarValue(codePoints[i])
  }

  function EncodeAll(codePoints: seq<int>): seq<byte>
    requires AllScalar(codePoints)
  {
    if codePoints == [] then [] else Encode(codePoints[0]) + EncodeAll(codePoints[1..])
  }

  /** The length of a sequence that starts with `b`; 0 if none does by Table 3-6. */
  function Length(b: byte): (n: nat)
    ensures n <= 4
  {
    if b < 0x80 then 1
    else if 0xc0 <= b <= 0xdf then 2
    else if 0xe0 <= b <= 0xef then 3
    else if 0xf0 <= b <= 0xf7 then 4
    else 0
  }

  /** The same, from left to right: the lead byte tells how far the next sequence goes. */
  predicate WellFormed(s: seq<byte>)
    decreases |s|
  {
    s == [] || (StartsWell(s) && WellFormed(s[Length(s[0])..]))
  }

  predicate StartsWell(s: seq<byte>)
    requires s != []
  {
    var n := Length(s[0]);
    0 < n <= |s| && InTable(s[..n])
  }

  lemma {:induction false} WellFormedParts(s: seq<byte>) returns (parts: seq<seq<byte>>)
    requires WellFormed(s)
    ensures AllInTable(parts) && Flatten(parts) == s
    decreases |s|
  {
    if s == [] {
      parts := [];
    } else {
      var n := Length(s[0]);
      hide InTable;
      var rest := WellFormedParts(s[n..]);
      parts := [s[..n]] + rest;
      assert parts[1..] == rest;
      assert s == s[..n] + s[n..];
    }
  }

  lemma FirstPart(part: seq<byte>, rest: seq<byte>)
    requires InTable(part)
    ensures StartsWell(part + rest) && Length((part + rest)[0]) == |part| && (part + rest)[|part|..] == rest
  {
    assert (part + rest)[0] == part[0] && (part + rest)[..|part|] == part;
  }

  lemma {:induction false} PartsWellFormed(parts: seq<seq<byte>>)
    requires AllInTable(parts)
    ensures WellFormed(Flatten(parts))
  {
    if parts != [] {
      PartsWellFormed(parts[1..]);
      assert InTable(parts[0]);
      hide InTable, StartsWell;
      FirstPart(parts[0], Flatten(parts[1..]));
    }
  }

  lemma WellFormedMeaning(s: seq<byte>)
    ensures WellFormed(s) <==> IsConcatenation(s)
  {
    hide WellFormed, AllInTable, Flatten;
    if WellFormed(s) {
      var parts := WellFormedParts(s);
    }
    if IsConcatenation(s) {
      var parts: seq<seq<byte>> :| AllInTable(parts) && Flatten(parts) == s;
      PartsWellFormed(parts);
    }
  }

  lemma {:induction false} PartsEncode(parts: seq<seq<byte>>) returns (codePoints: seq<int>)
    requires AllInTable(parts)
    ensures AllScalar(codePoints) && EncodeAll(codePoints) == Flatten(parts)
  {
    if parts == [] {
      codePoints := [];
    } else {
      var rest := PartsEncode(parts[1..]);
      EncodeDecode(parts[0]);
      hide Decode, Encode, InTable, IsScalarValue;
      codePoints := [Decode(parts[0])] + rest;
      assert codePoints[1..] == rest;
    }
  }

  lemma {:induction false} EncodingHasParts(codePoints: seq<int>) returns (parts: seq<seq<byte>>)
    requires AllScalar(codePoints)
    ensures AllInTable(parts) && Flatten(parts) == EncodeAll(codePoints)
  {
    if codePoints == [] {
      parts := [];
    } else {
      var rest := EncodingHasParts(codePoints[1..]);
      EncodingInTable(codePoints[0]);
      hide Encode, InTable;
      parts := [Encode(codePoints[0])] + rest;
      assert parts[1..] == rest;
    }
  }

  /** Well-formed strings are exactly the encodings of sequences of scalar values. */
  lemma WellFormedEncodes(s: seq<byte>)
    ensures WellFormed(s) <==> EncodesScalarValues(s)
  {
    hide WellFormed, AllInTable, Flatten, AllScalar, EncodeAll;
    if WellFormed(s) {
      var parts := WellFormedParts(s);
      var codePoints := PartsEncode(parts);
    }
    if EncodesScalarValues(s) {
      var codePoints :| AllScalar(codePoints) && EncodeAll(codePoints) == s;
      var parts := EncodingHasParts(codePoints);
      PartsWellFormed(parts);
    }
  }

  // ------------------------------------------------------------ the validator

  /** The second byte, checked against the first. */
  predicate IsWellFormed(byte1: byte, byte2: byte) {
    if byte1 == 0xc0 || byte1 == 0xc1 then false
    else if 0xc2 <= byte1 <= 0xdf then true
    else if byte1 == 0xe0 then !(byte2 < 0xa0)
    else if 0xe1 <= byte1 <= 0xec then true
    else if byte1 == 0xed then !(byte2 > 0x9f)
    else if byte1 == 0xee || byte1 == 0xef then true
    else if byte1 == 0xf0 then !(byte2 < 0x90)
    else if 0xf1 <= byte1 <= 0xf3 then true
    else if byte1 == 0xf4 then !(byte2 > 0x8f)
    else false
  }

  /** What the checks of the inner loop amount to. */
  ghost predicate TailsChecked(input: seq<byte>, start: nat, checked: nat)
    requires start + checked < |input|
  {
    && (forall k :: start < k <= start + checked ==> IsTail(input[k]))
    && (checked >= 1 ==> IsWellFormed(input[start], input[start + 1]))
  }

  lemma ChecksMatchTable(input: seq<byte>, start: nat)
    requires start < |input| && Length(input[start]) >= 2 && start + Length(input[start]) <= |input|
    ensures TailsChecked(input, start, Length(input[start]) - 1) <==>
              InTable(input[start..start + Length(input[start])])
  {
    var n := Length(input[start]);
    var s := input[start..start + n];
    assert s[0] == input[start] && s[1] == input[start + 1];
    if n >= 3 {
      assert s[2] == input[start + 2];
    }
    if n >= 4 {
      assert s[3] == input[start + 3];
    }
  }

  /** Whether the sequence at `start` is in the table decides about what is left. */
  lemma Advance(input: seq<byte>, start: nat)
    requires start < |input|
    ensures var n := Length(input[start]);
            WellFormed(input[start..]) <==>
              0 < n <= |input| - start && InTable(input[start..start + n]) && WellFormed(input[start + n..])
  {
    hide InTable;
    var n, rest := Length(input[start]), input[start..];
    assert rest[0] == input[start];
    if 0 < n <= |rest| {
      assert rest[..n] == input[start..start + n] && rest[n..] == input[start + n..];
    }
  }

  method ValidateUTF8(input: seq<byte>) returns (result: bool)
    ensures result <==> IsConcatenation(input)
    ensures result <==> EncodesScalarValues(input)
  {
    WellFormedMeaning(input);
    WellFormedEncodes(input);
    hide InTable, WellFormed, IsConcatenation, EncodesScalarValues;
    var valid := true;
    var i := 0;
    assert input[0..] == input;
    while i < |input|
      invariant 0 <= i
      invariant valid ==> i <= |input| && (WellFormed(input) <==> WellFormed(input[i..]))
      invariant !valid ==> !WellFormed(input)
      decreases |input| - i
    {
      if valid {
        Advance(input, i);
      }
      if input[i] < 0x80 {
        LowByte(input, i);
        i := i + 1;
        continue;
      }
      var count := 0;
      if 0xc0 <= input[i] <= 0xdf {
        count := 1;
      } else if 0xe0 <= input[i] <= 0xef {
        count := 2;
      } else if 0xf0 <= input[i] <= 0xf7 {
        count := 3;
      }
      if count == 0 {
        valid := false;
        break;
      }
      if i + count >= |input| {
        valid := false;
        break;
      }
      var start, wasValid := i, valid;
      ChecksMatchTable(input, start);
      var j := 0;
      while j < count
        invariant 0 <= j <= count && i == start + j
        invariant valid == wasValid && TailsChecked(input, start, j)
      {
        i := i + 1;
        if input[i] / 0x40 != 2 {  // (byte & 0xc0) != 0x80
          valid := false;
          break;
        }
        if j == 0 && !IsWellFormed(input[i - 1], input[i]) {
          valid := false;
          break;
        }
        j := j + 1;
      }
      i := i + 1;
    }
    if valid {
      EndReached(input, i);
    }
    result := valid;
  }

  lemma LowByte(input: seq<byte>, i: nat)
    requires i < |input| && input[i] < 0x80
    ensures InTable(input[i..i + 1])
  {
  }

  lemma EndReached(input: seq<byte>, i: nat)
    requires i == |input|
    ensures WellFormed(input[i..])
  {
  }

  // -------------------------------------------------- the scanner's encoder

  /** The bytes of a code point up to 0xFFFF, surrogates included. */
  function UnicodeAsUTF8(codePoint: nat): seq<byte>
    requires codePoint <= 0xffff
  {
    if codePoint <= 0x7f then [codePoint]
    else if codePoint <= 0x7ff then [0xc0 + codePoint / 0x40, 0x80 + codePoint % 0x40]
    else [0xe0 + codePoint / 0x1000, 0x80 + codePoint / 0x40 % 0x40, 0x80 + codePoint % 0x40]
  }

  lemma ConcatenationOfOne(s: seq<byte>)
    requires s != [] && Length(s[0]) == |s|
    ensures IsConcatenation(s) <==> InTable(s)
  {
    WellFormedMeaning(s);
    hide IsConcatenation, InTable;
    assert s[..|s|] == s && s[|s|..] == [];
  }

  /** A `\u` escape is valid UTF-8 unless it names a surrogate, and then decodes to what it named. */
  lemma UnicodeEscapesAreValid(codePoint: nat)
    requires codePoint <= 0xffff
    ensures IsConcatenation(UnicodeAsUTF8(codePoint)) <==> !(0xd800 <= codePoint <= 0xdfff)
    ensures !(0xd800 <= codePoint <= 0xdfff) ==>
              InTable(UnicodeAsUTF8(codePoint)) && Decode(UnicodeAsUTF8(codePoint)) == codePoint
  {
    assert UnicodeAsUTF8(codePoint) == Encode(codePoint);
    EncodingInTable(codePoint);
    ConcatenationOfOne(UnicodeAsUTF8(codePoint));
  }
}
