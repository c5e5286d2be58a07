/**
 * String literals: how the scanner reads them, and how strings are printed so
 * that the scanner reads them back.
 */
module StringLiterals {
  import opened Util
  import opened Utf8

  const QUOTE: byte := 0x22
  const APOSTROPHE: byte := 0x27
  const BACKSLASH: byte := 0x5c

  // ------------------------------------------------------- what literals mean

  datatype ScannerError =
    | IllegalEscapeSequence
    | IllegalCharacterInString
    | UnicodeCharacterInNonUnicodeString
    | IllegalStringEndQuote

  datatype ScannerKind = Solidity | Yul

  /** The literal and the position after it, or the error and the position where scanning stopped. */
  datatype Outcome = Literal(literal: seq<byte>, position: nat) | Illegal(error: ScannerError, position: nat)

  function HexValue(c: byte): (d: int)
    ensures -1 <= d < 16
  {
    if 0x30 <= c <= 0x39 then c - 0x30
    else if 0x61 <= c <= 0x66 then c - 0x61 + 10
    else if 0x41 <= c <= 0x46 then c - 0x41 + 10
    else -1
  }

  function Power16(n: nat): nat {
    if n == 0 then 1 else 16 * Power16(n - 1)
  }

  /** The value of `count` hex digits at `position`. */
  function HexDigits(source: seq<byte>, position: nat, count: nat): (value: Option<nat>)
    ensures value.Some? ==> value.value < Power16(count) && (count == 0 || position + count <= |source|)
  {
    if count == 0 then Some(0)
    else
      var front := HexDigits(source, position, count - 1);
      var last := position + count - 1;
      if front.None? || last >= |source| || HexValue(source[last]) < 0 then None
      else Some(16 * front.value + HexValue(source[last]))
  }

  /**
   * The bytes an escape sequence stands for and the position after it;
   * `position` is that of the letter after the backslash.
   */
  function Escape(source: seq<byte>, position: nat): Option<(seq<byte>, nat)>
    requires position < |source|
  {
    var c := source[position];
    var next := position + 1;
    if c == 0x0a then Some(([], next))  // escaped line breaks vanish
    else if c == 0x0d then Some(([], if next < |source| && source[next] == 0x0a then next + 1 else next))
    else if c == APOSTROPHE || c == QUOTE || c == BACKSLASH then Some(([c], next))
    else if c == 0x6e then Some(([0x0a], next))  // n
    else if c == 0x72 then Some(([0x0d], next))  // r
    else if c == 0x74 then Some(([0x09], next))  // t
    else if c == 0x75 then  // u
      var codePoint := HexDigits(source, next, 4);
      assert Power16(2) == 0x100 && Power16(4) == 0x10000;
      if codePoint.None? then None else Some((UnicodeAsUTF8(codePoint.value), next + 4))
    else if c == 0x78 then  // x
      var value := HexDigits(source, next, 2);
      assert Power16(2) == 0x100;
      if value.None? then None else Some(([value.value], next + 2))
    else None
  }

  /** `c` is the hex digit with value `d`, in lower or upper case. */
  predicate IsHexDigit(c: byte, d: nat) {
    d < 16 && (c == "0123456789abcdef"[d] as int || c == "0123456789ABCDEF"[d] as int)
  }

  ghost predicate IsNoHexDigit(c: byte) {
    forall d :: !IsHexDigit(c, d)
  }

  lemma HexValueMeans(c: byte, d: nat)
    ensures IsHexDigit(c, d) <==> HexValue(c) == d
  {
    if d < 10 {
      assert "0123456789abcdef"[d] as int == '0' as int + d && "0123456789ABCDEF"[d] as int == '0' as int + d;
    } else if d < 16 {
      assert "0123456789abcdef"[d] as int == 'a' as int + d - 10;
      assert "0123456789ABCDEF"[d] as int == 'A' as int + d - 10;
    }
  }

  lemma HexDigitsStep(source: seq<byte>, position: nat, count: nat, front: nat, last: nat)
    requires HexDigits(source, position, count) == Some(front)
    requires position + count < |source| && IsHexDigit(source[position + count], last)
    ensures HexDigits(source, position, count + 1) == Some(16 * front + last)
  {
    HexValueMeans(source[position + count], last);
  }

  /** Two digits after `x`, of either case, are a byte; four after `u` a code point. */
  lemma HexEscapesMean(source: seq<byte>, position: nat, a: nat, b: nat, c: nat, d: nat)
    requires position + 2 < |source|
    requires IsHexDigit(source[position + 1], a) && IsHexDigit(source[position + 2], b)
    ensures source[position] == 'x' as int ==> Escape(source, position) == Some(([16 * a + b], position + 3))
    ensures source[position] == 'u' as int && position + 4 < |source| &&
            IsHexDigit(source[position + 3], c) && IsHexDigit(source[position + 4], d)
            ==> var codePoint := 0x1000 * a + 0x100 * b + 0x10 * c + d;
                codePoint < 0x1_0000 && Escape(source, position) == Some((UnicodeAsUTF8(codePoint), position + 5))
  {
    hide HexDigits, IsHexDigit, UnicodeAsUTF8;
    var next := position + 1;
    NoHexDigits(source, next);
    HexDigitsStep(source, next, 0, 0, a);
    HexDigitsStep(source, next, 1, a, b);
    if position + 4 < |source| && IsHexDigit(source[position + 3], c) && IsHexDigit(source[position + 4], d) {
      HexDigitsStep(source, next, 2, 16 * a + b, c);
      HexDigitsStep(source, next, 3, 16 * (16 * a + b) + c, d);
    }
  }

  lemma NoHexDigits(source: seq<byte>, position: nat)
    ensures HexDigits(source, position, 0) == Some(0)
  {
  }

  /** Without enough digits these escapes stand for nothing. */
  lemma {:induction false} MissingHexDigit(source: seq<byte>, position: nat, count: nat, i: nat)
    requires i < count
    requires position + i >= |source| || IsNoHexDigit(source[position + i])
    ensures HexDigits(source, position, count).None?
  {
    if i < count - 1 {
      MissingHexDigit(source, position, count - 1, i);
    } else if position + i < |source| && HexValue(source[position + i]) >= 0 {
      HexValueMeans(source[position + i], HexValue(source[position + i]));
    }
  }

  lemma MissingHexDigitEscape(source: seq<byte>, position: nat, i: nat)
    requires position < |source|
    requires (source[position] == 'x' as int && i < 2) || (source[position] == 'u' as int && i < 4)
    requires position + 1 + i >= |source| || IsNoHexDigit(source[position + 1 + i])
    ensures Escape(source, position).None?
  {
    MissingHexDigit(source, position + 1, if source[position] == 'x' as int then 2 else 4, i);
  }

  /** The other escapes, by the characters they are written with. */
  lemma CharacterEscapesMean(source: seq<byte>, position: nat)
    requires position < |source| && source[position] != 'x' as int && source[position] != 'u' as int
    ensures var c := source[position];
            Escape(source, position)
            == if c == 'n' as int then Some((['\n' as int], position + 1))
               else if c == 'r' as int then Some((['\r' as int], position + 1))
               else if c == 't' as int then Some((['\t' as int], position + 1))
               else if c == '\'' as int || c == '\"' as int || c == '\\' as int then Some(([c], position + 1))
               else if c == '\n' as int then Some(([], position + 1))
               else if c != '\r' as int then None
               else if position + 1 < |source| && source[position + 1] == '\n' as int then Some(([], position + 2))
               else Some(([], position + 1))
  {
  }

  predicate IsUnicodeLinebreak(source: seq<byte>, position: nat)
    requires position < |source|
  {
    || 0x0a <= source[position] <= 0x0d
    || (position + 1 < |source| && source[position] == 0xc2 && source[position + 1] == 0x85)
    || (position + 2 < |source| && source[position] == 0xe2 && source[position + 1] == 0x80
        && (source[position + 2] == 0xa8 || source[position + 2] == 0xa9))
  }

  function IllegalCharacter(kind: ScannerKind): ScannerError {
    if kind == Yul then IllegalCharacterInString else UnicodeCharacterInNonUnicodeString
  }

  /** The literal whose remaining characters start at `position`. */
  function Scanned(source: seq<byte>, position: nat, quote: byte, kind: ScannerKind): Outcome
    requires position <= |source|
    decreases |source| - position
  {
    if position == |source| then Illegal(IllegalStringEndQuote, position)
    else if source[position] == quote then Literal([], position + 1)
    else if IsUnicodeLinebreak(source, position) then Illegal(IllegalStringEndQuote, position)
    else if source[position] == BACKSLASH then
      if position + 1 == |source| then Illegal(IllegalEscapeSequence, position + 1)
      else
        var escape := Escape(source, position + 1);
        if escape.None? then Illegal(IllegalEscapeSequence, position + 2)
        else Prefixed(escape.value.0, Scanned(source, escape.value.1, quote, kind))
    else if source[position] <= 0x1f || source[position] >= 0x7f then Illegal(IllegalCharacter(kind), position + 1)
    else Prefixed([source[position]], Scanned(source, position + 1, quote, kind))
  }

  function Prefixed(literal: seq<byte>, rest: Outcome): Outcome {
    if rest.Literal? then rest.(literal := literal + rest.literal) else rest
  }

  // ---------------------------------------------------------------- printing

  predicate IsPrint(c: byte) { 0x20 <= c <= 0x7e }

  function HexDigit(d: int): byte
    requires 0 <= d < 16
  {
    if d < 10 then 0x30 + d else 0x61 + d - 10
  }

  function EscapedCharacter(c: byte): seq<byte> {
    if c == BACKSLASH then [BACKSLASH, BACKSLASH]
    else if c == QUOTE then [BACKSLASH, QUOTE]
    else if c == 0x0a then [BACKSLASH, 0x6e]
    else if c == 0x0d then [BACKSLASH, 0x72]
    else if c == 0x09 then [BACKSLASH, 0x74]
    else if !IsPrint(c) then [BACKSLASH, 0x78, HexDigit(c / 16), HexDigit(c % 16)]
    else [c]
  }

  function Escaped(input: seq<byte>): seq<byte> {
    if input == [] then [] else EscapedCharacter(input[0]) + Escaped(input[1..])
  }

  lemma {:induction false} EscapedSnoc(input: seq<byte>, c: byte)
    ensures Escaped(input + [c]) == Escaped(input) + EscapedCharacter(c)
  {
    hide EscapedCharacter;
    if input == [] {
      assert [c][1..] == [];
    } else {
      assert (input + [c])[1..] == input[1..] + [c];
      EscapedSnoc(input[1..], c);
    }
  }

  /** Printed strings consist of printable characters, whatever the bytes of the string. */
  lemma {:induction false} PrintedIsPrintable(input: seq<byte>, i: nat)
    requires i < |Escaped(input)|
    ensures ' ' as int <= Escaped(input)[i] <= '~' as int
  {
    var first := EscapedCharacter(input[0]);
    if i >= |first| {
      hide EscapedCharacter;
      PrintedIsPrintable(input[1..], i - |first|);
    } else {
      assert Escaped(input)[i] == first[i];
      hide Escaped;
    }
  }

  /** Characters that can stand for themselves do. */
  lemma PlainIsPrintedAsItIs(c: byte)
    ensures ' ' as int <= c <= '~' as int && c != '\"' as int && c != '\\' as int <==> EscapedCharacter(c) == [c]
  {
  }

  method EscapeAndQuoteString(input: seq<byte>) returns (quoted: seq<byte>)
    ensures quoted == [QUOTE] + Escaped(input) + [QUOTE]
  {
    var out := [];
    for i := 0 to |input|
      invariant out == Escaped(input[..i])
    {
      var c := input[i];
      assert input[..i + 1] == input[..i] + [c];
      EscapedSnoc(input[..i], c);
      if c == BACKSLASH {
        out := out + [BACKSLASH, BACKSLASH];
      } else if c == QUOTE {
        out := out + [BACKSLASH, QUOTE];
      } else if c == 0x0a {
        out := out + [BACKSLASH, 0x6e];
      } else if c == 0x0d {
        out := out + [BACKSLASH, 0x72];
      } else if c == 0x09 {
        out := out + [BACKSLASH, 0x74];
      } else if !IsPrint(c) {
        out := out + [BACKSLASH, 0x78, HexDigit(c / 16), HexDigit(c % 16)];
      } else {
        out := out + [c];
      }
    }
    assert input[..|input|] == input;
    quoted := [QUOTE] + out + [QUOTE];
  }

  // -------------------------------------------------------------- round trip

  /** `part` stands in `source` at `position`. */
  predicate IsAt(source: seq<byte>, position: nat, part: seq<byte>) {
    position + |part| <= |source| && source[position..position + |part|] == part
  }

  lemma AtSplit(source: seq<byte>, position: nat, first: seq<byte>, second: seq<byte>)
    requires IsAt(source, position, first + second)
    ensures IsAt(source, position, first) && IsAt(source, position + |first|, second)
  {
    var here := source[position..position + |first + second|];
    assert here[..|first|] == first && here[|first|..] == second;
    assert source[position..position + |first|] == here[..|first|];
    assert source[position + |first|..position + |first| + |second|] == here[|first|..];
  }

  lemma AtIndex(source: seq<byte>, position: nat, part: seq<byte>, i: nat)
    requires IsAt(source, position, part) && i < |part|
    ensures source[position + i] == part[i]
  {
    assert source[position..position + |part|][i] == part[i];
  }

  /** One printed character is read back as that character. */
  lemma CharacterReadBack(source: seq<byte>, position: nat, c: byte, kind: ScannerKind)
    requires IsAt(source, position, EscapedCharacter(c)) && position + |EscapedCharacter(c)| < |source|
    ensures Scanned(source, position, QUOTE, kind)
         == Prefixed([c], Scanned(source, position + |EscapedCharacter(c)|, QUOTE, kind))
  {
    var part := EscapedCharacter(c);
    AtIndex(source, position, part, 0);
    if |part| >= 2 {
      AtIndex(source, position, part, 1);
    }
    if |part| == 4 {
      AtIndex(source, position, part, 2);
      AtIndex(source, position, part, 3);
      var next := position + 2;
      HexReadBack(source, next, c);
    }
  }

  lemma HexReadBack(source: seq<byte>, position: nat, c: byte)
    requires position + 2 <= |source| && source[position] == HexDigit(c / 16)
             && source[position + 1] == HexDigit(c % 16)
    ensures HexDigits(source, position, 2) == Some(c as nat)
  {
    assert HexValue(HexDigit(c / 16)) == c / 16 && HexValue(HexDigit(c % 16)) == c % 16;
    assert HexDigits(source, position, 0) == Some(0);
    assert HexDigits(source, position, 1) == Some(c as nat / 16);
  }

  lemma AtFits(source: seq<byte>, position: nat, part: seq<byte>)
    requires IsAt(source, position, part)
    ensures position + |part| <= |source|
  {
  }

  lemma QuoteEnds(source: seq<byte>, position: nat, kind: ScannerKind)
    requires IsAt(source, position, [QUOTE])
    ensures position < |source| && Scanned(source, position, QUOTE, kind) == Literal([], position + 1)
  {
    AtIndex(source, position, [QUOTE], 0);
  }

  lemma {:induction false} EscapedReadBack(source: seq<byte>, position: nat, input: seq<byte>, kind: ScannerKind)
    requires IsAt(source, position, Escaped(input) + [QUOTE])
    ensures position <= |source|
            && Scanned(source, position, QUOTE, kind) == Literal(input, position + |Escaped(input)| + 1)
    decreases |input|
  {
    hide EscapedCharacter, Escape, IsAt, Scanned;
    AtSplit(source, position, Escaped(input), [QUOTE]);
    if input == [] {
      QuoteEnds(source, position, kind);
    } else {
      var first, rest := EscapedCharacter(input[0]), Escaped(input[1..]);
      assert Escaped(input) + [QUOTE] == first + (rest + [QUOTE]);
      AtSplit(source, position, first, rest + [QUOTE]);
      EscapedReadBack(source, position + |first|, input[1..], kind);
      AtFits(source, position + |first|, rest + [QUOTE]);
      CharacterReadBack(source, position, input[0], kind);
      assert input == [input[0]] + input[1..];
    }
  }

  /** Printing and scanning undo each other, wherever the printed string stands. */
  lemma PrintedStringReadBack(before: seq<byte>, input: seq<byte>, after: seq<byte>, kind: ScannerKind)
    ensures var quoted := [QUOTE] + Escaped(input) + [QUOTE];
            Scanned(before + quoted + after, |before| + 1, QUOTE, kind) == Literal(input, |before| + |quoted|)
  {
    hide Scanned;
    var quoted := [QUOTE] + Escaped(input) + [QUOTE];
    var source := before + quoted + after;
    assert source[|before| + 1..|before| + |quoted|] == Escaped(input) + [QUOTE];
    EscapedReadBack(source, |before| + 1, input, kind);
  }

  // --------------------------------------------------------------- the scanner

  class CharStream {
    const source: seq<byte>
    var position: nat

    constructor (source: seq<byte>)
      ensures this.source == source && position == 0
    {
      this.source := source;
      position := 0;
    }

    predicate IsPastEndOfInput(charsForward: nat)
      reads this
    {
      position + charsForward >= |source|
    }

    /** The current character; strings end in a zero byte. */
    function Get(): byte
      reads this
      requires position <= |source|
    {
      if position < |source| then source[position] else 0
    }

    method AdvanceAndGet(chars: nat) returns (c: byte)
      requires position + chars <= |source| || position == |source|
      modifies this
      ensures position == if old(position) >= |source| then old(position) else old(position) + chars
      ensures c == if position < |source| then source[position] else 0
    {
      if IsPastEndOfInput(0) {
        return 0;
      }
      position := position + chars;
      if IsPastEndOfInput(0) {
        return 0;
      }
      return source[position];
    }

    method Rollback(amount: nat) returns (c: byte)
      requires amount <= position <= |source|
      modifies this
      ensures position == old(position) - amount && c == Get()
    {
      position := position - amount;
      c := Get();
    }

    method SetPosition(location: nat) returns (c: byte)
      requires location <= |source|
      modifies this
      ensures position == location && c == Get()
    {
      position := location;
      c := Get();
    }
  }

  class Scanner {
    const stream: CharStream
    const kind: ScannerKind
    var current: byte  // the character under the cursor
    var literal: seq<byte>

    constructor (stream: CharStream, kind: ScannerKind)
      requires stream.position <= |stream.source|
      ensures this.stream == stream && this.kind == kind && literal == [] && Valid()
    {
      this.stream, this.kind := stream, kind;
      literal := [];
      current := stream.Get();
    }

    ghost predicate Valid()
      reads this, stream
    {
      stream.position <= |stream.source| && current == stream.Get()
    }

    method Advance() returns (more: bool)
      requires Valid()
      modifies this, stream
      ensures Valid() && literal == old(literal)
      ensures stream.position
           == if old(stream.position) < |stream.source| then old(stream.position) + 1 else old(stream.position)
      ensures more <==> stream.position < |stream.source|
    {
      current := stream.AdvanceAndGet(1);
      more := !stream.IsPastEndOfInput(0);
    }

    /** Some number of hex digits, or nothing and no movement. */
    method ScanHexDigits(count: nat) returns (value: Option<nat>)
      requires Valid()
      modifies this, stream
      ensures Valid() && literal == old(literal)
      ensures value == HexDigits(stream.source, old(stream.position), count)
      ensures stream.position == old(stream.position) + if value.Some? then count else 0
    {
      var x := 0;
      for i := 0 to count
        invariant Valid() && literal == old(literal) && stream.position == old(stream.position) + i
        invariant HexDigits(stream.source, old(stream.position), i) == Some(x)
      {
        var d := HexValue(current);
        if d < 0 {
          HexDigitsStop(stream.source, old(stream.position), i + 1, count);
          current := stream.Rollback(i);
          return None;
        }
        x := 16 * x + d;
        var _ := Advance();
      }
      return Some(x);
    }

    method TryScanEndOfLine() returns (scanned: bool)
      requires Valid() && stream.position < |stream.source|
      modifies this, stream
      ensures Valid() && literal == old(literal)
      ensures scanned <==> old(current) == 0x0a || old(current) == 0x0d
      ensures if scanned then Some(([], stream.position)) == Escape(stream.source, old(stream.position))
              else stream.position == old(stream.position)
    {
      if current == 0x0a {
        var _ := Advance();
        return true;
      }
      if current == 0x0d {
        var more := Advance();
        if more && current == 0x0a {
          var _ := Advance();
        }
        return true;
      }
      return false;
    }

    method ScanEscape() returns (ok: bool)
      requires Valid() && stream.position < |stream.source|
      modifies this, stream
      ensures Valid() && old(stream.position) < stream.position
      ensures var escape := Escape(stream.source, old(stream.position));
              && (ok <==> escape.Some?)
              && (if ok then literal == old(literal) + escape.value.0 && stream.position == escape.value.1
                  else stream.position == old(stream.position) + 1)
    {
      hide HexDigits;
      var c := current;
      var endOfLine := TryScanEndOfLine();
      if endOfLine {
        return true;
      }
      var _ := Advance();
      if c == APOSTROPHE || c == QUOTE || c == BACKSLASH {
      } else if c == 0x6e {
        c := 0x0a;
      } else if c == 0x72 {
        c := 0x0d;
      } else if c == 0x74 {
        c := 0x09;
      } else if c == 0x75 {
        var codePoint := ScanHexDigits(4);
        if codePoint.None? {
          return false;
        }
        assert Power16(2) == 0x100 && Power16(4) == 0x10000;
        literal := literal + UnicodeAsUTF8(codePoint.value);
        return true;
      } else if c == 0x78 {
        var value := ScanHexDigits(2);
        if value.None? {
          return false;
        }
        assert Power16(2) == 0x100;
        c := value.value;
      } else {
        return false;
      }
      literal := literal + [c];
      return true;
    }

    /** What scanning from `position` has left to do. */
    ghost predicate Scanning(start: nat, quote: byte)
      reads this, stream
    {
      && Valid() && start <= |stream.source|
      && Scanned(stream.source, start, quote, kind)
         == Prefixed(literal, Scanned(stream.source, stream.position, quote, kind))
    }

    /** An ordinary string literal; the quote is under the cursor. */
    method ScanString() returns (error: Option<ScannerError>)
      requires Valid() && stream.position < |stream.source| && current != 0
      modifies this, stream
      ensures Valid()
      ensures match Scanned(stream.source, old(stream.position) + 1, old(current), kind)
              case Literal(bytes, position) => error == None && literal == bytes && stream.position == position
              case Illegal(e, position) => error == Some(e) && literal == [] && stream.position == position
    {
      hide Escape, IsUnicodeLinebreak, Scanned, Prefixed;
      var quote := current;
      var _ := Advance();
      literal := [];
      ghost var start := stream.position;
      PrefixedByNothing(Scanned(stream.source, start, quote, kind));
      while current != quote && !stream.IsPastEndOfInput(0) && !LinebreakHere()
        invariant Scanning(start, quote)
        decreases |stream.source| - stream.position
      {
        var c := current;
        ghost var here, before := stream.position, literal;
        ScannedStep(stream.source, here, quote, kind, before);
        var _ := Advance();
        if c == BACKSLASH {
          var escaped := false;
          if !stream.IsPastEndOfInput(0) {
            escaped := ScanEscape();
          }
          if !escaped {
            literal := [];
            return Some(IllegalEscapeSequence);
          }
        } else {
          if c <= 0x1f || c >= 0x7f {
            literal := [];
            return Some(IllegalCharacter(kind));
          }
          literal := literal + [c];
        }
      }
      ScannedStep(stream.source, stream.position, quote, kind, literal);
      if current != quote {
        literal := [];
        return Some(IllegalStringEndQuote);
      }
      var _ := Advance();
      return None;
    }

    predicate LinebreakHere()
      reads this, stream
    {
      stream.position < |stream.source| && IsUnicodeLinebreak(stream.source, stream.position)
    }
  }

  /** Printing a string into a text and scanning it where it stands gives it back. */
  method PrintAndScan(before: seq<byte>, input: seq<byte>, after: seq<byte>, kind: ScannerKind)
      returns (quoted: seq<byte>, error: Option<ScannerError>, literal: seq<byte>, position: nat)
    ensures error == None && literal == input
    ensures position == |before| + |quoted|
  {
    hide Scanned, Escaped;
    quoted := EscapeAndQuoteString(input);
    PrintedStringReadBack(before, input, after, kind);
    var stream := new CharStream(before + quoted + after);
    var _ := stream.SetPosition(|before|);
    var scanner := new Scanner(stream, kind);
    error := scanner.ScanString();
    literal, position := scanner.literal, stream.position;
  }

  lemma PrefixedByNothing(rest: Outcome)
    ensures Prefixed([], rest) == rest
  {
  }

  /** One step of the scanner, after `before` has been read. */
  lemma ScannedStep(source: seq<byte>, position: nat, quote: byte, kind: ScannerKind, before: seq<byte>)
    requires position <= |source|
    ensures var whole := Prefixed(before, Scanned(source, position, quote, kind));
            if position == |source| then whole == Illegal(IllegalStringEndQuote, position)
            else if source[position] == quote then whole == Literal(before, position + 1)
            else if IsUnicodeLinebreak(source, position) then whole == Illegal(IllegalStringEndQuote, position)
            else if source[position] == BACKSLASH then
              if position + 1 == |source| then whole == Illegal(IllegalEscapeSequence, position + 1)
              else
                var escape := Escape(source, position + 1);
                if escape.None? then whole == Illegal(IllegalEscapeSequence, position + 2)
                else
                  && escape.value.1 <= |source|
                  && whole == Prefixed(before + escape.value.0, Scanned(source, escape.value.1, quote, kind))
            else if source[position] <= 0x1f || source[position] >= 0x7f then
              whole == Illegal(IllegalCharacter(kind), position + 1)
            else whole == Prefixed(before + [source[position]], Scanned(source, position + 1, quote, kind))
  {
    hide IsUnicodeLinebreak;
    forall a, b, r: Outcome ensures Prefixed(a, Prefixed(b, r)) == Prefixed(a + b, r) {
      assert r.Literal? ==> a + (b + r.literal) == a + b + r.literal;
    }
  }

  /** Without one more digit there is no longer number. */
  lemma {:induction false} HexDigitsStop(source: seq<byte>, position: nat, i: nat, count: nat)
    requires i <= count && HexDigits(source, position, i) == None
    ensures HexDigits(source, position, count) == None
    decreases count - i
  {
    if i < count {
      HexDigitsStop(source, position, i + 1, count);
    }
  }
}
