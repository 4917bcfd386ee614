/** What hex colour strings mean digit by digit, how channels round, and which error a bad string gives. */
module HexColorLaws {
  import opened Common
  import opened Utf
  import opened Color
  import opened HexColor

  // ---------------------------------------------------------------- letter case

  /** A to F as a to f, by code point. */
  function Lower(c: char): char {
    if 'A' <= c <= 'F' then (c as int + 32) as char else c
  }

  function Lowered(s: string): (r: string)
    ensures |r| == |s| && forall i :: 0 <= i < |r| ==> r[i] == Lower(s[i])
  {
    seq(|s|, i requires 0 <= i < |s| => Lower(s[i]))
  }

  lemma LowerMeansSame(c: char)
    requires IsHexDigit(c)
    ensures DigitValue(Lower(c)) == DigitValue(c)
  {
  }

  /** Lowering the letters of any hex digits changes nothing. */
  lemma LowerCaseMeansSame(hex: string)
    requires AllHex(hex)
    ensures Parse("#" + Lowered(hex)) == Parse("#" + hex)
  {
    var lowered := Lowered(hex);
    forall i | 0 <= i < |hex|
      ensures HexAt(lowered, i) && DigitValue(lowered[i]) == DigitValue(hex[i])
    {
      assert HexAt(hex, i);
      LowerMeansSame(hex[i]);
    }
    CaseDoesNotMatter(hex, lowered);
  }

  /** The position of a digit in the alphabet written out, upper case. */
  function UpperDigit(d: nat): char
    requires d < 16
  {
    "0123456789ABCDEF"[d]
  }

  function UpperHex(b: nat): string
    requires b < 256
  {
    [UpperDigit(b / 16), UpperDigit(b % 16)]
  }

  lemma UpperDigitLowers(d: nat)
    requires d < 16
    ensures Lower(UpperDigit(d)) == HexDigit(d) && IsHexDigit(UpperDigit(d))
  {
    HexDigitValue(d);
    if d >= 10 {
      assert UpperDigit(d) as int == 'A' as int + d - 10;
      assert HexDigit(d) as int == 'a' as int + d - 10;
    } else {
      assert UpperDigit(d) as int == '0' as int + d == HexDigit(d) as int;
    }
  }

  /** Four bytes written in upper-case digits parse to those bytes. */
  lemma UpperCaseParses(r: nat, g: nat, b: nat, a: nat, hex: string)
    requires r < 256 && g < 256 && b < 256 && a < 256
    requires hex == UpperHex(r) + UpperHex(g) + UpperHex(b) + UpperHex(a)
    ensures Parse("#" + hex) == Ok(FromBytes(r, g, b, a))
  {
    var printed := Hex2(r) + Hex2(g) + Hex2(b) + Hex2(a);
    UpperIsPrinted(r, g, b, a, hex, printed);
    LowerCaseMeansSame(hex);
    PrintedParses(r, g, b, a, printed);
  }

  lemma PrintedParses(r: nat, g: nat, b: nat, a: nat, printed: string)
    requires r < 256 && g < 256 && b < 256 && a < 256
    requires printed == Hex2(r) + Hex2(g) + Hex2(b) + Hex2(a)
    ensures Parse("#" + printed) == Ok(FromBytes(r, g, b, a))
  {
    PrintedHex(printed, r, g, b, a);
    ParsesByLength("#" + printed, printed);
    LongHex(printed);
  }

  lemma UpperIsPrinted(r: nat, g: nat, b: nat, a: nat, hex: string, printed: string)
    requires r < 256 && g < 256 && b < 256 && a < 256
    requires hex == UpperHex(r) + UpperHex(g) + UpperHex(b) + UpperHex(a)
    requires printed == Hex2(r) + Hex2(g) + Hex2(b) + Hex2(a)
    ensures AllHex(hex) && Lowered(hex) == printed
  {
    UpperPair(hex, 0, r);
    UpperPair(hex, 2, g);
    UpperPair(hex, 4, b);
    UpperPair(hex, 6, a);
  }

  lemma UpperPair(hex: string, lo: nat, b: nat)
    requires b < 256 && lo + 2 <= |hex| && hex[lo] == UpperHex(b)[0] && hex[lo + 1] == UpperHex(b)[1]
    ensures HexAt(hex, lo) && HexAt(hex, lo + 1)
    ensures Lower(hex[lo]) == Hex2(b)[0] && Lower(hex[lo + 1]) == Hex2(b)[1]
  {
    UpperDigitLowers(b / 16);
    UpperDigitLowers(b % 16);
  }

  // ---------------------------------------------------------------- rounding

  /** A channel is printed as the nearest byte, a tie as the larger; what lies outside prints as the nearer end. */
  lemma ToByteIsNearest(x: real)
    ensures var b := ToByte(x);
      && (b > 0 ==> b as real - 0.5 <= x * 255.0)
      && (b < 255 ==> x * 255.0 < b as real + 0.5)
  {
  }

  // ---------------------------------------------------------------- errors

  /** `#` and text of one of the four lengths in bytes, between any whitespace. */
  predicate HasFormat(value: string) {
    var text := Trim(value);
    && text != "" && text[0] == '#'
    && (ByteLen(text[1..]) == 3 || ByteLen(text[1..]) == 4 || ByteLen(text[1..]) == 6 || ByteLen(text[1..]) == 8)
  }

  /** A string is reported as badly formed exactly when its length or its beginning is wrong. */
  lemma BadFormatExactly(value: string)
    ensures Parse(value) == Err(BadFormat) <==> !HasFormat(value)
  {
    SplitAtHead(Trim(value), '#');
  }

  /** ASCII text of a right length that is no colour is reported as having bad digits. */
  lemma BadDigitsOfAscii(value: string)
    requires HasFormat(value) && AllAscii(Trim(value)) && !Accepted(value)
    ensures Parse(value) == Err(BadDigits)
  {
    var hex := Trim(value)[1..];
    AcceptedStrings(value);
    BadFormatExactly(value);
    SplitAtHead(Trim(value), '#');
    AsciiSlice(Trim(value), 1, |Trim(value)|);
    assert Trim(value)[1..|Trim(value)|] == hex;
    AsciiByteLen(hex);
    ParseErrorIsDigits(hex);
  }

  lemma ParseErrorIsDigits(hex: string)
    requires AllAscii(hex) && |hex| == ByteLen(hex) && ParseHex(hex).Err?
    requires |hex| == 3 || |hex| == 4 || |hex| == 6 || |hex| == 8
    ensures ParseHex(hex) == Err(BadDigits)
  {
    forall lo: nat, hi: nat | lo <= hi <= |hex|
      ensures Component(hex, lo, hi).Ok? || Component(hex, lo, hi) == Err(BadDigits)
    {
      AsciiComponent(hex, lo, hi);
    }
  }

  /** A component is reported as bad Unicode exactly when one of its ends falls inside a character. */
  lemma BadUnicodeOfComponent(hex: string, lo: nat, hi: nat)
    requires lo <= hi
    ensures Component(hex, lo, hi) == Err(BadUnicode) <==> !IsBoundary(Utf8, hex, lo) || !IsBoundary(Utf8, hex, hi)
  {
    if IsBoundary(Utf8, hex, lo) && IsBoundary(Utf8, hex, hi) {
      var i, j := CharIndex(hex, lo).value, CharIndex(hex, hi).value;
      if j < i {
        OffsetIncreases(Utf8, hex, j, i);
      }
    }
  }

  /** The first error among the components in order, if there is one. */
  function FirstError(parts: seq<Result<nat>>): Option<ParseError> {
    if parts == [] then None
    else
      match FirstError(parts[..|parts| - 1])
      case Some(e) => Some(e)
      case None => if parts[|parts| - 1].Err? then Some(parts[|parts| - 1].error) else None
  }

  lemma ErrorsAppend(parts: seq<Result<nat>>, part: Result<nat>)
    ensures FirstError(parts + [part])
            == if FirstError(parts).Some? then FirstError(parts) else if part.Err? then Some(part.error) else None
  {
    assert (parts + [part])[..|parts|] == parts;
  }

  lemma ErrorsInOrder(r: Result<nat>, g: Result<nat>, b: Result<nat>, a: Result<nat>)
    ensures FirstError([r, g, b, a])
            == if r.Err? then Some(r.error) else if g.Err? then Some(g.error)
               else if b.Err? then Some(b.error) else if a.Err? then Some(a.error) else None
  {
    assert [r, g, b, a] == [] + [r] + [g] + [b] + [a];
    ErrorsAppend([], r);
    ErrorsAppend([] + [r], g);
    ErrorsAppend([] + [r] + [g], b);
    ErrorsAppend([] + [r] + [g] + [b], a);
  }

  /** The components of a colour as the parser cuts them: one byte wide in the short forms, two in the long ones. */
  function Parts(hex: string): seq<Result<nat>> {
    var w := if ByteLen(hex) <= 4 then 1 else 2;
    var alpha := if ByteLen(hex) == 4 * w then Component(hex, 3 * w, 4 * w) else Ok(0);
    [Component(hex, 0, w), Component(hex, w, 2 * w), Component(hex, 2 * w, 3 * w), alpha]
  }

  /** What a text of a right length is rejected for is what its first bad component is rejected for. */
  lemma FirstBadComponentDecides(value: string)
    requires HasFormat(value)
    ensures FirstError(Parts(Trim(value)[1..]))
            == if Parse(value).Err? then Some(Parse(value).error) else None
  {
    var hex := Trim(value)[1..];
    SplitAtHead(Trim(value), '#');
    SplitRest(Trim(value), '#');
    if ByteLen(hex) <= 4 {
      ShortErrors(hex, Component(hex, 0, 1), Component(hex, 1, 2), Component(hex, 2, 3),
                  if ByteLen(hex) == 4 then Component(hex, 3, 4) else Ok(0));
    } else {
      LongErrors(hex, Component(hex, 0, 2), Component(hex, 2, 4), Component(hex, 4, 6),
                 if ByteLen(hex) == 8 then Component(hex, 6, 8) else Ok(0));
    }
  }

  lemma SplitRest(s: string, c: char)
    requires s != [] && s[0] == c
    ensures SplitOnce(s, c) == Some(("", s[1..]))
  {
  }

  lemma ShortErrors(hex: string, r: Result<nat>, g: Result<nat>, b: Result<nat>, a: Result<nat>)
    requires r == Component(hex, 0, 1) && g == Component(hex, 1, 2) && b == Component(hex, 2, 3)
    requires a == if ByteLen(hex) == 4 then Component(hex, 3, 4) else Ok(0)
    ensures FirstError([r, g, b, a]) == if ParseShort(hex).Err? then Some(ParseShort(hex).error) else None
  {
    ErrorsInOrder(r, g, b, a);
  }

  lemma LongErrors(hex: string, r: Result<nat>, g: Result<nat>, b: Result<nat>, a: Result<nat>)
    requires r == Component(hex, 0, 2) && g == Component(hex, 2, 4) && b == Component(hex, 4, 6)
    requires a == if ByteLen(hex) == 8 then Component(hex, 6, 8) else Ok(0)
    ensures FirstError([r, g, b, a]) == if ParseLong(hex).Err? then Some(ParseLong(hex).error) else None
  {
    ErrorsInOrder(r, g, b, a);
  }
}
