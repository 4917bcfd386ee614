/** Printing a colour as `#rrggbbaa` and parsing the hex forms, as `color.rs` does. */
module HexColor {
  import opened Common
  import opened Utf
  import opened Color

  datatype ParseError = BadFormat | BadUnicode | BadDigits

  datatype Result<+T> = Ok(value: T) | Err(error: ParseError) {
    predicate IsFailure() {
      Err?
    }

    function PropagateFailure<U>(): Result<U>
      requires Err?
    {
      Err(error)
    }

    function Extract(): T
      requires Ok?
    {
      value
    }
  }

  // ---------------------------------------------------------------- strings as the source sees them

  predicate IsAscii(c: char) {
    c as int < 0x80
  }

  /** `str::len` */
  function ByteLen(s: string): nat {
    Size(Utf8, s)
  }

  /** The character index at a byte offset, when the offset is a character boundary. */
  function CharIndex(s: string, offset: nat): (r: Option<nat>)
    ensures r.Some? ==> r.value <= |s| && Offset(Utf8, s, r.value) == offset
    ensures r.Some? <==> IsBoundary(Utf8, s, offset)
  {
    var k := Index(Utf8, s, offset);
    if Offset(Utf8, s, k) == offset then Some(k)
    else
      NotBoundary(s, offset);
      None
  }

  lemma NotBoundary(s: string, offset: nat)
    requires Offset(Utf8, s, Index(Utf8, s, offset)) != offset
    ensures !IsBoundary(Utf8, s, offset)
  {
    if IsBoundary(Utf8, s, offset) {
      BoundaryIndex(Utf8, s, offset);
    }
  }

  /** `str::get(lo..hi)` */
  function Get(s: string, lo: nat, hi: nat): Option<string> {
    match (CharIndex(s, lo), CharIndex(s, hi))
    case (Some(i), Some(j)) => if i <= j then Some(s[i..j]) else None
    case _ => None
  }

  /** The Unicode `White_Space` property, which `str::trim` removes. */
  predicate IsWhitespace(c: char) {
    var u := c as int;
    || 0x09 <= u <= 0x0D || u == 0x20 || u == 0x85 || u == 0xA0 || u == 0x1680
    || 0x2000 <= u <= 0x200A || u == 0x2028 || u == 0x2029 || u == 0x202F || u == 0x205F || u == 0x3000
  }

  function TrimStart(s: string): string {
    if s != [] && IsWhitespace(s[0]) then TrimStart(s[1..]) else s
  }

  function TrimEnd(s: string): string {
    if s != [] && IsWhitespace(s[|s| - 1]) then TrimEnd(s[..|s| - 1]) else s
  }

  function Trim(s: string): string {
    TrimEnd(TrimStart(s))
  }

  /** `split_once(c)` */
  function SplitOnce(s: string, c: char): Option<(string, string)> {
    if s == [] then None
    else if s[0] == c then Some(([], s[1..]))
    else
      match SplitOnce(s[1..], c)
      case None => None
      case Some((before, after)) => Some(([s[0]] + before, after))
  }

  // ---------------------------------------------------------------- digits

  function DigitValue(c: char): Option<nat> {
    if '0' <= c <= '9' then Some(c as int - '0' as int)
    else if 'a' <= c <= 'f' then Some(c as int - 'a' as int + 10)
    else if 'A' <= c <= 'F' then Some(c as int - 'A' as int + 10)
    else None
  }

  predicate IsHexDigit(c: char) {
    DigitValue(c).Some?
  }

  function Digits(s: string): Option<nat> {
    if s == [] then Some(0)
    else
      match (Digits(s[..|s| - 1]), DigitValue(s[|s| - 1]))
      case (Some(high), Some(low)) => Some(16 * high + low)
      case _ => None
  }

  /** `u8::from_str_radix(s, 16)`: an optional plus sign, then digits, no overflow. */
  function FromStrRadix(s: string): Option<nat> {
    if |s| == 0 || (|s| == 1 && (s[0] == '+' || s[0] == '-')) then None
    else
      match Digits(if s[0] == '+' then s[1..] else s)
      case None => None
      case Some(v) => if v < 256 then Some(v) else None
  }

  function HexDigit(d: nat): char
    requires d < 16
  {
    "0123456789abcdef"[d]
  }

  /** `{:02x}` */
  function Hex2(b: nat): string
    requires b < 256
  {
    [HexDigit(b / 16), HexDigit(b % 16)]
  }

  // ---------------------------------------------------------------- printing and parsing

  /** `f32::round`: halves go away from zero. */
  function Round(x: real): int {
    if x >= 0.0 then (x + 0.5).Floor else -((-x + 0.5).Floor)
  }

  /** `(x * 255.0).round() as u8`, a saturating cast. */
  function ToByte(x: real): (b: nat)
    ensures b < 256
  {
    var r := Round(x * 255.0);
    if r < 0 then 0 else if r > 255 then 255 else r
  }

  function FromByte(b: nat): real {
    b as real / 255.0
  }

  function FromBytes(r: nat, g: nat, b: nat, a: nat): Rgba {
    Rgba(FromByte(r), FromByte(g), FromByte(b), FromByte(a))
  }

  function Serialize(color: Rgba): string {
    "#" + Hex2(ToByte(color.r)) + Hex2(ToByte(color.g)) + Hex2(ToByte(color.b)) + Hex2(ToByte(color.a))
  }

  /** `(value << 4) | value`, on a byte whose high half is empty. */
  function Duplicate(value: nat): nat {
    16 * value + value
  }

  function Component(hex: string, lo: nat, hi: nat): Result<nat> {
    match Get(hex, lo, hi)
    case None => Err(BadUnicode)
    case Some(part) =>
      match FromStrRadix(part)
      case None => Err(BadDigits)
      case Some(v) => Ok(v)
  }

  function ParseShort(hex: string): Result<Rgba> {
    var r :- Component(hex, 0, 1);
    var g :- Component(hex, 1, 2);
    var b :- Component(hex, 2, 3);
    var a :- if ByteLen(hex) == 4 then Component(hex, 3, 4) else Ok(0xf);
    Ok(FromBytes(Duplicate(r), Duplicate(g), Duplicate(b), Duplicate(a)))
  }

  function ParseLong(hex: string): Result<Rgba> {
    var r :- Component(hex, 0, 2);
    var g :- Component(hex, 2, 4);
    var b :- Component(hex, 4, 6);
    var a :- if ByteLen(hex) == 8 then Component(hex, 6, 8) else Ok(0xff);
    Ok(FromBytes(r, g, b, a))
  }

  function ParseHex(hex: string): Result<Rgba> {
    var n := ByteLen(hex);
    if n == 3 || n == 4 then ParseShort(hex)
    else if n == 6 || n == 8 then ParseLong(hex)
    else Err(BadFormat)
  }

  /** `TryFrom<&str> for Rgba` */
  function Parse(value: string): Result<Rgba> {
    match SplitOnce(Trim(value), '#')
    case None => Err(BadFormat)
    case Some((before, hex)) => if before == "" then ParseHex(hex) else Err(BadFormat)
  }

  // ---------------------------------------------------------------- slicing ASCII text

  predicate AsciiAt(s: string, i: nat)
    requires i < |s|
  {
    IsAscii(s[i])
  }

  predicate AllAscii(s: string) {
    forall i :: 0 <= i < |s| ==> AsciiAt(s, i)
  }

  lemma AsciiSlice(s: string, lo: nat, hi: nat)
    requires lo <= hi <= |s| && AllAscii(s)
    ensures AllAscii(s[lo..hi])
  {
    forall i | 0 <= i < hi - lo
      ensures AsciiAt(s[lo..hi], i)
    {
      assert AsciiAt(s, lo + i);
    }
  }

  lemma AsciiConcat(s: string, t: string)
    requires AllAscii(s) && AllAscii(t)
    ensures AllAscii(s + t)
  {
    forall i | 0 <= i < |s + t|
      ensures AsciiAt(s + t, i)
    {
      if i < |s| {
        assert AsciiAt(s, i);
      } else {
        assert AsciiAt(t, i - |s|);
      }
    }
  }

  lemma {:induction false} AsciiByteLen(s: string)
    ensures ByteLen(s) == |s| <==> AllAscii(s)
  {
    if s != [] {
      var n := |s| - 1;
      AsciiByteLen(s[..n]);
      if AllAscii(s) {
        AsciiSlice(s, 0, n);
        assert AsciiAt(s, n);
      }
      if IsAscii(s[n]) && AllAscii(s[..n]) {
        AsciiConcat(s[..n], s[n..]);
        assert s == s[..n] + s[n..];
      }
    }
  }

  lemma AsciiCharIndex(s: string, offset: nat)
    requires AllAscii(s) && offset <= |s|
    ensures CharIndex(s, offset) == Some(offset)
  {
    AsciiSlice(s, 0, offset);
    AsciiPrefixIndex(s, offset);
  }

  lemma AsciiGet(s: string, lo: nat, hi: nat)
    requires AllAscii(s) && lo <= hi <= |s|
    ensures Get(s, lo, hi) == Some(s[lo..hi])
  {
    AsciiCharIndex(s, lo);
    AsciiCharIndex(s, hi);
  }

  lemma {:induction false} DigitsAreHex(s: string)
    ensures Digits(s).Some? <==> forall i :: 0 <= i < |s| ==> IsHexDigit(s[i])
  {
    if s != [] {
      DigitsAreHex(s[..|s| - 1]);
    }
  }

  /** What a two-character component may be: two digits, or a plus sign and one digit. */
  predicate IsPair(s: string) {
    |s| == 2 && (IsHexDigit(s[0]) || s[0] == '+') && IsHexDigit(s[1])
  }

  lemma RadixOfOne(s: string)
    requires |s| == 1
    ensures FromStrRadix(s) == DigitValue(s[0])
  {
    assert s == [s[0]] && s[..|s| - 1] == [];
    assert Digits(s) == DigitValue(s[0]);
  }

  lemma RadixOfTwo(s: string)
    requires |s| == 2
    ensures FromStrRadix(s).Some? <==> IsPair(s)
    ensures IsPair(s) && s[0] != '+' ==> FromStrRadix(s) == Some(16 * DigitValue(s[0]).value + DigitValue(s[1]).value)
  {
    assert s == [s[0], s[1]] && s[..1] == [s[0]] && [s[0]][..0] == [] && s[1..] == [s[1]] && [s[1]][..0] == [];
    assert Digits([s[0]]) == DigitValue(s[0]);
    assert Digits([s[1]]) == DigitValue(s[1]);
  }

  /** Digits of byte length at most two: only ASCII text passes, so characters and bytes agree. */
  lemma RadixIsAscii(s: string)
    requires FromStrRadix(s).Some?
    ensures AllAscii(s)
  {
    var digits := if s[0] == '+' then s[1..] else s;
    DigitsAreHex(digits);
    forall i | 0 <= i < |s|
      ensures AsciiAt(s, i)
    {
      if s[0] == '+' && i > 0 {
        assert IsHexDigit(digits[i - 1]);
      } else if s[0] != '+' {
        assert IsHexDigit(digits[i]);
      }
    }
  }

  /** A component that parses starts where the ASCII text before it ends, and is ASCII itself. */
  lemma ComponentExtendsAscii(hex: string, lo: nat, hi: nat)
    requires lo <= hi && lo <= |hex| && AllAscii(hex[..lo])
    requires Component(hex, lo, hi).Ok?
    ensures hi <= |hex| && AllAscii(hex[..hi]) && FromStrRadix(hex[lo..hi]) == Some(Component(hex, lo, hi).value)
  {
    AsciiPrefixIndex(hex, lo);
    var i, j := CharIndex(hex, lo).value, CharIndex(hex, hi).value;
    var part := hex[i..j];
    RadixIsAscii(part);
    assert hex[..j] == hex[..i] + part;
    SizeConcat(Utf8, hex[..i], part);
    AsciiByteLen(hex[..i]);
    AsciiByteLen(part);
    AsciiConcat(hex[..i], part);
  }

  lemma AsciiPrefixIndex(s: string, n: nat)
    requires n <= |s| && AllAscii(s[..n])
    ensures CharIndex(s, n) == Some(n)
  {
    AsciiByteLen(s[..n]);
    IndexOfOffset(Utf8, s, n);
  }

  lemma AsciiComponent(hex: string, lo: nat, hi: nat)
    requires AllAscii(hex) && lo <= hi <= |hex|
    ensures Component(hex, lo, hi)
            == match FromStrRadix(hex[lo..hi]) case None => Err(BadDigits) case Some(v) => Ok(v)
  {
    AsciiGet(hex, lo, hi);
  }

  // ---------------------------------------------------------------- exactly which strings parse

  predicate HexAt(s: string, i: nat)
    requires i < |s|
  {
    IsHexDigit(s[i])
  }

  predicate AllHex(s: string) {
    forall i :: 0 <= i < |s| ==> HexAt(s, i)
  }

  /** The text after `#` that the parser takes. */
  predicate AcceptsHex(hex: string) {
    || ((|hex| == 3 || |hex| == 4) && AllHex(hex))
    || (|hex| == 6 && IsPair(hex[0..2]) && IsPair(hex[2..4]) && IsPair(hex[4..6]))
    || (|hex| == 8 && IsPair(hex[0..2]) && IsPair(hex[2..4]) && IsPair(hex[4..6]) && IsPair(hex[6..8]))
  }

  /** The schema's pattern: `#` and 3, 4, 6 or 8 hex digits. */
  predicate MatchesSchema(value: string) {
    && value != [] && value[0] == '#' && AllHex(value[1..])
    && (|value| == 4 || |value| == 5 || |value| == 7 || |value| == 9)
  }

  lemma ShortAccepted(hex: string)
    requires ByteLen(hex) == 3 || ByteLen(hex) == 4
    ensures ParseShort(hex).Ok? <==> AcceptsHex(hex)
  {
    ShortParses(hex);
    if DigitsParse(hex) {
      ShortIsHex(hex);
    }
    AsciiByteLen(hex);
    if AcceptsHex(hex) {
      PairsAreAscii(hex);
      HexDigitsParse(hex);
    }
  }

  lemma ShortParses(hex: string)
    requires ByteLen(hex) == 3 || ByteLen(hex) == 4
    ensures ParseShort(hex).Ok? <==> DigitsParse(hex)
  {
    var r, g, b := Component(hex, 0, 1), Component(hex, 1, 2), Component(hex, 2, 3);
    var a := if ByteLen(hex) == 4 then Component(hex, 3, 4) else Ok(0xf);
    ShortOk(hex, r, g, b, a);
    if DigitsParse(hex) {
      assert DigitParses(hex, 0) && DigitParses(hex, 1) && DigitParses(hex, 2);
      assert ByteLen(hex) == 4 ==> DigitParses(hex, 3);
    }
  }

  lemma ShortOk(hex: string, r: Result<nat>, g: Result<nat>, b: Result<nat>, a: Result<nat>)
    requires r == Component(hex, 0, 1) && g == Component(hex, 1, 2) && b == Component(hex, 2, 3)
    requires a == if ByteLen(hex) == 4 then Component(hex, 3, 4) else Ok(0xf)
    ensures ParseShort(hex).Ok? <==> r.Ok? && g.Ok? && b.Ok? && a.Ok?
  {
  }

  lemma HexDigitsParse(hex: string)
    requires AllHex(hex) && ByteLen(hex) == |hex|
    ensures DigitsParse(hex)
  {
    forall i: nat | i < |hex|
      ensures DigitParses(hex, i)
    {
      DigitComponent(hex, i);
    }
  }

  predicate DigitsParse(hex: string) {
    forall i :: 0 <= i < ByteLen(hex) ==> DigitParses(hex, i)
  }

  predicate DigitParses(hex: string, i: nat) {
    Component(hex, i, i + 1).Ok?
  }

  lemma {:induction false} DigitsParsed(hex: string, n: nat)
    requires forall i :: 0 <= i < n ==> DigitParses(hex, i)
    ensures n <= |hex| && AllAscii(hex[..n]) && AllHex(hex[..n])
  {
    if n > 0 {
      assert DigitParses(hex, n - 1);
      DigitsParsed(hex, n - 1);
      ComponentIsDigit(hex, n - 1);
      forall i | 0 <= i < n
        ensures HexAt(hex[..n], i)
      {
        assert i < n - 1 ==> HexAt(hex[..n - 1], i);
      }
    }
  }

  lemma ShortIsHex(hex: string)
    requires DigitsParse(hex)
    ensures AllHex(hex) && |hex| == ByteLen(hex)
  {
    var n := ByteLen(hex);
    DigitsParsed(hex, n);
    PrefixIsAll(hex, n);
    assert hex[..n] == hex;
  }

  lemma ComponentIsDigit(hex: string, i: nat)
    requires i <= |hex| && AllAscii(hex[..i]) && Component(hex, i, i + 1).Ok?
    ensures i < |hex| && AllAscii(hex[..i + 1]) && IsHexDigit(hex[i])
  {
    ComponentExtendsAscii(hex, i, i + 1);
    RadixOfOne(hex[i..i + 1]);
  }

  /** Once the ASCII prefix is as long as the text has bytes, it is the whole text. */
  lemma PrefixIsAll(hex: string, n: nat)
    requires n <= |hex| && AllAscii(hex[..n]) && ByteLen(hex) == n
    ensures |hex| == n && AllAscii(hex)
  {
    AsciiByteLen(hex[..n]);
    assert hex == hex[..n] + hex[n..];
    SizeConcat(Utf8, hex[..n], hex[n..]);
    assert hex[..n] == hex;
  }

  lemma LongAccepted(hex: string)
    requires ByteLen(hex) == 6 || ByteLen(hex) == 8
    ensures ParseLong(hex).Ok? <==> AcceptsHex(hex)
  {
    if ParseLong(hex).Ok? {
      LongIsPairs(hex);
    }
    if AcceptsHex(hex) {
      PairsParse(hex);
    }
  }

  lemma PairsParse(hex: string)
    requires AcceptsHex(hex) && (ByteLen(hex) == 6 || ByteLen(hex) == 8)
    ensures Component(hex, 0, 2).Ok? && Component(hex, 2, 4).Ok? && Component(hex, 4, 6).Ok?
    ensures ByteLen(hex) == 8 ==> Component(hex, 6, 8).Ok?
  {
    PairsAreAscii(hex);
    AsciiByteLen(hex);
    ThreePairsParse(hex);
    if |hex| == 8 {
      PairParses(hex, 6);
    }
  }

  lemma ThreePairsParse(hex: string)
    requires AllAscii(hex) && |hex| >= 6 && IsPair(hex[0..2]) && IsPair(hex[2..4]) && IsPair(hex[4..6])
    ensures Component(hex, 0, 2).Ok? && Component(hex, 2, 4).Ok? && Component(hex, 4, 6).Ok?
  {
    PairParses(hex, 0);
    PairParses(hex, 2);
    PairParses(hex, 4);
  }

  lemma LongIsPairs(hex: string)
    requires ByteLen(hex) == 6 || ByteLen(hex) == 8
    requires Component(hex, 0, 2).Ok? && Component(hex, 2, 4).Ok? && Component(hex, 4, 6).Ok?
    requires ByteLen(hex) == 8 ==> Component(hex, 6, 8).Ok?
    ensures AcceptsHex(hex)
  {
    ThreePairs(hex);
    if ByteLen(hex) == 8 {
      ComponentIsPair(hex, 6);
    }
    PrefixIsAll(hex, ByteLen(hex));
  }

  lemma ThreePairs(hex: string)
    requires Component(hex, 0, 2).Ok? && Component(hex, 2, 4).Ok? && Component(hex, 4, 6).Ok?
    ensures 6 <= |hex| && AllAscii(hex[..6]) && IsPair(hex[0..2]) && IsPair(hex[2..4]) && IsPair(hex[4..6])
  {
    ComponentIsPair(hex, 0);
    ComponentIsPair(hex, 2);
    ComponentIsPair(hex, 4);
  }

  lemma ComponentIsPair(hex: string, i: nat)
    requires i <= |hex| && AllAscii(hex[..i]) && Component(hex, i, i + 2).Ok?
    ensures i + 2 <= |hex| && AllAscii(hex[..i + 2]) && IsPair(hex[i..i + 2])
  {
    ComponentExtendsAscii(hex, i, i + 2);
    RadixOfTwo(hex[i..i + 2]);
  }

  lemma PairsAreAscii(hex: string)
    requires AcceptsHex(hex)
    ensures AllAscii(hex)
  {
    forall i | 0 <= i < |hex|
      ensures AsciiAt(hex, i)
    {
      assert |hex| <= 4 ==> HexAt(hex, i);
      if |hex| >= 6 {
        var k := i - i % 2;
        assert IsPair(hex[k..k + 2]) && hex[i] == hex[k..k + 2][i % 2];
      }
    }
  }

  lemma PairParses(hex: string, lo: nat)
    requires AllAscii(hex) && lo + 2 <= |hex| && IsPair(hex[lo..lo + 2])
    ensures Component(hex, lo, lo + 2).Ok?
    ensures hex[lo] != '+' ==>
              Component(hex, lo, lo + 2) == Ok(16 * DigitValue(hex[lo]).value + DigitValue(hex[lo + 1]).value)
  {
    AsciiComponent(hex, lo, lo + 2);
    RadixOfTwo(hex[lo..lo + 2]);
  }

  lemma {:induction false} SplitAtHead(s: string, c: char)
    ensures SplitOnce(s, c).Some? && SplitOnce(s, c).value.0 == "" <==> s != [] && s[0] == c
  {
    if s != [] && s[0] != c {
      SplitAtHead(s[1..], c);
    }
  }

  /** `#` and digits of an accepted form, between any amount of whitespace. */
  predicate Accepted(value: string) {
    Trim(value) != [] && Trim(value)[0] == '#' && AcceptsHex(Trim(value)[1..])
  }

  /** A string parses exactly when, trimmed, it is `#` followed by digits of an accepted form. */
  lemma AcceptedStrings(value: string)
    ensures Parse(value).Ok? <==> Accepted(value)
  {
    var text := Trim(value);
    SplitAtHead(text, '#');
    if text != [] && text[0] == '#' {
      var hex := text[1..];
      if ByteLen(hex) == 3 || ByteLen(hex) == 4 {
        ShortAccepted(hex);
      } else if ByteLen(hex) == 6 || ByteLen(hex) == 8 {
        LongAccepted(hex);
      }
      if AcceptsHex(hex) {
        PairsAreAscii(hex);
        AsciiByteLen(hex);
      }
    }
  }

  lemma TrimmedAlready(value: string)
    requires value != [] && !IsWhitespace(value[0]) && !IsWhitespace(value[|value| - 1])
    ensures Trim(value) == value
  {
  }

  predicate AllWhitespace(s: string) {
    forall i :: 0 <= i < |s| ==> IsWhitespace(s[i])
  }

  lemma {:induction false} LeadingPadding(pad: string, value: string)
    requires AllWhitespace(pad)
    ensures TrimStart(pad + value) == TrimStart(value)
  {
    if pad == [] {
      assert pad + value == value;
    } else {
      assert (pad + value)[1..] == pad[1..] + value;
      LeadingPadding(pad[1..], value);
    }
  }

  lemma {:induction false} TrailingPadding(value: string, pad: string)
    requires AllWhitespace(pad)
    ensures TrimEnd(value + pad) == TrimEnd(value)
  {
    if pad == [] {
      assert value + pad == value;
    } else {
      var n := |pad| - 1;
      assert (value + pad)[..|value + pad| - 1] == value + pad[..n];
      TrailingPadding(value, pad[..n]);
    }
  }

  lemma {:induction false} TrimStartOfConcat(value: string, pad: string)
    requires AllWhitespace(pad)
    ensures if AllWhitespace(value) then TrimStart(value) == TrimStart(value + pad) == ""
            else TrimStart(value + pad) == TrimStart(value) + pad
  {
    if value == [] {
      LeadingPadding(pad, "");
      assert value + pad == pad == pad + "";
    } else if IsWhitespace(value[0]) {
      assert value == [value[0]] + value[1..] && (value + pad)[1..] == value[1..] + pad;
      assert AllWhitespace(value) <==> AllWhitespace(value[1..]);
      TrimStartOfConcat(value[1..], pad);
    }
  }

  /** Whitespace around any text changes nothing. */
  lemma PaddingIsIgnored(before: string, value: string, after: string)
    requires AllWhitespace(before) && AllWhitespace(after)
    ensures Parse(before + value + after) == Parse(value)
  {
    assert before + value + after == before + (value + after);
    LeadingPadding(before, value + after);
    TrimStartOfConcat(value, after);
    TrailingPadding(TrimStart(value), after);
  }

  lemma {:induction false} TrimStartIsSuffix(s: string)
    ensures |TrimStart(s)| <= |s|
    ensures s != [] ==> (|TrimStart(s)| == |s| <==> !IsWhitespace(s[0]))
  {
    if s != [] && IsWhitespace(s[0]) {
      TrimStartIsSuffix(s[1..]);
    }
  }

  lemma {:induction false} TrimEndIsPrefix(s: string)
    ensures |TrimEnd(s)| <= |s|
    ensures s != [] ==> (|TrimEnd(s)| == |s| <==> !IsWhitespace(s[|s| - 1]))
  {
    if s != [] && IsWhitespace(s[|s| - 1]) {
      TrimEndIsPrefix(s[..|s| - 1]);
    }
  }

  lemma TrimmedHasNoPadding(value: string)
    requires value != []
    ensures Trim(value) == value <==> !IsWhitespace(value[0]) && !IsWhitespace(value[|value| - 1])
  {
    TrimStartIsSuffix(value);
    TrimEndIsPrefix(TrimStart(value));
    TrimEndIsPrefix(value);
  }

  /**
   The parser accepts what the schema describes and, besides, exactly the accepted texts that have
   whitespace around them or write some component with a plus sign.
   */
  lemma ParserAgainstSchema(value: string)
    ensures MatchesSchema(value) ==> Parse(value).Ok?
    ensures Parse(value).Ok? && !MatchesSchema(value) <==> Accepted(value) && (Trim(value) != value || '+' in value)
  {
    AcceptedStrings(value);
    if MatchesSchema(value) {
      SchemaIsAccepted(value);
    }
    if Accepted(value) && Trim(value) == value && '+' !in value {
      PlainIsSchema(value);
    }
  }

  lemma PlainIsSchema(value: string)
    requires Accepted(value) && Trim(value) == value && '+' !in value
    ensures MatchesSchema(value)
  {
    var hex := value[1..];
    AcceptedCharacters(hex);
    forall i | 0 <= i < |hex|
      ensures HexAt(hex, i)
    {
      assert hex[i] == value[i + 1];
    }
  }

  lemma SchemaIsAccepted(value: string)
    requires MatchesSchema(value)
    ensures Trim(value) == value && '+' !in value && Accepted(value)
  {
    var hex := value[1..];
    assert HexAt(hex, |hex| - 1);
    TrimmedAlready(value);
    SchemaFormAccepted(hex);
    forall i | 0 <= i < |value|
      ensures value[i] != '+'
    {
      assert i > 0 ==> HexAt(hex, i - 1);
    }
  }

  lemma SchemaFormAccepted(hex: string)
    requires AllHex(hex) && (|hex| == 3 || |hex| == 4 || |hex| == 6 || |hex| == 8)
    ensures AcceptsHex(hex)
  {
    if |hex| >= 6 {
      HexPair(hex, 0);
      HexPair(hex, 2);
      HexPair(hex, 4);
    }
    if |hex| == 8 {
      HexPair(hex, 6);
    }
  }

  lemma AcceptedCharacters(hex: string)
    requires AcceptsHex(hex)
    ensures forall i :: 0 <= i < |hex| ==> IsHexDigit(hex[i]) || hex[i] == '+'
  {
    forall i | 0 <= i < |hex|
      ensures IsHexDigit(hex[i]) || hex[i] == '+'
    {
      assert |hex| <= 4 ==> HexAt(hex, i);
      if |hex| >= 6 {
        var k := i - i % 2;
        assert IsPair(hex[k..k + 2]) && hex[i] == hex[k..k + 2][i % 2];
      }
    }
  }

  /** The documented pattern is narrower than the parser: `#+1+2+3` is a colour. */
  lemma PlusSignsAreAccepted()
    ensures Parse("#+1+2+3").Ok? && !MatchesSchema("#+1+2+3")
  {
    PlusPairs("#+1+2+3", "+1+2+3");
  }

  lemma PlusPairs(value: string, hex: string)
    requires hex == "+1+2+3" && |value| == 7 && value[0] == '#' && value[1..] == hex
    ensures Parse(value).Ok? && !MatchesSchema(value)
  {
    assert value[1] == hex[0] && value[6] == hex[5];
    assert IsPair(hex[0..2]) && IsPair(hex[2..4]) && IsPair(hex[4..6]);
    TrimmedAlready(value);
    assert AcceptsHex(hex) && Accepted(value);
    ParserAgainstSchema(value);
    AcceptedStrings(value);
  }

  /** So are its own colours between whitespace, which it does not describe: ` #abc` is one. */
  lemma PaddedColoursAreAccepted(before: string, value: string, after: string)
    requires MatchesSchema(value) && AllWhitespace(before) && AllWhitespace(after) && before + after != ""
    ensures Parse(before + value + after) == Parse(value) && Parse(value).Ok? && !MatchesSchema(before + value + after)
  {
    PaddingIsIgnored(before, value, after);
    ParserAgainstSchema(value);
    AcceptedStrings(before + value + after);
    TrimmedHasNoPadding(before + value + after);
    ParserAgainstSchema(before + value + after);
  }

  lemma PaddedAbc()
    ensures Parse(" #abc").Ok? && !MatchesSchema(" #abc")
  {
    AbcMatches("#abc");
    assert " " + "#abc" + "" == " #abc";
    PaddedColoursAreAccepted(" ", "#abc", "");
  }

  lemma AbcMatches(value: string)
    requires value == "#abc"
    ensures MatchesSchema(value)
  {
    assert value[1..] == "abc";
  }

  // ---------------------------------------------------------------- the short forms

  lemma ParsesAsHex(hex: string)
    requires hex != [] && !IsWhitespace(hex[|hex| - 1])
    ensures Parse("#" + hex) == ParseHex(hex)
  {
    TrimmedAlready("#" + hex);
    assert ("#" + hex)[1..] == hex;
  }

  lemma HexDigitsAreAscii(hex: string)
    requires AllHex(hex)
    ensures AllAscii(hex) && ByteLen(hex) == |hex|
  {
    forall i | 0 <= i < |hex|
      ensures AsciiAt(hex, i)
    {
      assert HexAt(hex, i);
    }
    AsciiByteLen(hex);
  }

  function DigitAt(hex: string, i: nat): nat
    requires AllHex(hex) && i < |hex|
  {
    assert HexAt(hex, i);
    DigitValue(hex[i]).value
  }

  lemma HexPair(hex: string, lo: nat)
    requires AllHex(hex) && lo + 2 <= |hex|
    ensures IsPair(hex[lo..lo + 2]) && hex[lo] != '+'
  {
    assert HexAt(hex, lo) && HexAt(hex, lo + 1);
  }

  function PairValue(hex: string, lo: nat): nat
    requires AllHex(hex) && lo + 2 <= |hex|
  {
    16 * DigitAt(hex, lo) + DigitAt(hex, lo + 1)
  }

  lemma DigitComponent(hex: string, i: nat)
    requires AllHex(hex) && i < |hex|
    ensures Component(hex, i, i + 1) == Ok(DigitAt(hex, i))
  {
    HexDigitsAreAscii(hex);
    assert HexAt(hex, i);
    AsciiComponent(hex, i, i + 1);
    RadixOfOne(hex[i..i + 1]);
  }

  lemma PairComponent(hex: string, lo: nat)
    requires AllHex(hex) && lo + 2 <= |hex|
    ensures Component(hex, lo, lo + 2) == Ok(PairValue(hex, lo))
  {
    HexDigitsAreAscii(hex);
    HexPair(hex, lo);
    PairParses(hex, lo);
  }

  lemma LongHex(hex: string)
    requires AllHex(hex) && (|hex| == 6 || |hex| == 8)
    ensures ParseLong(hex) == Ok(FromBytes(PairValue(hex, 0), PairValue(hex, 2), PairValue(hex, 4),
                                           if |hex| == 8 then PairValue(hex, 6) else 0xff))
  {
    HexDigitsAreAscii(hex);
    PairComponent(hex, 0);
    PairComponent(hex, 2);
    PairComponent(hex, 4);
    if |hex| == 8 {
      PairComponent(hex, 6);
    }
  }

  lemma ShortHex(hex: string)
    requires AllHex(hex) && (|hex| == 3 || |hex| == 4)
    ensures ParseShort(hex) == Ok(FromBytes(Duplicate(DigitAt(hex, 0)), Duplicate(DigitAt(hex, 1)),
                                            Duplicate(DigitAt(hex, 2)),
                                            Duplicate(if |hex| == 4 then DigitAt(hex, 3) else 0xf)))
  {
    HexDigitsAreAscii(hex);
    DigitComponent(hex, 0);
    DigitComponent(hex, 1);
    DigitComponent(hex, 2);
    if |hex| == 4 {
      DigitComponent(hex, 3);
    }
  }

  lemma ParsesByLength(value: string, hex: string)
    requires value == "#" + hex && AllHex(hex) && |hex| >= 3
    ensures (|hex| == 3 || |hex| == 4) ==> Parse(value) == ParseShort(hex)
    ensures (|hex| == 6 || |hex| == 8) ==> Parse(value) == ParseLong(hex)
  {
    HexDigitsAreAscii(hex);
    assert HexAt(hex, |hex| - 1);
    ParsesAsHex(hex);
  }

  ghost predicate SameDigits(hex: string, other: string)
    requires AllHex(hex) && AllHex(other)
  {
    |hex| == |other| && forall i :: 0 <= i < |hex| ==> DigitAt(hex, i) == DigitAt(other, i)
  }

  /** Only the values of the digits count, so upper and lower case mean the same, in every form and in errors. */
  lemma CaseDoesNotMatter(hex: string, other: string)
    requires AllHex(hex) && AllHex(other) && SameDigits(hex, other)
    ensures Parse("#" + hex) == Parse("#" + other)
  {
    if hex != [] {
      assert HexAt(hex, |hex| - 1) && HexAt(other, |hex| - 1);
      ParsesAsHex(hex);
      ParsesAsHex(other);
      HexDigitsAreAscii(hex);
      HexDigitsAreAscii(other);
      SameDigitsParse(hex, other);
    }
  }

  lemma SameDigitsParse(hex: string, other: string)
    requires AllHex(hex) && AllHex(other) && SameDigits(hex, other)
    ensures (|hex| == 3 || |hex| == 4) ==> ParseShort(hex) == ParseShort(other)
    ensures (|hex| == 6 || |hex| == 8) ==> ParseLong(hex) == ParseLong(other)
  {
    if |hex| == 3 || |hex| == 4 {
      ShortHex(hex);
      ShortHex(other);
    } else if |hex| == 6 || |hex| == 8 {
      LongHex(hex);
      LongHex(other);
      SamePairs(hex, other);
    }
  }

  lemma SamePairs(hex: string, other: string)
    requires AllHex(hex) && AllHex(other) && SameDigits(hex, other) && (|hex| == 6 || |hex| == 8)
    ensures PairValue(hex, 0) == PairValue(other, 0) && PairValue(hex, 2) == PairValue(other, 2)
    ensures PairValue(hex, 4) == PairValue(other, 4) && (|hex| == 8 ==> PairValue(hex, 6) == PairValue(other, 6))
  {
  }

  /** `long` writes each digit of `short` twice. */
  ghost predicate Doubles(short: string, long: string) {
    && |long| == 2 * |short|
    && forall i :: 0 <= i < |short| ==> long[2 * i] == short[i] && long[2 * i + 1] == short[i]
  }

  lemma DoubledPair(short: string, long: string, i: nat)
    requires AllHex(short) && AllHex(long) && Doubles(short, long) && i < |short|
    ensures PairValue(long, 2 * i) == Duplicate(DigitAt(short, i))
  {
  }

  /** `#rgba` means `#rrggbbaa`. */
  lemma ShortFormWithAlpha(short: string, long: string)
    requires |short| == 4 && AllHex(short) && AllHex(long) && Doubles(short, long)
    ensures Parse("#" + short).Ok? && Parse("#" + short) == Parse("#" + long)
  {
    ParsesByLength("#" + short, short);
    ParsesByLength("#" + long, long);
    ShortHex(short);
    LongHex(long);
    DoubledPair(short, long, 0);
    DoubledPair(short, long, 1);
    DoubledPair(short, long, 2);
    DoubledPair(short, long, 3);
  }

  /** `#rgb` means `#rrggbb`. */
  lemma ShortFormWithoutAlpha(short: string, long: string)
    requires |short| == 3 && AllHex(short) && AllHex(long) && Doubles(short, long)
    ensures Parse("#" + short).Ok? && Parse("#" + short) == Parse("#" + long)
  {
    ParsesByLength("#" + short, short);
    ParsesByLength("#" + long, long);
    ShortHex(short);
    LongHex(long);
    DoubledPair(short, long, 0);
    DoubledPair(short, long, 1);
    DoubledPair(short, long, 2);
  }

  /** A missing alpha is opaque: `#rrggbb` means `#rrggbbff`. */
  lemma MissingAlphaIsOpaque(hex: string, full: string)
    requires |hex| == 6 && AllHex(hex) && full == hex + "ff"
    ensures Parse("#" + hex).Ok? && Parse("#" + hex) == Parse("#" + full) && Parse("#" + hex).value.a == 1.0
  {
    FullIsHex(hex, full);
    ParsesByLength("#" + hex, hex);
    ParsesByLength("#" + full, full);
    LongHex(hex);
    LongHex(full);
  }

  lemma FullIsHex(hex: string, full: string)
    requires |hex| == 6 && AllHex(hex) && full == hex + "ff"
    ensures AllHex(full) && PairValue(full, 6) == 0xff
    ensures PairValue(full, 0) == PairValue(hex, 0) && PairValue(full, 2) == PairValue(hex, 2)
    ensures PairValue(full, 4) == PairValue(hex, 4)
  {
    forall i | 0 <= i < |full|
      ensures HexAt(full, i)
    {
      assert i < 6 ==> HexAt(hex, i);
    }
  }

  // ---------------------------------------------------------------- round trips

  lemma HexDigitValue(d: nat)
    requires d < 16
    ensures DigitValue(HexDigit(d)) == Some(d) && HexDigit(d) != '+' && HexDigit(d) != '#' && IsAscii(HexDigit(d))
  {
    if d < 10 {
      assert HexDigit(d) as int == '0' as int + d;
    } else {
      assert HexDigit(d) as int == 'a' as int + d - 10;
    }
  }

  /** The pair of characters at `lo` prints byte `b`. */
  lemma PrintedPair(hex: string, lo: nat, b: nat)
    requires b < 256 && lo + 2 <= |hex| && hex[lo] == Hex2(b)[0] && hex[lo + 1] == Hex2(b)[1]
    ensures HexAt(hex, lo) && HexAt(hex, lo + 1)
    ensures 16 * DigitValue(hex[lo]).value + DigitValue(hex[lo + 1]).value == b
    ensures !IsWhitespace(hex[lo + 1])
  {
    HexDigitValue(b / 16);
    HexDigitValue(b % 16);
  }

  lemma PrintedHex(hex: string, r: nat, g: nat, b: nat, a: nat)
    requires r < 256 && g < 256 && b < 256 && a < 256
    requires hex == Hex2(r) + Hex2(g) + Hex2(b) + Hex2(a)
    ensures AllHex(hex) && |hex| == 8
    ensures PairValue(hex, 0) == r && PairValue(hex, 2) == g && PairValue(hex, 4) == b && PairValue(hex, 6) == a
  {
    PrintedPair(hex, 0, r);
    PrintedPair(hex, 2, g);
    PrintedPair(hex, 4, b);
    PrintedPair(hex, 6, a);
  }

  /** Parsing what was printed recovers exactly the printed bytes, for every colour. */
  lemma ParsePrinted(color: Rgba)
    ensures Parse(Serialize(color)) == Ok(FromBytes(ToByte(color.r), ToByte(color.g), ToByte(color.b), ToByte(color.a)))
  {
    var r, g, b, a := ToByte(color.r), ToByte(color.g), ToByte(color.b), ToByte(color.a);
    ParseOfBytes(r, g, b, a, Serialize(color));
  }

  lemma ParseOfBytes(r: nat, g: nat, b: nat, a: nat, value: string)
    requires r < 256 && g < 256 && b < 256 && a < 256
    requires value == "#" + Hex2(r) + Hex2(g) + Hex2(b) + Hex2(a)
    ensures Parse(value) == Ok(FromBytes(r, g, b, a))
  {
    var hex := Hex2(r) + Hex2(g) + Hex2(b) + Hex2(a);
    PrintedHex(hex, r, g, b, a);
    assert value == "#" + hex;
    ParsesByLength(value, hex);
    LongHex(hex);
  }

  lemma ByteRoundTrip(b: nat)
    requires b < 256
    ensures ToByte(FromByte(b)) == b
  {
    assert FromByte(b) * 255.0 == b as real;
    assert (b as real + 0.5).Floor == b;
  }

  function Distance(x: real, y: real): real {
    Abs(x - y)
  }

  /** Printing a channel loses at most half a step of 1/255. */
  lemma ChannelError(x: real)
    requires 0.0 <= x <= 1.0
    ensures Distance(FromByte(ToByte(x)), x) <= 1.0 / 510.0
  {
    var r := (x * 255.0 + 0.5).Floor;
    assert 0 <= r <= 255;
    assert FromByte(r) * 255.0 == r as real;
  }

  /**
   Print, then parse: the colour read back is within 1/510 of an in-range colour in each channel, and it
   prints the same again.
   */
  lemma PrintParseRoundTrip(color: Rgba)
    requires RgbInRange(color) && 0.0 <= color.a <= 1.0
    ensures Parse(Serialize(color)).Ok?
    ensures var back := Parse(Serialize(color)).value;
      && Distance(back.r, color.r) <= 1.0 / 510.0 && Distance(back.g, color.g) <= 1.0 / 510.0
      && Distance(back.b, color.b) <= 1.0 / 510.0 && Distance(back.a, color.a) <= 1.0 / 510.0
      && Serialize(back) == Serialize(color)
  {
    ParsePrinted(color);
    ChannelError(color.r);
    ChannelError(color.g);
    ChannelError(color.b);
    ChannelError(color.a);
    PrintedBytesSettle(color);
  }

  lemma PrintedBytesSettle(color: Rgba)
    ensures Serialize(FromBytes(ToByte(color.r), ToByte(color.g), ToByte(color.b), ToByte(color.a))) == Serialize(color)
  {
    ByteRoundTrip(ToByte(color.r));
    ByteRoundTrip(ToByte(color.g));
    ByteRoundTrip(ToByte(color.b));
    ByteRoundTrip(ToByte(color.a));
  }

  /** Byte-valued colours survive printing and parsing exactly. */
  lemma ByteColoursAreExact(r: nat, g: nat, b: nat, a: nat)
    requires r < 256 && g < 256 && b < 256 && a < 256
    ensures Parse(Serialize(FromBytes(r, g, b, a))) == Ok(FromBytes(r, g, b, a))
  {
    ParsePrinted(FromBytes(r, g, b, a));
    ByteRoundTrip(r);
    ByteRoundTrip(g);
    ByteRoundTrip(b);
    ByteRoundTrip(a);
  }
}
