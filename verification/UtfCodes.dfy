/** The encodings themselves, against which the widths and offsets of `Utf` are measured. */
module UtfCodes {
  import opened Utf

  /** UTF-16: one unit, or a high and a low surrogate. */
  function Units16(c: char): seq<int> {
    var u := c as int;
    if u < 0x1_0000 then [u] else [0xD800 + (u - 0x1_0000) / 0x400, 0xDC00 + (u - 0x1_0000) % 0x400]
  }

  /** UTF-8: up to seven bits as they are, else a leading byte and continuation bytes of six bits. */
  function Bytes8(c: char): seq<int> {
    var u := c as int;
    if u < 0x80 then [u]
    else if u < 0x800 then [0xC0 + u / 0x40, 0x80 + u % 0x40]
    else if u < 0x1_0000 then [0xE0 + u / 0x1000, 0x80 + u / 0x40 % 0x40, 0x80 + u % 0x40]
    else [0xF0 + u / 0x4_0000, 0x80 + u / 0x1000 % 0x40, 0x80 + u / 0x40 % 0x40, 0x80 + u % 0x40]
  }

  function Code(e: Encoding, c: char): seq<int> {
    match e
    case Utf8 => Bytes8(c)
    case Utf16 => Units16(c)
  }

  /** The scalar value a code stands for. */
  function Scalar(e: Encoding, code: seq<int>): int
    requires 1 <= |code| <= 4 && (e == Utf16 ==> |code| <= 2)
  {
    match e
    case Utf16 => if |code| == 1 then code[0] else 0x1_0000 + (code[0] - 0xD800) * 0x400 + (code[1] - 0xDC00)
    case Utf8 =>
      if |code| == 1 then code[0]
      else if |code| == 2 then (code[0] - 0xC0) * 0x40 + (code[1] - 0x80)
      else if |code| == 3 then (code[0] - 0xE0) * 0x1000 + (code[1] - 0x80) * 0x40 + (code[2] - 0x80)
      else (code[0] - 0xF0) * 0x4_0000 + (code[1] - 0x80) * 0x1000 + (code[2] - 0x80) * 0x40 + (code[3] - 0x80)
  }

  /** How many units a code has, told by its first unit. */
  function Announced(e: Encoding, first: int): nat {
    match e
    case Utf8 => if first < 0x80 then 1 else if first < 0xE0 then 2 else if first < 0xF0 then 3 else 4
    case Utf16 => if 0xD800 <= first < 0xDC00 then 2 else 1
  }

  /** Units of eight and of sixteen bits. */
  function UnitLimit(e: Encoding): nat {
    match e
    case Utf8 => 0x100
    case Utf16 => 0x1_0000
  }

  lemma Split6(u: nat)
    ensures u == u / 0x40 * 0x40 + u % 0x40
    ensures u / 0x1000 == u / 0x40 / 0x40 && u / 0x4_0000 == u / 0x1000 / 0x40
  {
  }

  /** Every character's code has its width, is announced by its first unit, fits its units and means the character. */
  lemma CodeOfCharacter(e: Encoding, c: char)
    ensures |Code(e, c)| == Width(e, c) == Announced(e, Code(e, c)[0])
    ensures forall i :: 0 <= i < |Code(e, c)| ==> 0 <= Code(e, c)[i] < UnitLimit(e)
    ensures e == Utf16 ==> |Code(e, c)| <= 2
    ensures Scalar(e, Code(e, c)) == c as int
  {
    var u := c as int;
    Split6(u);
    Split6(u / 0x40);
    Split6(u / 0x1000);
  }

  /** The encoded text. */
  function Encoded(e: Encoding, s: string): seq<int> {
    if s == [] then [] else Encoded(e, s[..|s| - 1]) + Code(e, s[|s| - 1])
  }

  /** The length and the offsets of `Utf` count units of the encoded text. */
  lemma {:induction false} SizeIsEncodedLength(e: Encoding, s: string)
    ensures |Encoded(e, s)| == Size(e, s)
  {
    if s != [] {
      SizeIsEncodedLength(e, s[..|s| - 1]);
      CodeOfCharacter(e, s[|s| - 1]);
    }
  }

  lemma {:induction false} OffsetCutsEncoded(e: Encoding, s: string, k: nat)
    requires k <= |s|
    ensures Offset(e, s, k) <= |Encoded(e, s)| && Encoded(e, s)[..Offset(e, s, k)] == Encoded(e, s[..k])
  {
    SizeIsEncodedLength(e, s[..k]);
    if k == |s| {
      assert s[..k] == s;
    } else {
      var n := |s| - 1;
      OffsetCutsEncoded(e, s[..n], k);
      assert s[..n][..k] == s[..k];
    }
  }
}
