/** Text as characters with their UTF-8 and UTF-16 widths, and conversion between the two kinds of offset. */
module Utf {

  datatype Encoding = Utf8 | Utf16

  /** `len_utf8` and `len_utf16` */
  function Width(e: Encoding, c: char): (n: nat)
    ensures 1 <= n <= 4
  {
    var u := c as int;
    match e
    case Utf8 => if u < 0x80 then 1 else if u < 0x800 then 2 else if u < 0x1_0000 then 3 else 4
    case Utf16 => if u < 0x1_0000 then 1 else 2
  }

  /** The length of `s` in code units. */
  function Size(e: Encoding, s: string): (n: nat)
    ensures n >= |s|
  {
    if s == [] then 0 else Size(e, s[..|s| - 1]) + Width(e, s[|s| - 1])
  }

  /** The offset of character boundary `k`. */
  function Offset(e: Encoding, s: string, k: nat): nat
    requires k <= |s|
  {
    Size(e, s[..k])
  }

  lemma OffsetStep(e: Encoding, s: string, k: nat)
    requires k < |s|
    ensures Offset(e, s, k + 1) == Offset(e, s, k) + Width(e, s[k])
  {
    assert s[..k + 1][..k] == s[..k];
  }

  lemma {:induction false} OffsetIncreases(e: Encoding, s: string, j: nat, k: nat)
    requires j <= k <= |s|
    ensures Offset(e, s, j) + (k - j) <= Offset(e, s, k)
    decreases k - j
  {
    if j < k {
      OffsetStep(e, s, k - 1);
      OffsetIncreases(e, s, j, k - 1);
    }
  }

  lemma OffsetOfEnd(e: Encoding, s: string)
    ensures Offset(e, s, |s|) == Size(e, s) && Offset(e, s, 0) == 0
  {
    assert s[..|s|] == s;
  }

  lemma {:induction false} SizeConcat(e: Encoding, s: string, t: string)
    ensures Size(e, s + t) == Size(e, s) + Size(e, t)
  {
    if t == [] {
      assert s + t == s;
    } else {
      var n := |t| - 1;
      SizeConcat(e, s, t[..n]);
      assert (s + t)[..|s + t| - 1] == s + t[..n];
    }
  }

  ghost predicate IsBoundary(e: Encoding, s: string, offset: nat) {
    exists k :: 0 <= k <= |s| && Offset(e, s, k) == offset
  }

  /** The first boundary, counted in characters, at or after `offset`; the end when there is none. */
  function Index(e: Encoding, s: string, offset: nat): (k: nat)
    ensures k <= |s|
  {
    IndexFrom(e, s, offset, 0)
  }

  function IndexFrom(e: Encoding, s: string, offset: nat, k: nat): (r: nat)
    requires k <= |s|
    ensures k <= r <= |s|
    decreases |s| - k
  {
    if k == |s| || Offset(e, s, k) >= offset then k else IndexFrom(e, s, offset, k + 1)
  }

  lemma {:induction false} IndexFromIsLeast(e: Encoding, s: string, offset: nat, k: nat)
    requires k <= |s|
    ensures var r := IndexFrom(e, s, offset, k);
      && (r == |s| || Offset(e, s, r) >= offset)
      && forall j :: k <= j < r ==> Offset(e, s, j) < offset
    decreases |s| - k
  {
    if k < |s| && Offset(e, s, k) < offset {
      IndexFromIsLeast(e, s, offset, k + 1);
    }
  }

  /** No boundary before `Index` reaches `offset`; `Index` itself does, unless it is the end. */
  lemma IndexIsLeast(e: Encoding, s: string, offset: nat)
    ensures var r := Index(e, s, offset);
      && (r == |s| || Offset(e, s, r) >= offset)
      && forall j :: 0 <= j < r ==> Offset(e, s, j) < offset
  {
    IndexFromIsLeast(e, s, offset, 0);
  }

  lemma IndexOfOffset(e: Encoding, s: string, k: nat)
    requires k <= |s|
    ensures Index(e, s, Offset(e, s, k)) == k
  {
    var r := Index(e, s, Offset(e, s, k));
    IndexIsLeast(e, s, Offset(e, s, k));
    if r < k {
      OffsetIncreases(e, s, r, k);
    }
  }

  lemma IndexOfPrefix(e: Encoding, s: string, prefix: string)
    requires prefix <= s
    ensures Index(e, s, Size(e, prefix)) == |prefix|
  {
    assert s[..|prefix|] == prefix;
    IndexOfOffset(e, s, |prefix|);
  }

  /** The offset in encoding `other` that `offset_from_utf16` and `offset_to_utf16` compute. */
  function Convert(e: Encoding, other: Encoding, s: string, offset: nat): nat {
    Offset(other, s, Index(e, s, offset))
  }

  /** Least boundary not below `offset`, capped at the end of the text. */
  ghost predicate IsRoundedUp(e: Encoding, s: string, offset: nat, r: nat) {
    && IsBoundary(e, s, r)
    && (offset <= Size(e, s) ==> offset <= r)
    && (offset > Size(e, s) ==> r == Size(e, s))
    && forall b :: IsBoundary(e, s, b) && offset <= b ==> r <= b
  }

  /** Converted offsets are boundaries. */
  lemma ConvertLandsOnBoundary(e: Encoding, other: Encoding, s: string, offset: nat)
    ensures IsBoundary(other, s, Convert(e, other, s, offset))
    ensures Convert(e, other, s, offset) <= Size(other, s)
  {
    var k := Index(e, s, offset);
    OffsetIncreases(other, s, k, |s|);
    OffsetOfEnd(other, s);
  }

  lemma ConvertIsMonotone(e: Encoding, other: Encoding, s: string, a: nat, b: nat)
    requires a <= b
    ensures Convert(e, other, s, a) <= Convert(e, other, s, b)
  {
    var i, j := Index(e, s, a), Index(e, s, b);
    IndexIsLeast(e, s, a);
    IndexIsLeast(e, s, b);
    assert i <= j;
    OffsetIncreases(other, s, i, j);
  }

  lemma RoundedUp(e: Encoding, s: string, offset: nat)
    ensures IsRoundedUp(e, s, offset, Offset(e, s, Index(e, s, offset)))
  {
    var k := Index(e, s, offset);
    IndexIsLeast(e, s, offset);
    OffsetOfEnd(e, s);
    forall b | IsBoundary(e, s, b) && offset <= b
      ensures Offset(e, s, k) <= b
    {
      var j :| 0 <= j <= |s| && Offset(e, s, j) == b;
      OffsetIncreases(e, s, k, if j < k then k else j);
    }
    if offset > Size(e, s) && k < |s| {
      OffsetIncreases(e, s, k, |s|);
      assert false;
    }
  }

  /** There and back: any offset becomes the least boundary not below it, so boundaries come back unchanged. */
  lemma ConvertRoundTrip(e: Encoding, other: Encoding, s: string, offset: nat)
    ensures IsRoundedUp(e, s, offset, Convert(other, e, s, Convert(e, other, s, offset)))
    ensures Convert(other, e, s, Convert(e, other, s, offset)) == offset <==> IsBoundary(e, s, offset)
  {
    var k := Index(e, s, offset);
    IndexOfOffset(other, s, k);
    RoundedUp(e, s, offset);
    if IsBoundary(e, s, offset) {
      var j :| 0 <= j <= |s| && Offset(e, s, j) == offset;
      IndexOfOffset(e, s, j);
    }
  }

  /** A boundary has one character index, and slicing there splits the text. */
  lemma BoundaryIndex(e: Encoding, s: string, offset: nat)
    requires IsBoundary(e, s, offset)
    ensures Offset(e, s, Index(e, s, offset)) == offset
    ensures Size(e, s[..Index(e, s, offset)]) == offset && Size(e, s[Index(e, s, offset)..]) == Size(e, s) - offset
    ensures offset <= Size(e, s)
  {
    var j :| 0 <= j <= |s| && Offset(e, s, j) == offset;
    IndexOfOffset(e, s, j);
    assert s == s[..j] + s[j..];
    SizeConcat(e, s[..j], s[j..]);
  }

  // ---------------------------------------------------------------- the loops of the source

  method OffsetFromUtf16(content: string, offset: nat) returns (utf8Offset: nat)
    ensures utf8Offset == Convert(Utf16, Utf8, content, offset)
  {
    utf8Offset := 0;
    var utf16Count := 0;
    var i := 0;
    OffsetOfEnd(Utf8, content);
    OffsetOfEnd(Utf16, content);
    while i < |content|
      invariant i <= |content|
      invariant utf8Offset == Offset(Utf8, content, i) && utf16Count == Offset(Utf16, content, i)
      invariant IndexFrom(Utf16, content, offset, i) == Index(Utf16, content, offset)
    {
      if utf16Count >= offset {
        break;
      }
      var ch := content[i];
      OffsetStep(Utf8, content, i);
      OffsetStep(Utf16, content, i);
      utf16Count := utf16Count + Width(Utf16, ch);
      utf8Offset := utf8Offset + Width(Utf8, ch);
      i := i + 1;
    }
  }

  method OffsetToUtf16(content: string, offset: nat) returns (utf16Offset: nat)
    ensures utf16Offset == Convert(Utf8, Utf16, content, offset)
  {
    utf16Offset := 0;
    var utf8Count := 0;
    var i := 0;
    OffsetOfEnd(Utf8, content);
    OffsetOfEnd(Utf16, content);
    while i < |content|
      invariant i <= |content|
      invariant utf8Count == Offset(Utf8, content, i) && utf16Offset == Offset(Utf16, content, i)
      invariant IndexFrom(Utf8, content, offset, i) == Index(Utf8, content, offset)
    {
      if utf8Count >= offset {
        break;
      }
      var ch := content[i];
      OffsetStep(Utf8, content, i);
      OffsetStep(Utf16, content, i);
      utf8Count := utf8Count + Width(Utf8, ch);
      utf16Offset := utf16Offset + Width(Utf16, ch);
      i := i + 1;
    }
  }
}
