/**
 What the byte-level rules of `Octets` mean in terms of characters: UTF-8 as the encoding of
 sequences of Unicode scalar values, and white space as a list of code points.
 */
module Utf8 {
  import opened Octets

  /** A Unicode scalar value: a code point that is not a surrogate. */
  predicate Scalar(c: int) {
    0 <= c < 0xD800 || 0xE000 <= c < 0x11_0000
  }

  function Byte(n: int): byte
    requires 0 <= n < 256
  {
    n as char
  }

  /** A continuation byte carrying six bits. */
  function Tail(n: int): byte
    requires n >= 0
  {
    Byte(0x80 + n % 0x40)
  }

  /** The encoding of section 3 of RFC 3629. */
  function Encode(c: int): Bytes
    requires Scalar(c)
  {
    if c < 0x80 then [Byte(c)]
    else if c < 0x800 then [Byte(0xC0 + c / 0x40), Tail(c)]
    else if c < 0x1_0000 then [Byte(0xE0 + c / 0x1000), Tail(c / 0x40), Tail(c)]
    else [Byte(0xF0 + c / 0x4_0000), Tail(c / 0x1000), Tail(c / 0x40), Tail(c)]
  }

  function EncodeAll(text: seq<int>): Bytes
    requires forall i :: 0 <= i < |text| ==> Scalar(text[i])
  {
    if text == [] then [] else Encode(text[0]) + EncodeAll(text[1..])
  }

  /** The number in a byte's low bits. */
  function Bits(b: byte, lead: int): int {
    b as int - lead
  }

  /** The scalar value a well-formed first character encodes. */
  function First(s: Bytes): int
    requires CharLength(s) > 0
  {
    match CharLength(s)
    case 1 => s[0] as int
    case 2 => Bits(s[0], 0xC0) * 0x40 + Bits(s[1], 0x80)
    case 3 => Bits(s[0], 0xE0) * 0x1000 + Bits(s[1], 0x80) * 0x40 + Bits(s[2], 0x80)
    case _ => Bits(s[0], 0xF0) * 0x4_0000 + Bits(s[1], 0x80) * 0x1000 + Bits(s[2], 0x80) * 0x40 + Bits(s[3], 0x80)
  }

  lemma SixBits(a: int, b: int)
    requires 0 <= b < 0x40
    ensures (a * 0x40 + b) / 0x40 == a && (a * 0x40 + b) % 0x40 == b
  {
  }

  lemma TwelveBits(v: int, a: int, b: int, c: int)
    requires 0 <= b < 0x40 && 0 <= c < 0x40 && v == a * 0x1000 + b * 0x40 + c
    ensures v / 0x1000 == a && v / 0x40 % 0x40 == b && v % 0x40 == c
  {
    SixBits(a, b);
    SixBits(a * 0x40 + b, c);
  }

  lemma EighteenBits(v: int, a: int, b: int, c: int, d: int)
    requires 0 <= b < 0x40 && 0 <= c < 0x40 && 0 <= d < 0x40
    requires v == a * 0x4_0000 + b * 0x1000 + c * 0x40 + d
    ensures v / 0x4_0000 == a && v / 0x1000 % 0x40 == b && v / 0x40 % 0x40 == c && v % 0x40 == d
  {
    TwelveBits(a * 0x1000 + b * 0x40 + c, a, b, c);
    SixBits(a * 0x1000 + b * 0x40 + c, d);
  }

  lemma FirstOfTwo(s: Bytes)
    requires CharLength(s) == 2
    ensures Scalar(First(s)) && Encode(First(s)) == s[..2]
  {
    SixBits(Bits(s[0], 0xC0), Bits(s[1], 0x80));
  }

  lemma FirstOfThree(s: Bytes)
    requires CharLength(s) == 3
    ensures Scalar(First(s)) && Encode(First(s)) == s[..3]
  {
    TwelveBits(First(s), Bits(s[0], 0xE0), Bits(s[1], 0x80), Bits(s[2], 0x80));
  }

  lemma FirstOfFour(s: Bytes)
    requires CharLength(s) == 4
    ensures Scalar(First(s)) && Encode(First(s)) == s[..4]
  {
    EighteenBits(First(s), Bits(s[0], 0xF0), Bits(s[1], 0x80), Bits(s[2], 0x80), Bits(s[3], 0x80));
  }

  /** A well-formed first character is the encoding of its scalar value. */
  lemma FirstEncoded(s: Bytes)
    requires CharLength(s) > 0
    ensures Scalar(First(s)) && Encode(First(s)) == s[..CharLength(s)]
  {
    match CharLength(s)
    case 1 =>
    case 2 => FirstOfTwo(s);
    case 3 => FirstOfThree(s);
    case _ => FirstOfFour(s);
  }

  /** The encoding of a scalar value is one well-formed character, whatever follows it. */
  lemma EncodedFirst(c: int, rest: Bytes)
    requires Scalar(c)
    ensures CharLength(Encode(c) + rest) == |Encode(c)|
  {
  }

  /** UTF-8 well-formedness: the text is the encoding of a sequence of scalar values, and nothing else is. */
  lemma {:induction false} ValidIsEncoded(s: Bytes) returns (text: seq<int>)
    requires ValidUtf8(s)
    ensures forall i :: 0 <= i < |text| ==> Scalar(text[i])
    ensures EncodeAll(text) == s
    decreases |s|
  {
    if s == [] {
      text := [];
    } else {
      var n := CharLength(s);
      FirstEncoded(s);
      var rest := ValidIsEncoded(s[n..]);
      text := [First(s)] + rest;
      assert text[1..] == rest && s == s[..n] + s[n..];
    }
  }

  lemma {:induction false} EncodedIsValid(text: seq<int>)
    requires forall i :: 0 <= i < |text| ==> Scalar(text[i])
    ensures ValidUtf8(EncodeAll(text))
  {
    if text != [] {
      EncodedIsValid(text[1..]);
      var c, rest := Encode(text[0]), EncodeAll(text[1..]);
      EncodedFirst(text[0], rest);
      assert (c + rest)[|c|..] == rest;
    }
  }

  // ----- white space

  /** The code points with the Unicode property White_Space. */
  predicate WhiteSpace(c: int) {
    || 0x09 <= c <= 0x0D || c == 0x20 || c == 0x85 || c == 0xA0 || c == 0x1680
    || 0x2000 <= c <= 0x200A || c == 0x2028 || c == 0x2029 || c == 0x202F || c == 0x205F || c == 0x3000
  }

  /** The bytes trimmed from the front are the encodings of white-space characters. */
  lemma LeadingSpaceExact(s: Bytes)
    ensures LeadingSpace(s) > 0 <==> CharLength(s) > 0 && WhiteSpace(First(s))
    ensures LeadingSpace(s) > 0 ==> LeadingSpace(s) == CharLength(s)
  {
  }

  /** The encoding of a white-space character, by its length. */
  lemma SpaceBytes(c: int)
    requires WhiteSpace(c)
    ensures Scalar(c)
    ensures var e := Encode(c);
            || (|e| == 1 && Space1(e[0])) || (|e| == 2 && Space2(e[0], e[1]))
            || (|e| == 3 && Space3(e[0], e[1], e[2]))
  {
  }

  /** The text ends with the character. */
  predicate EndsWith(s: Bytes, c: int) {
    Scalar(c) && |Encode(c)| <= |s| && s[|s| - |Encode(c)|..] == Encode(c)
  }

  /** The same at the end of the text. */
  lemma TrailingSpaceExact(s: Bytes)
    ensures TrailingSpace(s) > 0 <==> exists c :: WhiteSpace(c) && EndsWith(s, c)
  {
    if TrailingSpace(s) > 0 {
      EndsInSpace(s);
    }
    if c :| WhiteSpace(c) && EndsWith(s, c) {
      SpaceBytes(c);
      TrailingBytes(s, Encode(c));
    }
  }

  lemma TrailingBytes(s: Bytes, e: Bytes)
    requires |e| <= |s| && s[|s| - |e|..] == e
    requires || (|e| == 1 && Space1(e[0])) || (|e| == 2 && Space2(e[0], e[1]))
             || (|e| == 3 && Space3(e[0], e[1], e[2]))
    ensures TrailingSpace(s) > 0
  {
    assert forall i :: 0 <= i < |e| ==> e[i] == s[|s| - |e| + i];
  }

  lemma EndsInSpace(s: Bytes)
    requires TrailingSpace(s) > 0
    ensures exists c :: WhiteSpace(c) && EndsWith(s, c)
  {
    var t := s[|s| - TrailingSpace(s)..];
    AloneIsSpace(s, t);
    var c := SpaceOf(t);
    assert WhiteSpace(c) && EndsWith(s, c);
  }

  lemma SpaceOf(t: Bytes) returns (c: int)
    requires LeadingSpace(t) == |t| > 0
    ensures WhiteSpace(c) && Scalar(c) && Encode(c) == t
  {
    c := First(t);
    LeadingSpaceExact(t);
    FirstEncoded(t);
    assert t[..|t|] == t;
  }

  lemma AloneIsSpace(s: Bytes, t: Bytes)
    requires TrailingSpace(s) > 0 && t == s[|s| - TrailingSpace(s)..]
    ensures LeadingSpace(t) == |t|
  {
  }
}
