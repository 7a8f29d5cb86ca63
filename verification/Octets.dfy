/**
 Byte strings and the string operations the HTTP code relies on.

 A byte is a character with code below 256, so that literals read as in the program. A `str` is
 represented by its UTF-8 bytes, which is what it is in memory; every pattern the program searches
 for is ASCII, so searching and splitting bytes is searching and splitting text.
 */
module Octets {
  import opened Errors

  type byte = c: char | c as int < 256
  type Bytes = seq<byte>

  type u16 = n: nat | n < 0x1_0000

  const CRLF: Bytes := "\r\n"
  const MARKER: Bytes := "\r\n\r\n"

  // ----- searching

  /** `pat` occurs in `s` at offset `i`. */
  predicate At(s: Bytes, pat: Bytes, i: nat) {
    i + |pat| <= |s| && s[i..i + |pat|] == pat
  }

  /** The first occurrence of `pat` at or after `i`. */
  function FindFrom(s: Bytes, pat: Bytes, i: nat): (r: Option<nat>)
    requires i <= |s|
    ensures r.Some? ==> i <= r.value && r.value + |pat| <= |s|
    decreases |s| - i
  {
    if At(s, pat, i) then Some(i)
    else if i == |s| then None
    else FindFrom(s, pat, i + 1)
  }

  function Find(s: Bytes, pat: Bytes): (r: Option<nat>)
    ensures r.Some? ==> r.value + |pat| <= |s|
  {
    FindFrom(s, pat, 0)
  }

  /** `h` is where `pat` occurs in `s` for the first time, or `None` when it does not occur. */
  predicate IsFirst(s: Bytes, pat: Bytes, h: Option<nat>) {
    && (h.Some? ==> At(s, pat, h.value) && forall j :: 0 <= j < h.value ==> !At(s, pat, j))
    && (h.None? ==> forall j :: 0 <= j <= |s| ==> !At(s, pat, j))
  }

  lemma {:induction false} FindFromFirst(s: Bytes, pat: Bytes, i: nat)
    requires i <= |s|
    requires forall j :: 0 <= j < i ==> !At(s, pat, j)
    ensures IsFirst(s, pat, FindFrom(s, pat, i))
    decreases |s| - i
  {
    if !At(s, pat, i) && i < |s| {
      FindFromFirst(s, pat, i + 1);
    }
  }

  /** `Find` is the first occurrence, and nothing else is. */
  lemma FindIsFirst(s: Bytes, pat: Bytes, h: Option<nat>)
    ensures IsFirst(s, pat, h) <==> Find(s, pat) == h
  {
    FindFromFirst(s, pat, 0);
  }

  /** Whether a match fits in a prefix of the text is only a matter of length. */
  lemma AtPrefix(s: Bytes, t: Bytes, pat: Bytes, i: nat)
    ensures At(s, pat, i) <==> At(s + t, pat, i) && i + |pat| <= |s|
  {
    if i + |pat| <= |s| {
      assert (s + t)[i..i + |pat|] == s[i..i + |pat|];
    }
  }

  /** A match in a suffix is a match in the whole text, further on. */
  lemma AtSuffix(s: Bytes, pat: Bytes, k: nat, i: nat)
    requires k <= |s|
    ensures At(s[k..], pat, i) <==> At(s, pat, k + i)
  {
    if k + i + |pat| <= |s| {
      assert s[k..][i..i + |pat|] == s[k + i..k + i + |pat|];
    }
  }

  /** Searching a prefix finds what searching the whole text finds, or nothing yet. */
  lemma FindPrefix(s: Bytes, t: Bytes, pat: Bytes)
    ensures Find(s, pat) == match Find(s + t, pat)
                            case Some(h) => if h + |pat| <= |s| then Some(h) else None
                            case None => None
  {
    forall i: nat {
      AtPrefix(s, t, pat, i);
    }
    var h := Find(s + t, pat);
    FindIsFirst(s + t, pat, h);
    FindIsFirst(s, pat, if h.Some? && h.value + |pat| <= |s| then h else None);
  }

  /** Cutting before the first occurrence of a one-byte pattern leaves none. */
  lemma CutBefore(s: Bytes, pat: Bytes)
    requires |pat| == 1 && Find(s, pat).Some?
    ensures s[Find(s, pat).value] == pat[0] && Find(s[..Find(s, pat).value], pat).None?
  {
    var h := Find(s, pat).value;
    FindIsFirst(s, pat, Some(h));
    assert s[h..h + 1][0] == s[h];
    assert s == s[..h] + s[h..];
    FindPrefix(s[..h], s[h..], pat);
  }

  // ----- splitting

  /** All the pieces of `s` between non-overlapping occurrences of `pat`, left to right. */
  function Split(s: Bytes, pat: Bytes): (r: seq<Bytes>)
    requires pat != []
    ensures r != []
    decreases |s|
  {
    match Find(s, pat)
    case None => [s]
    case Some(i) => [s[..i]] + Split(s[i + |pat|..], pat)
  }

  /** The text before and after the first occurrence of `pat`. */
  function SplitOnce(s: Bytes, pat: Bytes): Option<(Bytes, Bytes)> {
    match Find(s, pat)
    case None => None
    case Some(i) => Some((s[..i], s[i + |pat|..]))
  }

  function Join(pieces: seq<Bytes>, pat: Bytes): Bytes
    requires pieces != []
  {
    if |pieces| == 1 then pieces[0] else pieces[0] + pat + Join(pieces[1..], pat)
  }

  /** `piece` can stand before a separator without the separator matching any earlier. */
  predicate Clean(piece: Bytes, pat: Bytes) {
    Find(piece + pat, pat) == Some(|piece|)
  }

  lemma CleanFirst(piece: Bytes, pat: Bytes, rest: Bytes)
    requires Clean(piece, pat)
    ensures Find(piece + pat + rest, pat) == Some(|piece|)
  {
    FindIsFirst(piece + pat, pat, Some(|piece|));
    forall i: nat {
      AtPrefix(piece + pat, rest, pat, i);
    }
    FindIsFirst(piece + pat + rest, pat, Some(|piece|));
  }

  /** Splitting loses nothing, and leaves no separator inside a piece. */
  lemma {:induction false} SplitInverse(s: Bytes, pat: Bytes)
    requires pat != []
    ensures Join(Split(s, pat), pat) == s
    ensures forall i :: 0 <= i < |Split(s, pat)| ==> Find(Split(s, pat)[i], pat).None?
    decreases |s|
  {
    match Find(s, pat)
    case None =>
    case Some(i) =>
      FindIsFirst(s, pat, Some(i));
      var rest := Split(s[i + |pat|..], pat);
      SplitInverse(s[i + |pat|..], pat);
      assert s == s[..i] + pat + s[i + |pat|..];
      assert s == s[..i] + s[i..];
      FindPrefix(s[..i], s[i..], pat);
      assert Split(s, pat)[1..] == rest;
  }

  lemma SplitCons(piece: Bytes, pat: Bytes, rest: Bytes)
    requires pat != [] && Clean(piece, pat)
    ensures Split(piece + pat + rest, pat) == [piece] + Split(rest, pat)
    ensures SplitOnce(piece + pat + rest, pat) == Some((piece, rest))
  {
    CleanFirst(piece, pat, rest);
    var s := piece + pat + rest;
    assert s[..|piece|] == piece && s[|piece| + |pat|..] == rest;
  }

  /** Joining clean pieces and splitting again gives the pieces back. */
  lemma {:induction false} JoinInverse(pieces: seq<Bytes>, pat: Bytes)
    requires pieces != [] && pat != []
    requires forall i :: 0 <= i < |pieces| - 1 ==> Clean(pieces[i], pat)
    requires Find(pieces[|pieces| - 1], pat).None?
    ensures Split(Join(pieces, pat), pat) == pieces
  {
    if |pieces| > 1 {
      JoinInverse(pieces[1..], pat);
      SplitCons(pieces[0], pat, Join(pieces[1..], pat));
    }
  }

  // ----- ASCII case and white space

  function Lower(c: byte): byte {
    if 'A' <= c <= 'Z' then (c as int + 32) as char else c
  }

  predicate EqIgnoreCase(a: Bytes, b: Bytes) {
    |a| == |b| && forall i :: 0 <= i < |a| ==> Lower(a[i]) == Lower(b[i])
  }

  /** Two bytes agree up to case when they are the same or the two cases of one ASCII letter. */
  lemma CaseExact(a: byte, b: byte)
    ensures Lower(a) == Lower(b) <==>
              || a == b
              || ('A' <= a <= 'Z' && b as int == a as int + 32) || ('A' <= b <= 'Z' && a as int == b as int + 32)
  {
  }

  predicate In(c: byte, lo: int, hi: int) {
    lo <= c as int <= hi
  }

  // The Unicode White_Space characters, by the length of their encoding.

  predicate Space1(a: byte) {
    '\t' <= a <= '\r' || a == ' '
  }

  predicate Space2(a: byte, b: byte) {
    In(a, 0xC2, 0xC2) && (In(b, 0x85, 0x85) || In(b, 0xA0, 0xA0))
  }

  predicate Space3(a: byte, b: byte, c: byte) {
    || (In(a, 0xE1, 0xE1) && In(b, 0x9A, 0x9A) && In(c, 0x80, 0x80))
    || (In(a, 0xE2, 0xE2) && In(b, 0x80, 0x80) && (In(c, 0x80, 0x8A) || In(c, 0xA8, 0xA9) || In(c, 0xAF, 0xAF)))
    || (In(a, 0xE2, 0xE2) && In(b, 0x81, 0x81) && In(c, 0x9F, 0x9F))
    || (In(a, 0xE3, 0xE3) && In(b, 0x80, 0x80) && In(c, 0x80, 0x80))
  }

  /** Length of the white-space character `s` starts with, or 0. */
  function LeadingSpace(s: Bytes): (n: nat)
    ensures n <= |s|
  {
    if |s| >= 1 && Space1(s[0]) then 1
    else if |s| >= 2 && Space2(s[0], s[1]) then 2
    else if |s| >= 3 && Space3(s[0], s[1], s[2]) then 3
    else 0
  }

  /** Length of the white-space character `s` ends with, or 0. */
  function TrailingSpace(s: Bytes): (n: nat)
    ensures n <= |s|
  {
    var k := |s|;
    if k >= 1 && Space1(s[k - 1]) then 1
    else if k >= 2 && Space2(s[k - 2], s[k - 1]) then 2
    else if k >= 3 && Space3(s[k - 3], s[k - 2], s[k - 1]) then 3
    else 0
  }

  function TrimStart(s: Bytes): (r: Bytes)
    ensures LeadingSpace(r) == 0
    decreases |s|
  {
    var n := LeadingSpace(s);
    if n == 0 then s else TrimStart(s[n..])
  }

  function TrimEnd(s: Bytes): (r: Bytes)
    ensures r <= s && TrailingSpace(r) == 0
    decreases |s|
  {
    var n := TrailingSpace(s);
    if n == 0 then s else TrimEnd(s[..|s| - n])
  }

  function Trim(s: Bytes): Bytes {
    TrimEnd(TrimStart(s))
  }

  /** White-space characters only. */
  predicate Blank(s: Bytes)
    decreases |s|
  {
    s == [] || (LeadingSpace(s) > 0 && Blank(s[LeadingSpace(s)..]))
  }

  lemma {:induction false} BlankConcat(a: Bytes, b: Bytes)
    requires Blank(a) && Blank(b)
    ensures Blank(a + b)
    decreases |a|
  {
    if a == [] {
      assert a + b == b;
    } else {
      var n := LeadingSpace(a);
      BlankConcat(a[n..], b);
      LeadingSpacePrefix(a, b);
      TailOfConcat(a, b, n);
      BlankFrom(a + b, n);
    }
  }

  lemma TailOfConcat(a: Bytes, b: Bytes, n: nat)
    requires n <= |a|
    ensures (a + b)[n..] == a[n..] + b
  {
  }

  lemma BlankFrom(s: Bytes, n: nat)
    requires n == LeadingSpace(s) > 0 && Blank(s[n..])
    ensures Blank(s)
  {
  }

  lemma LeadingSpacePrefix(a: Bytes, b: Bytes)
    ensures LeadingSpace(a) > 0 ==> LeadingSpace(a + b) == LeadingSpace(a)
  {
  }

  lemma {:induction false} TrimStartExact(s: Bytes) returns (k: nat)
    ensures k <= |s| && TrimStart(s) == s[k..] && Blank(s[..k])
    decreases |s|
  {
    var n := LeadingSpace(s);
    if n == 0 {
      k := 0;
    } else {
      k := TrimStartExact(s[n..]);
      FirstIsBlank(s);
      BlankFront(s, n, k);
      k := n + k;
    }
  }

  lemma BlankFront(s: Bytes, n: nat, m: nat)
    requires n + m <= |s| && Blank(s[..n]) && Blank(s[n..][..m])
    ensures Blank(s[..n + m]) && s[n..][m..] == s[n + m..]
  {
    assert s[..n + m] == s[..n] + s[n..][..m];
    BlankConcat(s[..n], s[n..][..m]);
  }

  lemma BlankBack(s: Bytes, n: nat, m: nat)
    requires n <= m <= |s| && Blank(s[..m][n..]) && Blank(s[m..])
    ensures Blank(s[n..])
  {
    assert s[n..] == s[..m][n..] + s[m..];
    BlankConcat(s[..m][n..], s[m..]);
  }

  lemma FirstIsBlank(s: Bytes)
    requires LeadingSpace(s) > 0
    ensures Blank(s[..LeadingSpace(s)])
  {
    var t := s[..LeadingSpace(s)];
    assert LeadingSpace(t) == |t| && t[|t|..] == [];
  }

  lemma LastIsBlank(s: Bytes)
    requires TrailingSpace(s) > 0
    ensures Blank(s[|s| - TrailingSpace(s)..])
  {
    var t := s[|s| - TrailingSpace(s)..];
    assert LeadingSpace(t) == |t| && t[|t|..] == [];
  }

  lemma {:induction false} TrimEndExact(s: Bytes)
    ensures Blank(s[|TrimEnd(s)|..])
    decreases |s|
  {
    var n := TrailingSpace(s);
    if n == 0 {
      NothingLeft(s);
    } else {
      TrimEndExact(s[..|s| - n]);
      BlankMore(s, n, |TrimEnd(s[..|s| - n])|);
    }
  }

  lemma BlankMore(s: Bytes, n: nat, k: nat)
    requires n == TrailingSpace(s) > 0 && k <= |s| - n && Blank(s[..|s| - n][k..])
    ensures Blank(s[k..])
  {
    LastIsBlank(s);
    BlankBack(s, k, |s| - n);
  }

  lemma NothingLeft(s: Bytes)
    ensures Blank(s[|s|..])
  {
    assert s[|s|..] == [];
  }

  /** Trimming cuts white space off both ends, all of it and nothing else. */
  lemma TrimExact(s: Bytes) returns (i: nat, j: nat)
    ensures i <= j <= |s| && Trim(s) == s[i..j]
    ensures Blank(s[..i]) && Blank(s[j..])
    ensures LeadingSpace(Trim(s)) == 0 && TrailingSpace(Trim(s)) == 0
  {
    i := TrimStartExact(s);
    TrimEndExact(s[i..]);
    j := Cut(s, TrimStart(s), Trim(s), i);
  }

  lemma Cut(s: Bytes, t: Bytes, r: Bytes, i: nat) returns (j: nat)
    requires i <= |s| && t == s[i..] && r <= t && LeadingSpace(t) == 0 && Blank(t[|r|..])
    ensures i <= j <= |s| && r == s[i..j] && LeadingSpace(r) == 0 && Blank(s[j..])
  {
    j := i + |r|;
    CutParts(s, i, |r|);
    PrefixNotBlank(t, |r|);
  }

  lemma CutParts(s: Bytes, i: nat, k: nat)
    requires i + k <= |s|
    ensures s[i..][..k] == s[i..i + k] && s[i..][k..] == s[i + k..]
  {
  }

  lemma PrefixNotBlank(s: Bytes, k: nat)
    requires k <= |s| && LeadingSpace(s) == 0
    ensures LeadingSpace(s[..k]) == 0
  {
    LeadingSpacePrefix(s[..k], s[k..]);
    assert s == s[..k] + s[k..];
  }

  lemma TrimLeadingBlank(s: Bytes)
    ensures Trim(" " + s) == Trim(s)
  {
    assert (" " + s)[1..] == s;
  }

  // ----- C strings

  /** The string can be passed to C: it has no interior NUL. */
  predicate CString(s: Bytes) {
    forall i :: 0 <= i < |s| ==> s[i] != '\0'
  }

  const BAD_STRING := InvalidInput("string contains an interior NUL byte")

  // ----- decimal numbers

  const USIZE_LIMIT: nat := 0x1_0000_0000_0000_0000

  predicate IsDigit(c: byte) {
    '0' <= c <= '9'
  }

  predicate Digits(s: Bytes) {
    forall i :: 0 <= i < |s| ==> IsDigit(s[i])
  }

  function DigitsValue(s: Bytes): nat
    requires Digits(s)
  {
    if s == [] then 0
    else 10 * DigitsValue(s[..|s| - 1]) + (s[|s| - 1] as int - '0' as int)
  }

  /** `str::parse::<usize>` on a 64-bit target: an optional plus sign, then digits that fit. */
  function ParseUsize(s: Bytes): Option<nat> {
    var digits := if s != [] && s[0] == '+' then s[1..] else s;
    if digits != [] && Digits(digits) && DigitsValue(digits) < USIZE_LIMIT
    then Some(DigitsValue(digits))
    else None
  }

  /** `Display` of an unsigned integer. */
  function Decimal(n: nat): (s: Bytes)
    ensures s != [] && Digits(s)
  {
    var last := ['0' + (n % 10) as char];
    if n < 10 then last else Decimal(n / 10) + last
  }

  lemma {:induction false} DecimalValue(n: nat)
    ensures DigitsValue(Decimal(n)) == n
  {
    if n >= 10 {
      DecimalValue(n / 10);
      assert Decimal(n)[..|Decimal(n)| - 1] == Decimal(n / 10);
    }
  }

  /** The shortest way of writing a number: no leading zero, except for zero itself. */
  predicate Canonical(s: Bytes) {
    s != [] && Digits(s) && (|s| == 1 || s[0] != '0')
  }

  lemma {:induction false} DecimalCanonical(n: nat)
    ensures Canonical(Decimal(n)) && (n >= 10 ==> |Decimal(n)| > 1)
    ensures n > 0 ==> Decimal(n)[0] != '0'
  {
    if n >= 10 {
      DecimalCanonical(n / 10);
    }
  }

  /** Among the canonical numerals, `Decimal(n)` is the one of value `n`. */
  lemma {:induction false} DecimalExact(s: Bytes, n: nat)
    requires Canonical(s)
    ensures s == Decimal(n) <==> DigitsValue(s) == n
  {
    DecimalValue(n);
    if DigitsValue(s) == n && |s| > 1 {
      var front, last := s[..|s| - 1], s[|s| - 1];
      LeadingDigitCounts(front);
      Shifted(DigitsValue(front), last as int - '0' as int, n);
      DecimalExact(front, n / 10);
      DecimalLast(n, last);
      assert s == front + [last];
    }
  }

  lemma Shifted(v: nat, d: nat, n: nat)
    requires n == 10 * v + d && d < 10
    ensures n / 10 == v && n % 10 == d
  {
  }

  lemma DecimalLast(n: nat, c: byte)
    requires n >= 10 && IsDigit(c) && n % 10 == c as int - '0' as int
    ensures Decimal(n) == Decimal(n / 10) + [c]
  {
  }

  lemma {:induction false} LeadingDigitCounts(s: Bytes)
    requires s != [] && Digits(s) && s[0] != '0'
    ensures DigitsValue(s) > 0
  {
    if |s| > 1 {
      LeadingDigitCounts(s[..|s| - 1]);
    }
  }

  /** A leading zero adds nothing. */
  lemma {:induction false} LeadingZero(s: Bytes)
    requires Digits(s)
    ensures DigitsValue("0" + s) == DigitsValue(s)
  {
    if s == [] {
      assert ("0" + s)[..0] == [];
    } else {
      LeadingZero(s[..|s| - 1]);
      assert ("0" + s)[..|s|] == "0" + s[..|s| - 1];
    }
  }

  /** A number of three digits is printed as its hundreds, tens and units. */
  lemma ThreeDigits(n: nat)
    requires 100 <= n < 1000
    ensures |Decimal(n)| == 3 && n == 100 * (Decimal(n)[0] as int - '0' as int)
                                      + 10 * (Decimal(n)[1] as int - '0' as int) + (Decimal(n)[2] as int - '0' as int)
  {
    assert Decimal(n) == Decimal(n / 10 / 10) + ['0' + (n / 10 % 10) as char] + ['0' + (n % 10) as char];
  }

  /** What is parsed: digits with or without a plus sign, whose value fits in 64 bits; nothing else. */
  lemma ParseExact(s: Bytes, n: nat)
    ensures ParseUsize(s) == Some(n) <==>
              n < USIZE_LIMIT
              && exists d: Bytes :: d != [] && Digits(d) && DigitsValue(d) == n && (s == d || s == "+" + d)
  {
    if ParseUsize(s) == Some(n) {
      var d := if s[0] == '+' then s[1..] else s;
      assert s == d || s == "+" + d;
    }
    if d: Bytes :| d != [] && Digits(d) && DigitsValue(d) == n && (s == d || s == "+" + d) {
      assert IsDigit(d[0]);
      assert ("+" + d)[1..] == d;
    }
  }

  /** Printing and parsing a `usize` are inverse, also through a trim. */
  lemma ParsePrinted(n: nat)
    requires n < USIZE_LIMIT
    ensures ParseUsize(Trim(Decimal(n))) == Some(n)
  {
    var s := Decimal(n);
    DecimalValue(n);
    assert IsDigit(s[0]) && IsDigit(s[|s| - 1]);
    PlainTrim(s);
  }

  /** Printable ASCII at both ends is left alone by trimming. */
  lemma PlainTrim(s: Bytes)
    requires s != [] ==> '!' <= s[0] <= '~' && '!' <= s[|s| - 1] <= '~'
    ensures Trim(s) == s
  {
  }

  lemma TrimTrailingBlank(s: Bytes)
    requires s != [] && '!' <= s[0] <= '~' && '!' <= s[|s| - 1] <= '~'
    ensures Trim(s + " ") == s
  {
    var t := s + " ";
    assert TrimStart(t) == t;
    assert TrailingSpace(t) == 1 && t[..|t| - 1] == s;
    PlainTrim(s);
  }

  // ----- UTF-8 well-formedness (RFC 3629)

  /** Length of the well-formed character `s` starts with, or 0. */
  function CharLength(s: Bytes): (n: nat)
    ensures n <= |s|
  {
    if |s| >= 1 && In(s[0], 0x00, 0x7F) then 1
    else if |s| >= 2 && In(s[0], 0xC2, 0xDF) && In(s[1], 0x80, 0xBF) then 2
    else if |s| >= 3 && In(s[2], 0x80, 0xBF)
         && ((In(s[0], 0xE0, 0xE0) && In(s[1], 0xA0, 0xBF))
          || (In(s[0], 0xE1, 0xEC) && In(s[1], 0x80, 0xBF))
          || (In(s[0], 0xED, 0xED) && In(s[1], 0x80, 0x9F))
          || (In(s[0], 0xEE, 0xEF) && In(s[1], 0x80, 0xBF))) then 3
    else if |s| >= 4 && In(s[2], 0x80, 0xBF) && In(s[3], 0x80, 0xBF)
         && ((In(s[0], 0xF0, 0xF0) && In(s[1], 0x90, 0xBF))
          || (In(s[0], 0xF1, 0xF3) && In(s[1], 0x80, 0xBF))
          || (In(s[0], 0xF4, 0xF4) && In(s[1], 0x80, 0x8F))) then 4
    else 0
  }

  /** `core::str::from_utf8` succeeds. */
  predicate ValidUtf8(s: Bytes)
    decreases |s|
  {
    s == [] || (CharLength(s) > 0 && ValidUtf8(s[CharLength(s)..]))
  }

  lemma CharLengthPrefix(a: Bytes, b: Bytes)
    requires CharLength(a) > 0
    ensures CharLength(a + b) == CharLength(a)
  {
  }

  lemma {:induction false} Utf8Concat(a: Bytes, b: Bytes)
    requires ValidUtf8(a) && ValidUtf8(b)
    ensures ValidUtf8(a + b)
    decreases |a|
  {
    if a == [] {
      assert a + b == b;
    } else {
      var n := CharLength(a);
      Utf8Concat(a[n..], b);
      CharLengthPrefix(a, b);
      TailOfConcat(a, b, n);
      ValidFrom(a + b, n);
    }
  }

  lemma ValidFrom(s: Bytes, n: nat)
    requires n == CharLength(s) > 0 && ValidUtf8(s[n..])
    ensures ValidUtf8(s)
  {
  }

  lemma {:induction false} Utf8Ascii(s: Bytes)
    requires forall i :: 0 <= i < |s| ==> In(s[i], 0, 0x7F)
    ensures ValidUtf8(s)
  {
    if s != [] {
      Utf8Ascii(s[1..]);
    }
  }

  /** A byte that can only start a character does so in well-formed text. */
  lemma {:induction false} CharBoundary(s: Bytes, p: nat)
    requires ValidUtf8(s) && p < |s| && !In(s[p], 0x80, 0xBF)
    ensures ValidUtf8(s[..p]) && ValidUtf8(s[p..])
    decreases |s|
  {
    var n := CharLength(s);
    if p == 0 {
      assert s[..0] == [] && s[0..] == s;
    } else {
      NoMiddle(s, p);
      var t := s[n..];
      assert t[p - n] == s[p];
      CharBoundary(t, p - n);
      OneChar(s);
      Rejoined(s, n, p);
    }
  }

  lemma Rejoined(s: Bytes, n: nat, p: nat)
    requires n <= p <= |s| && ValidUtf8(s[..n])
    requires ValidUtf8(s[n..][..p - n]) && ValidUtf8(s[n..][p - n..])
    ensures ValidUtf8(s[..p]) && ValidUtf8(s[p..])
  {
    SuffixParts(s, n, p);
    Utf8Concat(s[..n], s[n..][..p - n]);
  }

  /** The bytes of a character after its first are continuation bytes. */
  lemma NoMiddle(s: Bytes, p: nat)
    requires CharLength(s) > 0 && 0 < p < |s| && !In(s[p], 0x80, 0xBF)
    ensures CharLength(s) <= p
  {
  }

  lemma SuffixParts(s: Bytes, n: nat, p: nat)
    requires n <= p <= |s|
    ensures s[p..] == s[n..][p - n..] && s[..p] == s[..n] + s[n..][..p - n]
  {
  }

  lemma OneChar(s: Bytes)
    requires CharLength(s) > 0
    ensures ValidUtf8(s[..CharLength(s)])
  {
    var n := CharLength(s);
    assert CharLength(s[..n]) == n;
    assert s[..n][n..] == [];
  }

  lemma {:induction false} TrimStartKeepsUtf8(s: Bytes)
    requires ValidUtf8(s)
    ensures ValidUtf8(TrimStart(s))
    decreases |s|
  {
    var n := LeadingSpace(s);
    if n > 0 {
      assert CharLength(s) == n;
      TrimStartKeepsUtf8(s[n..]);
    }
  }

  lemma {:induction false} TrimEndKeepsUtf8(s: Bytes)
    requires ValidUtf8(s)
    ensures ValidUtf8(TrimEnd(s))
    decreases |s|
  {
    var n := TrailingSpace(s);
    if n > 0 {
      CharBoundary(s, |s| - n);
      TrimEndKeepsUtf8(s[..|s| - n]);
    }
  }

  /** Trimming bytes removes whole characters: what is left of well-formed text is well formed. */
  lemma TrimKeepsUtf8(s: Bytes)
    requires ValidUtf8(s)
    ensures ValidUtf8(Trim(s))
  {
    TrimStartKeepsUtf8(s);
    TrimEndKeepsUtf8(TrimStart(s));
  }
}
