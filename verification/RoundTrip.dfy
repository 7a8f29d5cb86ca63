/** The response printer and the request reader are inverse, under any segmentation. */
module RoundTrip {
  import opened Errors
  import opened Octets
  import opened Sockets
  import opened HttpMessage
  import opened HttpReader
  import opened Segmentation

  predicate OneLine(s: Bytes) {
    forall i :: 0 <= i < |s| ==> s[i] != '\r' && s[i] != '\n'
  }

  predicate NoColon(s: Bytes) {
    forall i :: 0 <= i < |s| ==> s[i] != ':'
  }

  /** Header text that stays on its line: no line breaks, no colon in the name. */
  predicate WireSafe(headers: seq<Header>) {
    forall i :: 0 <= i < |headers| ==> SafeHeader(headers[i])
  }

  predicate SafeHeader(h: Header) {
    && OneLine(h.name) && NoColon(h.name) && OneLine(h.value)
    && ValidUtf8(h.name) && ValidUtf8(h.value)
  }

  function Trimmed(headers: seq<Header>): (r: seq<Header>)
    ensures |r| == |headers|
  {
    if headers == [] then []
    else
      var h := headers[|headers| - 1];
      Trimmed(headers[..|headers| - 1]) + [TrimHeader(h)]
  }

  function TrimHeader(h: Header): Header {
    Header(Trim(h.name), Trim(h.value))
  }

  lemma TrimmedSnoc(headers: seq<Header>, h: Header)
    ensures Trimmed(headers + [h]) == Trimmed(headers) + [TrimHeader(h)]
  {
    assert (headers + [h])[..|headers|] == headers;
  }

  lemma KeptSnoc(headers: seq<Header>, h: Header)
    ensures Kept(headers + [h]) == if Reserved(h.name) then Kept(headers) else Kept(headers) + [h]
  {
    assert (headers + [h])[..|headers|] == headers;
  }

  /** The caller's headers as a reader gets them: printed, then trimmed. */
  function ReadBack(headers: seq<Header>): seq<Header> {
    Trimmed(Kept(headers))
  }

  // ----- the marker comes right after the head

  /** Non-empty lines without line breaks contain no empty line when joined. */
  lemma {:induction false} MarkerAfterLines(lines: seq<Bytes>, rest: Bytes)
    requires lines != [] && forall i :: 0 <= i < |lines| ==> lines[i] != [] && OneLine(lines[i])
    ensures Join(lines, CRLF) != [] && Join(lines, CRLF)[0] == lines[0][0]
    ensures IsFirst(Join(lines, CRLF) + MARKER + rest, MARKER, Some(|Join(lines, CRLF)|))
  {
    if |lines| > 1 {
      MarkerAfterLines(lines[1..], rest);
      MarkerBehindLine(lines[0], Join(lines[1..], CRLF), rest);
    } else {
      MarkerAfterLine(lines[0], rest);
    }
  }

  lemma MarkerAfterLine(line: Bytes, rest: Bytes)
    requires OneLine(line)
    ensures IsFirst(line + MARKER + rest, MARKER, Some(|line|))
  {
    var data := line + MARKER + rest;
    assert data[|line|..|line| + 4] == MARKER;
    forall j: nat | j < |line|
      ensures !At(data, MARKER, j)
    {
      assert data[j] == line[j];
      Mismatch(data, j);
    }
  }

  /** A line put before a text that does not start with a line break does not bring the marker forward. */
  lemma MarkerBehindLine(line: Bytes, tail: Bytes, rest: Bytes)
    requires OneLine(line) && tail != [] && tail[0] != '\r'
    requires IsFirst(tail + MARKER + rest, MARKER, Some(|tail|))
    ensures IsFirst(line + CRLF + tail + MARKER + rest, MARKER, Some(|line + CRLF + tail|))
  {
    var data, k, later := line + CRLF + tail + MARKER + rest, |line| + 2, tail + MARKER + rest;
    assert data == line + CRLF + later;
    assert data[k..] == later;
    forall j: nat | k <= j
      ensures At(data, MARKER, j) <==> At(later, MARKER, j - k)
    {
      AtSuffix(data, MARKER, k, j - k);
    }
    forall j: nat | j < k
      ensures !At(data, MARKER, j)
    {
      assert data[|line| + 1] == '\n' && data[k] == tail[0];
      assert j < |line| ==> data[j] == line[j];
      Mismatch(data, j);
    }
  }

  lemma Mismatch(s: Bytes, j: nat)
    requires j + 2 < |s| && (s[j] != '\r' || s[j + 2] != '\r')
    ensures !At(s, MARKER, j)
  {
    assert j + 4 <= |s| ==> s[j..j + 4][0] == s[j] && s[j..j + 4][2] == s[j + 2];
  }

  // ----- cutting the pieces apart again

  /** A piece without the first byte of the separator is clean. */
  lemma CleanPiece(piece: Bytes, pat: Bytes)
    requires pat != [] && forall i :: 0 <= i < |piece| ==> piece[i] != pat[0]
    ensures Clean(piece, pat) && Find(piece, pat).None?
  {
    var s := piece + pat;
    assert s[|piece|..] == pat;
    forall j: nat | j < |piece|
      ensures !At(s, pat, j)
    {
      assert j + |pat| <= |s| ==> s[j..j + |pat|][0] == piece[j];
    }
    FindIsFirst(s, pat, Some(|piece|));
    FindPrefix(piece, pat, pat);
  }

  lemma LinesComeBack(lines: seq<Bytes>)
    requires lines != [] && forall i :: 0 <= i < |lines| ==> OneLine(lines[i])
    ensures Split(Join(lines, CRLF), CRLF) == lines
  {
    forall i | 0 <= i < |lines|
      ensures Clean(lines[i], CRLF) && Find(lines[i], CRLF).None?
    {
      CleanPiece(lines[i], CRLF);
    }
    JoinInverse(lines, CRLF);
  }

  lemma HeaderComesBack(h: Header)
    requires SafeHeader(h)
    ensures HeaderOf(HeaderLine(h)) == Some(TrimHeader(h))
  {
    CleanPiece(h.name, ":");
    SplitCons(h.name, ":", " " + h.value);
    assert HeaderLine(h) == h.name + ":" + (" " + h.value);
    TrimLeadingBlank(h.value);
  }

  lemma {:induction false} HeadersComeBack(headers: seq<Header>, f: Bytes -> Option<Header>)
    requires forall i :: 0 <= i < |headers| ==> f(HeaderLine(headers[i])) == Some(TrimHeader(headers[i]))
    ensures Gather(HeaderLines(headers), f) == Some(Trimmed(headers))
  {
    if headers != [] {
      var front, last := headers[..|headers| - 1], headers[|headers| - 1];
      HeadersComeBack(front, f);
      assert HeaderLines(headers)[..|front|] == HeaderLines(front);
      assert HeaderLine(last) != [];
    }
  }

  lemma {:induction false} Utf8Join(lines: seq<Bytes>)
    requires lines != [] && forall i :: 0 <= i < |lines| ==> ValidUtf8(lines[i])
    ensures ValidUtf8(Join(lines, CRLF))
  {
    if |lines| > 1 {
      Utf8Join(lines[1..]);
      Utf8Ascii(CRLF);
      Utf8Concat(lines[0], CRLF);
      Utf8Concat(lines[0] + CRLF, Join(lines[1..], CRLF));
    }
  }

  // ----- a head made of a first line and headers

  function Text(first: Bytes, headers: seq<Header>): Bytes {
    Join([first] + HeaderLines(headers), CRLF)
  }

  predicate SafeLine(line: Bytes) {
    line != [] && OneLine(line) && ValidUtf8(line)
  }

  lemma HeaderLineSafe(h: Header)
    requires SafeHeader(h)
    ensures SafeLine(HeaderLine(h))
  {
    Utf8Ascii(": ");
    Utf8Concat(h.name, ": ");
    Utf8Concat(h.name + ": ", h.value);
  }

  lemma LinesSafe(first: Bytes, headers: seq<Header>, lines: seq<Bytes>)
    requires SafeLine(first) && WireSafe(headers) && lines == [first] + HeaderLines(headers)
    ensures forall i :: 0 <= i < |lines| ==> SafeLine(lines[i])
  {
    forall i | 0 <= i < |lines|
      ensures SafeLine(lines[i])
    {
      if i > 0 {
        HeaderLineSafe(headers[i - 1]);
      }
    }
  }

  lemma TextComesBack(first: Bytes, headers: seq<Header>, body: Bytes)
    requires SafeLine(first) && WireSafe(headers)
    ensures var text := Text(first, headers);
            && ValidUtf8(text)
            && Split(text, CRLF) == [first] + HeaderLines(headers)
            && Find(text + MARKER + body, MARKER) == Some(|text|)
  {
    var lines := [first] + HeaderLines(headers);
    LinesSafe(first, headers, lines);
    Utf8Join(lines);
    LinesComeBack(lines);
    MarkerAfterLines(lines, body);
    FindIsFirst(Text(first, headers) + MARKER + body, MARKER, Some(|Text(first, headers)|));
  }

  lemma AllHeadersComeBack(headers: seq<Header>)
    requires WireSafe(headers)
    ensures Gather(HeaderLines(headers), HeaderOf) == Some(Trimmed(headers))
  {
    forall i | 0 <= i < |headers|
      ensures HeaderOf(HeaderLine(headers[i])) == Some(TrimHeader(headers[i]))
    {
      HeaderComesBack(headers[i]);
    }
    HeadersComeBack(headers, HeaderOf);
  }

  lemma HeadComesBack(text: Bytes, first: Bytes, lines: seq<Bytes>, headers: seq<Header>)
    requires Split(text, CRLF) == [first] + lines && |Split(first, " ")| >= 3
    requires Gather(lines, HeaderOf) == Some(headers)
    ensures var w := Split(first, " "); HeadOf(text) == Ok(Head(w[0], w[1], w[2], headers))
  {
    assert ([first] + lines)[1..] == lines;
  }

  // ----- the head of a response

  predicate Ascii(s: Bytes) {
    forall i :: 0 <= i < |s| ==> In(s[i], 0x20, 0x7E)
  }

  lemma AsciiSafe(s: Bytes)
    requires Ascii(s)
    ensures OneLine(s) && ValidUtf8(s)
  {
    Utf8Ascii(s);
  }

  lemma {:induction false} KeptSafe(headers: seq<Header>)
    requires WireSafe(headers)
    ensures WireSafe(Kept(headers))
    ensures forall i :: 0 <= i < |Kept(headers)| ==> !Reserved(Kept(headers)[i].name)
  {
    if headers != [] {
      KeptSafe(headers[..|headers| - 1]);
    }
  }

  lemma AsciiHeaderSafe(h: Header)
    requires Ascii(h.name) && Ascii(h.value) && NoColon(h.name)
    ensures SafeHeader(h)
  {
    AsciiSafe(h.name);
    AsciiSafe(h.value);
  }

  lemma LengthHeaderSafe(length: nat, h: Header)
    requires h == LengthHeader(length)
    ensures SafeHeader(h)
  {
    AsciiHeaderSafe(h);
  }

  lemma CloseSafe(h: Header)
    requires h == CLOSE
    ensures SafeHeader(h)
  {
    AsciiHeaderSafe(h);
  }

  lemma WireSafeTwo(headers: seq<Header>, a: Header, b: Header)
    requires WireSafe(headers) && SafeHeader(a) && SafeHeader(b)
    ensures WireSafe(headers + [a, b])
  {
  }

  lemma WireHeadersSafe(r: Response)
    requires WireSafe(r.headers)
    ensures WireSafe(WireHeaders(r))
  {
    KeptSafe(r.headers);
    LengthHeaderSafe(|r.body|, LengthHeader(|r.body|));
    CloseSafe(CLOSE);
    WireSafeTwo(Kept(r.headers), LengthHeader(|r.body|), CLOSE);
  }

  lemma ReasonAscii(status: u16)
    ensures Ascii(ReasonPhrase(status))
  {
    if status == 431 {
      LongestReasonAscii();
    } else if status < 400 {
      ReasonAsciiBelow400(status);
    } else if status < 405 {
      ReasonAsciiBelow405(status);
    } else if status >= 500 {
      ReasonAsciiFrom500(status);
    } else {
      ReasonAsciiFrom405(status);
    }
  }

  lemma LongestReasonAscii()
    ensures Ascii(ReasonPhrase(431))
  {
  }

  lemma ReasonAsciiBelow400(status: u16)
    requires status < 400
    ensures Ascii(ReasonPhrase(status))
  {
  }

  lemma ReasonAsciiBelow405(status: u16)
    requires 400 <= status < 405
    ensures Ascii(ReasonPhrase(status))
  {
  }

  lemma ReasonAsciiFrom405(status: u16)
    requires 405 <= status < 500 && status != 431
    ensures Ascii(ReasonPhrase(status))
  {
  }

  lemma ReasonAsciiFrom500(status: u16)
    requires 500 <= status
    ensures Ascii(ReasonPhrase(status))
  {
  }

  predicate NoBlank(s: Bytes) {
    forall i :: 0 <= i < |s| ==> s[i] != ' '
  }

  function ThreeWords(version: Bytes, code: Bytes, reason: Bytes): Bytes {
    version + " " + code + " " + reason
  }

  /** The words of a status line: version, code, and the words of the reason. */
  lemma StatusWords(version: Bytes, code: Bytes, reason: Bytes)
    requires NoBlank(version) && NoBlank(code)
    ensures Split(ThreeWords(version, code, reason), " ") == [version, code] + Split(reason, " ")
  {
    WordsBefore(version, code + " " + reason, " ");
    WordsBefore(code, reason, " ");
    Regroup(version, " ", code, reason);
  }

  lemma WordsBefore(word: Bytes, rest: Bytes, blank: Bytes)
    requires blank == " " && NoBlank(word)
    ensures Split(word + blank + rest, blank) == [word] + Split(rest, blank)
  {
    CleanPiece(word, blank);
    SplitCons(word, blank, rest);
  }

  lemma Regroup(a: Bytes, blank: Bytes, b: Bytes, c: Bytes)
    ensures a + blank + b + blank + c == a + blank + (b + blank + c)
  {
  }

  lemma StatusLineSafe(version: Bytes, code: Bytes, reason: Bytes)
    requires Ascii(version) && Ascii(code) && Ascii(reason) && version != []
    ensures SafeLine(ThreeWords(version, code, reason))
  {
    AsciiSafe(ThreeWords(version, code, reason));
  }

  function FirstWord(s: Bytes): Bytes {
    Split(s, " ")[0]
  }

  /** The head of a response, parsed as a request head. */
  function EchoedHead(r: Response): Head {
    Head(VERSION, Decimal(r.status), FirstWord(ReasonPhrase(r.status)), Trimmed(WireHeaders(r)))
  }

  lemma FirstLineComesBack(r: Response)
    ensures SafeLine(StatusLine(r))
    ensures Split(StatusLine(r), " ")
            == [VERSION, Decimal(r.status)] + Split(ReasonPhrase(r.status), " ")
  {
    var version, code, reason := VERSION, Decimal(r.status), ReasonPhrase(r.status);
    ReasonAscii(r.status);
    StatusLineSafe(version, code, reason);
    StatusWords(version, code, reason);
  }

  lemma ResponseHeadComesBack(r: Response)
    requires WireSafe(r.headers)
    ensures ValidUtf8(HeadText(r)) && HeadOf(HeadText(r)) == Ok(EchoedHead(r))
  {
    var first, headers := StatusLine(r), WireHeaders(r);
    FirstLineComesBack(r);
    WireHeadersSafe(r);
    TextComesBack(first, headers, r.body);
    AllHeadersComeBack(headers);
    HeadComesBack(HeadText(r), first, HeaderLines(headers), Trimmed(headers));
  }

  /** Whatever follows the head of a response, its marker is the first. */
  lemma HeadEndsFirst(r: Response, tail: Bytes)
    requires WireSafe(r.headers)
    ensures Find(HeadText(r) + MARKER + tail, MARKER) == Some(|HeadText(r)|)
  {
    FirstLineComesBack(r);
    WireHeadersSafe(r);
    TextComesBack(StatusLine(r), WireHeaders(r), tail);
  }

  // ----- the round trip

  /** The Content-Length a header of the caller's reads back as, once trimmed, if any does. */
  function Smuggled(headers: seq<Header>): Option<Bytes> {
    Lookup(ReadBack(headers), "content-length")
  }

  /** The body length a reader will take the response to announce. */
  function Announced(r: Response): nat {
    LengthOr(Smuggled(r.headers), |r.body|)
  }

  lemma OwnHeadersTrimmed(length: nat, a: Header, b: Header)
    requires a == LengthHeader(length) && b == CLOSE
    ensures TrimHeader(a) == a && TrimHeader(b) == b
  {
    PlainTrim(a.name);
    PlainTrim(a.value);
    PlainTrim(b.name);
    PlainTrim(b.value);
  }

  lemma WireHeadersTrimmed(r: Response)
    ensures Trimmed(WireHeaders(r)) == ReadBack(r.headers) + [LengthHeader(|r.body|), CLOSE]
  {
    var kept, a, b := Kept(r.headers), LengthHeader(|r.body|), CLOSE;
    OwnHeadersTrimmed(|r.body|, a, b);
    TrimmedTwo(kept, a, b);
  }

  lemma TrimmedTwo(headers: seq<Header>, a: Header, b: Header)
    requires TrimHeader(a) == a && TrimHeader(b) == b
    ensures Trimmed(headers + [a, b]) == Trimmed(headers) + [a, b]
  {
    TrimmedSnoc(headers, a);
    TrimmedSnoc(headers + [a], b);
    assert headers + [a, b] == headers + [a] + [b];
  }

  function LengthOr(v: Option<Bytes>, n: nat): nat {
    match v
    case None => n
    case Some(value) => LengthIn(value)
  }

  lemma LengthComesLast(all: seq<Header>, headers: seq<Header>, a: Header, b: Header, n: nat)
    requires all == headers + [a, b]
    requires EqIgnoreCase(a.name, "content-length") && ParseUsize(Trim(a.value)) == Some(n)
    ensures ContentLength(all) == LengthOr(Lookup(headers, "content-length"), n)
  {
    var front := all[..|all| - 1];
    assert front == headers + [a];
    assert front[..|front| - 1] == headers && front[|front| - 1] == a;
    var before := Lookup(headers, "content-length");
    assert Lookup(front, "content-length") == if before.Some? then before else Some(a.value);
    assert Lookup(all, "content-length") == Lookup(front, "content-length");
  }

  lemma LengthName(a: Header, name: Bytes)
    requires a.name == "Content-Length" && name == "content-length"
    ensures EqIgnoreCase(a.name, name)
  {
  }

  lemma PrintedLength(headers: seq<Header>, length: nat)
    requires length < USIZE_LIMIT
    ensures ContentLength(headers + [LengthHeader(length), CLOSE])
            == LengthOr(Lookup(headers, "content-length"), length)
  {
    var a := LengthHeader(length);
    LengthName(a, "content-length");
    ParsePrinted(length);
    LengthComesLast(headers + [a, CLOSE], headers, a, CLOSE, length);
  }

  /** What the reader makes of the announced length. */
  lemma AnnouncedLength(r: Response)
    requires |r.body| < USIZE_LIMIT
    ensures ContentLength(Trimmed(WireHeaders(r))) == Announced(r)
  {
    WireHeadersTrimmed(r);
    PrintedLength(ReadBack(r.headers), |r.body|);
  }

  lemma VerdictKnown(data: Bytes, text: Bytes, body: Bytes, head: Head, limits: Limits)
    requires data == text + MARKER + body && ValidUtf8(text) && HeadOf(text) == Ok(head)
    ensures StreamVerdict(data, |text|, limits)
            == var c := ContentLength(head.headers);
               if c > limits.maxBodyBytes then Err(BODY_LIMIT) else Assemble(head, body, c)
  {
    assert data[..|text|] == text && data[|text| + 4..] == body;
  }

  /**
   Any safe response is read back, even with another body behind its head: head words, trimmed
   headers, and as much of the body as announced.
   */
  lemma ReadsBack(r: Response, tail: Bytes, limits: Limits)
    requires WireSafe(r.headers) && |r.body| < USIZE_LIMIT
    ensures Find(HeadText(r) + MARKER + tail, MARKER) == Some(|HeadText(r)|)
    ensures StreamVerdict(HeadText(r) + MARKER + tail, |HeadText(r)|, limits)
            == if Announced(r) > limits.maxBodyBytes then Err(BODY_LIMIT)
               else Assemble(EchoedHead(r), tail, Announced(r))
  {
    ResponseHeadComesBack(r);
    HeadEndsFirst(r, tail);
    AnnouncedLength(r);
    VerdictKnown(HeadText(r) + MARKER + tail, HeadText(r), tail, EchoedHead(r), limits);
  }

  /** A schedule on which a reader sees exactly this response, its head within the limit. */
  predicate Carries(incoming: seq<Recv>, r: Response, limits: Limits) {
    && NoFailure(incoming) && Paced(incoming) && Delivered(incoming) == Encoded(r)
    && |HeadText(r)| + 4 <= limits.maxHeaderBytes + 1
  }

  /** The verdict on a response, under every segmentation. */
  lemma RoundTripVerdict(r: Response, incoming: seq<Recv>, limits: Limits)
    requires WireSafe(r.headers) && |r.body| < USIZE_LIMIT && Carries(incoming, r, limits)
    ensures Reading(incoming, limits).0
            == if Announced(r) > limits.maxBodyBytes then Err(BODY_LIMIT)
               else Assemble(EchoedHead(r), r.body, Announced(r))
  {
    SegmentationIndependence(incoming, limits);
    ReadsBack(r, r.body, limits);
  }

  /** The printer leaves the header out, or it reads back under a name that is not reserved. */
  predicate NoAliasHeader(h: Header) {
    Reserved(h.name) || Unreserved(TrimHeader(h))
  }

  predicate Unreserved(h: Header) {
    !Reserved(h.name)
  }

  predicate AllOf(headers: seq<Header>, p: Header -> bool) {
    forall i :: 0 <= i < |headers| ==> p(headers[i])
  }

  /** No header of the caller's turns into a reserved one by trimming its name. */
  predicate NoAlias(headers: seq<Header>) {
    AllOf(headers, NoAliasHeader)
  }

  predicate NoneReserved(headers: seq<Header>) {
    AllOf(headers, Unreserved)
  }

  lemma NothingSmuggled(headers: seq<Header>)
    requires NoneReserved(headers)
    ensures Lookup(headers, "content-length") == None
  {
    forall i | 0 <= i < |headers|
      ensures !EqIgnoreCase(headers[i].name, "content-length")
    {
      assert Unreserved(headers[i]);
    }
  }

  lemma AllOfSnoc(headers: seq<Header>, h: Header, p: Header -> bool)
    ensures AllOf(headers + [h], p) <==> AllOf(headers, p) && p(h)
  {
    var all := headers + [h];
    assert all[|headers|] == h && forall i :: 0 <= i < |headers| ==> all[i] == headers[i];
  }

  /** A property of what `f` makes of the headers, when `f` works header by header. */
  lemma {:induction false} AllOfMade(
      headers: seq<Header>, f: seq<Header> -> seq<Header>, p: Header -> bool, q: Header -> bool)
    requires f([]) == []
    requires forall hs, h :: AllOf(f(hs + [h]), p) <==> AllOf(f(hs), p) && q(h)
    ensures AllOf(headers, q) <==> AllOf(f(headers), p)
  {
    if headers != [] {
      var front, last := headers[..|headers| - 1], headers[|headers| - 1];
      AllOfMade(front, f, p, q);
      assert headers == front + [last];
      AllOfSnoc(front, last, q);
    }
  }

  lemma AllKeptSnoc(headers: seq<Header>, h: Header, p: Header -> bool)
    ensures AllOf(ReadBack(headers + [h]), p)
            <==> AllOf(ReadBack(headers), p) && (Reserved(h.name) || p(TrimHeader(h)))
  {
    KeptSnoc(headers, h);
    TrimmedSnoc(Kept(headers), h);
    AllOfSnoc(ReadBack(headers), TrimHeader(h), p);
  }

  /** The caller's headers avoid the reserved names on the way back exactly when none is an alias of one. */
  lemma TrimmedKept(headers: seq<Header>)
    ensures NoAlias(headers) <==> NoneReserved(ReadBack(headers))
  {
    forall hs, h
      ensures AllOf(ReadBack(hs + [h]), Unreserved) <==> AllOf(ReadBack(hs), Unreserved) && NoAliasHeader(h)
    {
      NoAliasSnoc(hs, h, TrimHeader(h));
    }
    AllOfMade(headers, ReadBack, Unreserved, NoAliasHeader);
  }

  lemma NoAliasSnoc(headers: seq<Header>, h: Header, t: Header)
    requires t == TrimHeader(h)
    ensures AllOf(ReadBack(headers + [h]), Unreserved)
            <==> AllOf(ReadBack(headers), Unreserved) && (Reserved(h.name) || Unreserved(t))
  {
    AllKeptSnoc(headers, h, Unreserved);
  }

  /**
   The round trip: a printed response, read back under any segmentation within the limits, gives
   the same status and body, the caller's headers in order (trimmed, the reserved ones left out),
   then a Content-Length with the body's length and a Connection: close. By `TrimmedKept` no other
   header bears either name.
   */
  lemma ResponseRoundTrip(r: Response, incoming: seq<Recv>, limits: Limits)
    requires WireSafe(r.headers) && NoAlias(r.headers)
    requires |r.body| < USIZE_LIMIT && |r.body| <= limits.maxBodyBytes && Carries(incoming, r, limits)
    ensures var v := Reading(incoming, limits).0;
            && v.Ok? && v.value.Some?
            && v.value.value.version == FirstWord(ReasonPhrase(r.status)) && v.value.value.target == Decimal(r.status)
            && v.value.value.headers == ReadBack(r.headers) + [LengthHeader(|r.body|), CLOSE]
            && v.value.value.body == r.body
  {
    TrimmedKept(r.headers);
    NothingSmuggled(ReadBack(r.headers));
    RoundTripVerdict(r, incoming, limits);
    WireHeadersTrimmed(r);
    WholeBody(EchoedHead(r), r.body);
  }

  lemma WholeBody(head: Head, body: Bytes)
    ensures Assemble(head, body, |body|)
            == Ok(Some(Request(head.verb, head.target, head.version, head.headers, body)))
  {
    assert body[..|body|] == body;
  }

  /**
   Exactly when the body survives: no header of the caller's reads back as a Content-Length, or
   the first that does announces enough, within the body limit.
   */
  lemma BodySurvivesExactly(r: Response, incoming: seq<Recv>, limits: Limits)
    requires WireSafe(r.headers) && |r.body| < USIZE_LIMIT && |r.body| <= limits.maxBodyBytes
    requires Carries(incoming, r, limits)
    ensures var v, alias := Reading(incoming, limits).0, Smuggled(r.headers);
            (v.Ok? && v.value.Some? && v.value.value.body == r.body)
            <==> (alias.None? || (var n := ParseUsize(Trim(alias.value));
                                  if n.None? then r.body == []
                                  else |r.body| <= n.value <= limits.maxBodyBytes))
  {
    RoundTripVerdict(r, incoming, limits);
  }

  /** Padding a reserved name with a blank gets the header past the printer and, trimmed, to the reader. */
  lemma PaddedNameGetsThrough(h: Header, name: Bytes)
    requires name == "Content-Length" || name == "Connection"
    requires h.name == name + " "
    ensures !NoAlias([h]) && !NoneReserved(ReadBack([h]))
  {
    TrimTrailingBlank(name);
    ReservedNames(name);
    PaddedIsNotReserved(name);
    assert !NoAliasHeader([h][0]);
    TrimmedKept([h]);
  }

  lemma ReservedNames(name: Bytes)
    requires name == "Content-Length" || name == "Connection"
    ensures Reserved(name)
  {
  }

  lemma PaddedIsNotReserved(name: Bytes)
    requires name == "Content-Length" || name == "Connection"
    ensures !Reserved(name + " ")
  {
    assert |name + " "| == 15 || |name + " "| == 11;
  }

  /** The printer compares untrimmed names, the reader trimmed ones: a trailing blank gets through. */
  lemma TrailingBlankLosesBody(h: Header, name: Bytes, incoming: seq<Recv>, limits: Limits)
    requires name == "Content-Length" && h == Header(name + " ", "0")
    requires Carries(incoming, Response(200, [h], "x"), limits)
    ensures var v := Reading(incoming, limits).0; v.Ok? && v.value.Some? && v.value.value.body == []
  {
    PaddedLength(h, name);
    RoundTripVerdict(Response(200, [h], "x"), incoming, limits);
    NoBody(EchoedHead(Response(200, [h], "x")), "x");
  }

  lemma PaddedLength(h: Header, name: Bytes)
    requires name == "Content-Length" && h == Header(name + " ", "0")
    ensures WireSafe([h]) && Smuggled([h]) == Some("0") && ParseUsize(Trim("0")) == Some(0)
  {
    BlankNotReserved(h, name);
    KeptAndTrimmed(h);
    LengthName(TrimHeader(h), "content-length");
    ZeroAnnounced(h.value);
    BlankHeaderSafe(h);
  }

  lemma NoBody(head: Head, body: Bytes)
    ensures var v := Assemble(head, body, 0); v.Ok? && v.value.Some? && v.value.value.body == []
  {
  }

  lemma BlankNotReserved(h: Header, name: Bytes)
    requires name == "Content-Length" && h == Header(name + " ", "0")
    ensures !Reserved(h.name) && TrimHeader(h) == Header(name, "0")
  {
    assert |h.name| == 15;
    TrimTrailingBlank(name);
    PlainTrim(h.value);
  }

  lemma KeptAndTrimmed(h: Header)
    requires !Reserved(h.name)
    ensures Kept([h]) == [h] && Trimmed([h]) == [TrimHeader(h)]
    ensures EqIgnoreCase(Trim(h.name), "content-length") ==> Smuggled([h]) == Some(Trim(h.value))
  {
    assert [h][..0] == [];
  }

  lemma ZeroAnnounced(v: Bytes)
    requires v == "0"
    ensures ParseUsize(Trim(v)) == Some(0)
  {
    assert v == Decimal(0);
    ParsePrinted(0);
  }

  lemma BlankHeaderSafe(h: Header)
    requires h.name == "Content-Length" + " " && h.value == "0"
    ensures SafeHeader(h)
  {
    AsciiHeaderSafe(h);
  }

  // ----- responses cut short, and heads over the limit

  /**
   A response cut short anywhere in its body is accepted all the same, with the part that came: the
   reader does not keep a request from being incomplete.
   */
  lemma CutShortAccepted(r: Response, k: nat, incoming: seq<Recv>, limits: Limits)
    requires WireSafe(r.headers) && NoAlias(r.headers) && |r.body| < USIZE_LIMIT && |r.body| <= limits.maxBodyBytes
    requires k <= |r.body| && Presents(incoming, HeadText(r) + MARKER + r.body[..k])
    requires |HeadText(r)| + 4 <= limits.maxHeaderBytes + 1
    ensures var v := Reading(incoming, limits).0;
            v.Ok? && v.value.Some? && v.value.value.body == r.body[..k]
            && ContentLength(v.value.value.headers) == |r.body|
  {
    TrimmedKept(r.headers);
    NothingSmuggled(ReadBack(r.headers));
    ReadsBack(r, r.body[..k], limits);
    SegmentationIndependence(incoming, limits);
    AnnouncedLength(r);
    AssembledPart(EchoedHead(r), r.body, k);
  }

  lemma AssembledPart(head: Head, body: Bytes, k: nat)
    requires k <= |body|
    ensures Assemble(head, body[..k], |body|)
            == Ok(Some(Request(head.verb, head.target, head.version, head.headers, body[..k])))
  {
    assert body[..k][..k] == body[..k];
  }

  /** A request that announces one byte of body and brings none is accepted. */
  lemma ShortBodyAccepted(r: Response, incoming: seq<Recv>, limits: Limits)
    requires r == Response(200, [], "x") && limits.maxBodyBytes >= 1
    requires |HeadText(r)| + 4 <= limits.maxHeaderBytes + 1 && incoming == Chunks(HeadText(r) + MARKER)
    ensures var v := Reading(incoming, limits).0;
            v.Ok? && v.value.Some? && v.value.value.body == [] && ContentLength(v.value.value.headers) == 1
  {
    assert HeadText(r) + MARKER + r.body[..0] == HeadText(r) + MARKER;
    SomePresentation(HeadText(r) + MARKER);
    CutShortAccepted(r, 0, incoming, limits);
  }

  /**
   A printed response whose head is over the limit of its reader by less than one read is accepted
   on one schedule and refused on another.
   */
  lemma OversizeHeadAccepted(r: Response, limits: Limits)
    requires WireSafe(r.headers) && |r.body| < USIZE_LIMIT && Announced(r) <= limits.maxBodyBytes
    requires limits.maxHeaderBytes + 1 < |HeadText(r)| + 4 <= limits.maxHeaderBytes + READ_CHUNK
    ensures exists incoming :: Presents(incoming, Encoded(r)) && Accepts(incoming, limits)
    ensures exists incoming :: Presents(incoming, Encoded(r)) && !Accepts(incoming, limits)
  {
    HeadEndsFirst(r, r.body);
    GoodHead(r, limits.maxBodyBytes);
    GapSchedules(Encoded(r), |HeadText(r)|, limits);
  }

  lemma GoodHead(r: Response, maxBody: nat)
    requires WireSafe(r.headers) && |r.body| < USIZE_LIMIT && Announced(r) <= maxBody
    ensures Judge(Encoded(r)[..|HeadText(r)|], maxBody).Ok?
  {
    ResponseHeadComesBack(r);
    AnnouncedLength(r);
    HeadIsPrefix(HeadText(r), MARKER, r.body);
  }

  lemma HeadIsPrefix(a: Bytes, b: Bytes, c: Bytes)
    ensures (a + b + c)[..|a|] == a
  {
  }
}
