/** Requests, responses, the response printer and the request-head parser. */
module HttpMessage {
  import opened Errors
  import opened Octets

  datatype Header = Header(name: Bytes, value: Bytes)

  // ----- header lookup

  /** The value of the first header with this name, ignoring case. */
  function Lookup(headers: seq<Header>, name: Bytes): (r: Option<Bytes>)
    ensures r.None? ==> forall i :: 0 <= i < |headers| ==> !EqIgnoreCase(headers[i].name, name)
    ensures r.Some? ==> exists i :: 0 <= i < |headers| && EqIgnoreCase(headers[i].name, name)
                                    && r.value == headers[i].value
                                    && forall j :: 0 <= j < i ==> !EqIgnoreCase(headers[j].name, name)
  {
    if headers == [] then None
    else
      var last := headers[|headers| - 1];
      var r := Lookup(headers[..|headers| - 1], name);
      if r.Some? then r
      else if EqIgnoreCase(last.name, name) then Some(last.value)
      else None
  }

  /** The length a header value stands for; anything but a number counts as 0. */
  function LengthIn(value: Bytes): nat {
    match ParseUsize(Trim(value)) case None => 0 case Some(n) => n
  }

  /** The body length a request announces: 0 unless the first Content-Length is a number. */
  function ContentLength(headers: seq<Header>): nat {
    match Lookup(headers, "content-length")
    case None => 0
    case Some(value) => LengthIn(value)
  }

  // ----- requests

  datatype Request = Request(verb: Bytes, target: Bytes, version: Bytes, headers: seq<Header>, body: Bytes)
  {
    function Path(): Bytes {
      match SplitOnce(target, "?") case Some(parts) => parts.0 case None => target
    }

    function Query(): Option<Bytes> {
      match SplitOnce(target, "?") case Some(parts) => Some(parts.1) case None => None
    }

    /** Path and query are the target cut at its first question mark. */
    lemma PathAndQuery()
      ensures Find(Path(), "?").None?
      ensures target == match Query() case None => Path() case Some(q) => Path() + "?" + q
    {
      var i := Find(target, "?");
      if i.Some? {
        FindIsFirst(target, "?", i);
        assert target == target[..i.value] + target[i.value..];
        assert target == target[..i.value] + "?" + target[i.value + 1..];
        FindPrefix(target[..i.value], target[i.value..], "?");
      }
    }
  }

  // ----- parsing a request head

  datatype Head = Head(verb: Bytes, target: Bytes, version: Bytes, headers: seq<Header>)

  const NO_TARGET := InvalidInput("missing request target")
  const NO_VERSION := InvalidInput("missing HTTP version")
  const BAD_HEADER := InvalidInput("malformed header line")

  function HeaderOf(line: Bytes): Option<Header> {
    match SplitOnce(line, ":")
    case None => None
    case Some(parts) => Some(Header(Trim(parts.0), Trim(parts.1)))
  }

  /** Parse every non-empty line with `f`; `None` when a line does not parse. */
  function Gather<T>(lines: seq<Bytes>, f: Bytes -> Option<T>): Option<seq<T>> {
    if lines == [] then Some([])
    else
      var line := lines[|lines| - 1];
      match Gather(lines[..|lines| - 1], f)
      case None => None
      case Some(done) =>
        if line == [] then Some(done)
        else match f(line) case None => None case Some(x) => Some(done + [x])
  }

  function HeadOf(head: Bytes): Result<Head> {
    var lines := Split(head, CRLF);
    var parts := Split(lines[0], " ");
    if |parts| < 2 then Err(NO_TARGET)
    else if |parts| < 3 then Err(NO_VERSION)
    else match Gather(lines[1..], HeaderOf)
      case None => Err(BAD_HEADER)
      case Some(headers) => Ok(Head(parts[0], parts[1], parts[2], headers))
  }

  lemma {:induction false} GatherFailsEarly<T>(lines: seq<Bytes>, f: Bytes -> Option<T>, i: nat)
    requires i <= |lines| && Gather(lines[..i], f).None?
    ensures Gather(lines, f).None?
    decreases |lines|
  {
    if i == |lines| {
      assert lines[..i] == lines;
    } else {
      var front := lines[..|lines| - 1];
      assert front[..i] == lines[..i];
      GatherFailsEarly(front, f, i);
    }
  }

  /** Gathering succeeds exactly when every non-empty line parses. */
  lemma {:induction false} GatherAccepts<T>(lines: seq<Bytes>, f: Bytes -> Option<T>)
    ensures Gather(lines, f).Some? <==> forall i :: 0 <= i < |lines| && lines[i] != [] ==> f(lines[i]).Some?
  {
    if lines != [] {
      GatherAccepts(lines[..|lines| - 1], f);
    }
  }

  /** Without empty lines, gathering yields one result a line, in order. */
  lemma {:induction false} GatherAligned<T>(lines: seq<Bytes>, f: Bytes -> Option<T>)
    requires forall i :: 0 <= i < |lines| ==> lines[i] != []
    requires Gather(lines, f).Some?
    ensures |Gather(lines, f).value| == |lines|
    ensures forall i :: 0 <= i < |lines| ==> f(lines[i]) == Some(Gather(lines, f).value[i])
  {
    if lines != [] {
      GatherAligned(lines[..|lines| - 1], f);
    }
  }

  method ParseHead(head: Bytes) returns (r: Result<Head>)
    ensures r == HeadOf(head)
  {
    var lines := Split(head, CRLF);
    var parts := Split(lines[0], " ");
    if |parts| < 2 {
      return Err(NO_TARGET);
    }
    if |parts| < 3 {
      return Err(NO_VERSION);
    }
    var headers := ParseHeaders(lines);
    match headers
    case None => return Err(BAD_HEADER);
    case Some(hs) => return Ok(Head(parts[0], parts[1], parts[2], hs));
  }

  method ParseHeaders(lines: seq<Bytes>) returns (r: Option<seq<Header>>)
    requires lines != []
    ensures r == Gather(lines[1..], HeaderOf)
  {
    var headers := [];
    ghost var rest := lines[1..];
    for i := 1 to |lines|
      invariant Gather(rest[..i - 1], HeaderOf) == Some(headers)
    {
      assert rest[..i][..i - 1] == rest[..i - 1] && lines[i] == rest[i - 1];
      if lines[i] == [] {
        continue;
      }
      var h := HeaderOf(lines[i]);
      if h.None? {
        GatherFailsEarly(rest, HeaderOf, i);
        return None;
      }
      headers := headers + [h.value];
    }
    assert rest[..|lines| - 1] == rest;
    return Some(headers);
  }

  // ----- responses

  datatype Response = Response(status: u16, headers: seq<Header>, body: Bytes)

  function ReasonPhrase(status: u16): Bytes {
    match status
    case 200 => "OK"
    case 201 => "Created"
    case 204 => "No Content"
    case 301 => "Moved Permanently"
    case 302 => "Found"
    case 304 => "Not Modified"
    case 400 => "Bad Request"
    case 401 => "Unauthorized"
    case 403 => "Forbidden"
    case 404 => "Not Found"
    case 405 => "Method Not Allowed"
    case 413 => "Payload Too Large"
    case 431 => "Request Header Fields Too Large"
    case 500 => "Internal Server Error"
    case 503 => "Service Unavailable"
    case _ => "OK"
  }

  /** The two names the printer writes itself. */
  predicate Reserved(name: Bytes) {
    EqIgnoreCase(name, "content-length") || EqIgnoreCase(name, "connection")
  }

  function Kept(headers: seq<Header>): seq<Header> {
    if headers == [] then []
    else
      var last := headers[|headers| - 1];
      Kept(headers[..|headers| - 1]) + if Reserved(last.name) then [] else [last]
  }

  const CLOSE := Header("Connection", "close")

  function LengthHeader(length: nat): Header {
    Header("Content-Length", Decimal(length))
  }

  /** The headers that go on the wire. */
  function WireHeaders(r: Response): seq<Header> {
    Kept(r.headers) + [LengthHeader(|r.body|), CLOSE]
  }

  const VERSION: Bytes := "HTTP/1.1"

  function StatusLine(r: Response): Bytes {
    VERSION + " " + Decimal(r.status) + " " + ReasonPhrase(r.status)
  }

  function HeaderLine(h: Header): Bytes {
    h.name + ": " + h.value
  }

  function HeaderLines(headers: seq<Header>): (lines: seq<Bytes>)
    ensures |lines| == |headers| && forall i :: 0 <= i < |lines| ==> lines[i] == HeaderLine(headers[i])
  {
    if headers == [] then []
    else HeaderLines(headers[..|headers| - 1]) + [HeaderLine(headers[|headers| - 1])]
  }

  function HeadText(r: Response): Bytes {
    Join([StatusLine(r)] + HeaderLines(WireHeaders(r)), CRLF)
  }

  /** Head lines joined by CRLF, an empty line, the body. */
  function Encoded(r: Response): Bytes {
    HeadText(r) + MARKER + r.body
  }

  lemma {:induction false} JoinSnoc(lines: seq<Bytes>, line: Bytes, pat: Bytes)
    requires lines != []
    ensures Join(lines + [line], pat) == Join(lines, pat) + pat + line
  {
    if |lines| > 1 {
      JoinSnoc(lines[1..], line, pat);
      assert (lines + [line])[1..] == lines[1..] + [line];
    } else {
      assert (lines + [line])[1..] == [line];
    }
  }

  method Encode(r: Response) returns (bytes: Bytes)
    ensures bytes == Encoded(r)
  {
    var head := StatusLine(r) + CRLF;
    head := PushHeaders(head, [StatusLine(r)], r.headers);
    var length, close := LengthHeader(|r.body|), CLOSE;
    ghost var lines := [StatusLine(r)] + HeaderLines(Kept(r.headers));
    JoinSnoc(lines, HeaderLine(length), CRLF);
    JoinSnoc(lines + [HeaderLine(length)], HeaderLine(close), CRLF);
    LastLines(Kept(r.headers), length, close);
    assert lines + [HeaderLine(length)] + [HeaderLine(close)] == [StatusLine(r)] + HeaderLines(WireHeaders(r));
    head := head + HeaderLine(length) + CRLF;
    head := head + HeaderLine(close) + MARKER;
    bytes := head + r.body;
  }

  /** Append a line for every header but the reserved ones. */
  method PushHeaders(start: Bytes, ghost first: seq<Bytes>, headers: seq<Header>) returns (head: Bytes)
    requires first != [] && start == Join(first, CRLF) + CRLF
    ensures head == HeadSoFar(first, headers)
  {
    head := start;
    assert first + HeaderLines([]) == first;
    for i := 0 to |headers|
      invariant head == HeadSoFar(first, headers[..i])
    {
      var h := headers[i];
      HeadGrows(first, headers, i);
      if Reserved(h.name) {
        continue;
      }
      head := head + HeaderLine(h) + CRLF;
    }
    assert headers[..|headers|] == headers;
  }

  function HeadSoFar(first: seq<Bytes>, headers: seq<Header>): Bytes
    requires first != []
  {
    Join(first + HeaderLines(Kept(headers)), CRLF) + CRLF
  }

  lemma HeadGrows(first: seq<Bytes>, headers: seq<Header>, i: nat)
    requires first != [] && i < |headers|
    ensures HeadSoFar(first, headers[..i + 1])
            == if Reserved(headers[i].name) then HeadSoFar(first, headers[..i])
               else HeadSoFar(first, headers[..i]) + HeaderLine(headers[i]) + CRLF
  {
    var kept := Kept(headers[..i]);
    assert headers[..i + 1][..i] == headers[..i];
    if Reserved(headers[i].name) {
      assert Kept(headers[..i + 1]) == kept;
    } else {
      HeaderLinesSnoc(kept, headers[i]);
      JoinSnoc(first + HeaderLines(kept), HeaderLine(headers[i]), CRLF);
      assert first + HeaderLines(kept + [headers[i]]) == first + HeaderLines(kept) + [HeaderLine(headers[i])];
    }
  }

  lemma LastLines(kept: seq<Header>, a: Header, b: Header)
    ensures HeaderLines(kept + [a, b]) == HeaderLines(kept) + [HeaderLine(a)] + [HeaderLine(b)]
  {
    HeaderLinesSnoc(kept, a);
    HeaderLinesSnoc(kept + [a], b);
    assert kept + [a, b] == kept + [a] + [b];
  }

  lemma HeaderLinesSnoc(headers: seq<Header>, h: Header)
    ensures HeaderLines(headers + [h]) == HeaderLines(headers) + [HeaderLine(h)]
  {
    assert (headers + [h])[..|headers|] == headers;
  }
}
