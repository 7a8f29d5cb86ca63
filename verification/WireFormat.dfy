/** The printed response byte for byte, as RFC 9112 lays a message out. */
module WireFormat {
  import opened Errors
  import opened Octets
  import opened Sockets
  import opened HttpMessage
  import opened HttpReader
  import opened Segmentation
  import opened Connection

  /** Header fields, each on a line of its own. */
  function Fields(headers: seq<Header>): Bytes {
    if headers == [] then []
    else
      var h := headers[|headers| - 1];
      Fields(headers[..|headers| - 1]) + h.name + ": " + h.value + CRLF
  }

  lemma {:induction false} LinesAreFields(first: Bytes, headers: seq<Header>)
    ensures Join([first] + HeaderLines(headers), CRLF) + CRLF == first + CRLF + Fields(headers)
  {
    if headers == [] {
      assert [first] + HeaderLines([]) == [first];
    } else {
      var front, h := headers[..|headers| - 1], headers[|headers| - 1];
      LinesAreFields(first, front);
      JoinSnoc([first] + HeaderLines(front), HeaderLine(h), CRLF);
      assert [first] + HeaderLines(headers) == [first] + HeaderLines(front) + [HeaderLine(h)];
      OneMoreField(Join([first] + HeaderLines(front), CRLF), first + CRLF, Fields(front), h);
    }
  }

  lemma OneMoreField(text: Bytes, start: Bytes, fields: Bytes, h: Header)
    requires text + CRLF == start + fields
    ensures text + CRLF + HeaderLine(h) + CRLF == start + (fields + h.name + ": " + h.value + CRLF)
  {
  }

  lemma FieldsSnoc(headers: seq<Header>, h: Header)
    ensures Fields(headers + [h]) == Fields(headers) + h.name + ": " + h.value + CRLF
  {
    assert (headers + [h])[..|headers|] == headers;
  }

  /** The two fields the printer adds. */
  function OwnFields(length: nat): Bytes {
    "Content-Length: " + Decimal(length) + CRLF + "Connection: close" + CRLF
  }

  lemma OwnFieldsPrinted(headers: seq<Header>, length: nat)
    ensures Fields(headers + [LengthHeader(length), CLOSE]) == Fields(headers) + OwnFields(length)
  {
    var a, b := LengthHeader(length), CLOSE;
    FieldsSnoc(headers, a);
    FieldsSnoc(headers + [a], b);
    assert headers + [a, b] == headers + [a] + [b];
    OwnFieldsSpelled(a, b, length);
    Regroup(Fields(headers), a, b);
  }

  lemma OwnFieldsSpelled(a: Header, b: Header, length: nat)
    requires a == LengthHeader(length) && b == CLOSE
    ensures OwnFields(length) == a.name + ": " + a.value + CRLF + b.name + ": " + b.value + CRLF
  {
    assert "Content-Length: " == "Content-Length" + ": ";
    assert "Connection: close" == "Connection" + ": " + "close";
  }

  lemma Regroup(fields: Bytes, a: Header, b: Header)
    ensures fields + a.name + ": " + a.value + CRLF + b.name + ": " + b.value + CRLF
            == fields + (a.name + ": " + a.value + CRLF + b.name + ": " + b.value + CRLF)
  {
  }

  /** What stands before the caller's header fields. */
  function FirstLine(r: Response): Bytes {
    "HTTP/1.1 " + Decimal(r.status) + " " + ReasonPhrase(r.status) + CRLF
  }

  lemma FirstLineSpelled(r: Response, version: Bytes)
    requires version == VERSION
    ensures StatusLine(r) + CRLF == FirstLine(r)
  {
    assert "HTTP/1.1 " == version + " ";
  }

  /**
   A printed response, byte for byte: status line, the caller's fields but the reserved ones, the
   body's length, Connection: close, an empty line and the body.
   */
  lemma ResponseLayout(r: Response)
    ensures Encoded(r) == FirstLine(r) + Fields(Kept(r.headers)) + OwnFields(|r.body|) + CRLF + r.body
  {
    LinesAreFields(StatusLine(r), WireHeaders(r));
    OwnFieldsPrinted(Kept(r.headers), |r.body|);
    FirstLineSpelled(r, VERSION);
    MarkerIsTwoLines(HeadText(r), r.body);
    LastRegroup(FirstLine(r), Fields(Kept(r.headers)), OwnFields(|r.body|));
  }

  lemma MarkerIsTwoLines(text: Bytes, body: Bytes)
    ensures text + MARKER + body == text + CRLF + CRLF + body
  {
    assert MARKER == CRLF + CRLF;
    assert text + (CRLF + CRLF) == text + CRLF + CRLF;
  }

  lemma LastRegroup(a: Bytes, b: Bytes, c: Bytes)
    ensures a + (b + c) == a + b + c
  {
  }

  /** The phrases of RFC 7231 and, for 431, RFC 6585; any other status goes with the default. */
  lemma ReasonTable(status: u16)
    ensures ReasonPhrase(200) == "OK" && ReasonPhrase(201) == "Created" && ReasonPhrase(204) == "No Content"
    ensures ReasonPhrase(301) == "Moved Permanently" && ReasonPhrase(302) == "Found"
    ensures ReasonPhrase(304) == "Not Modified" && ReasonPhrase(400) == "Bad Request"
    ensures ReasonPhrase(401) == "Unauthorized" && ReasonPhrase(403) == "Forbidden"
    ensures ReasonPhrase(404) == "Not Found" && ReasonPhrase(405) == "Method Not Allowed"
    ensures ReasonPhrase(413) == "Payload Too Large" && ReasonPhrase(431) == "Request Header Fields Too Large"
    ensures ReasonPhrase(500) == "Internal Server Error" && ReasonPhrase(503) == "Service Unavailable"
    ensures status !in {200, 201, 204, 301, 302, 304, 400, 401, 403, 404, 405, 413, 431, 500, 503} ==>
              ReasonPhrase(status) == "OK"
  {
  }

  /** Every status from 100 to 999 is printed as the three digits of its number, right after the version. */
  lemma StatusOnWire(r: Response)
    requires 100 <= r.status < 1000
    ensures var e := Encoded(r);
            && |e| >= 13 && e[..9] == "HTTP/1.1 " && e[12] == ' '
            && Digits(e[9..12]) && DigitsValue(e[9..12]) == r.status
  {
    ThreeDigits(r.status);
    DecimalValue(r.status);
    ResponseLayout(r);
    FirstOfFive(FirstLine(r), Fields(Kept(r.headers)), OwnFields(|r.body|), CRLF, r.body);
    FirstLineStarts(FirstLine(r), "HTTP/1.1 ", Decimal(r.status), ReasonPhrase(r.status));
    StatusFirst("HTTP/1.1 ", Decimal(r.status), FirstLine(r), Encoded(r));
  }

  lemma FirstOfFive(a: Bytes, b: Bytes, c: Bytes, d: Bytes, e: Bytes)
    ensures a <= a + b + c + d + e
  {
  }

  lemma FirstLineStarts(line: Bytes, version: Bytes, code: Bytes, reason: Bytes)
    requires line == version + code + " " + reason + CRLF
    ensures version + code + " " <= line
  {
  }

  lemma StatusFirst(version: Bytes, code: Bytes, line: Bytes, e: Bytes)
    requires |version| == 9 && |code| == 3 && version + code + " " <= line <= e
    ensures |e| >= 13 && e[..9] == version && e[9..12] == code && e[12] == ' '
  {
    var start := version + code + " ";
    assert start <= e && |start| == 13;
    assert start[..9] == version && start[9..12] == code && start[12] == ' ';
    assert e[..13] == start;
    assert e[..9] == e[..13][..9] && e[9..12] == e[..13][9..12];
  }

  /** The answer to anything unreadable, in full. */
  lemma BadRequestOnWire()
    ensures Encoded(BadRequest()) == "HTTP/1.1 400 Bad Request" + CRLF
                                     + "Content-Type: text/plain; charset=utf-8" + CRLF
                                     + "Content-Length: 11" + CRLF + "Connection: close" + CRLF
                                     + CRLF + "Bad Request"
  {
    var r := BadRequest();
    ResponseLayout(r);
    NumeralsSpelled();
    BadRequestLine(r);
    OneField(r.headers, CONTENT_TYPE, TEXT_PLAIN);
    BadRequestField(CONTENT_TYPE, TEXT_PLAIN);
    BadRequestBody(r);
    AssociateLines(FirstLine(r), Fields(Kept(r.headers)), "Content-Length: 11", "Connection: close", r.body,
                   "HTTP/1.1 400 Bad Request", "Content-Type: text/plain; charset=utf-8");
  }

  lemma BadRequestLine(r: Response)
    requires r.status == 400
    ensures FirstLine(r) == "HTTP/1.1 400 Bad Request" + CRLF
  {
    NumeralsSpelled();
    assert ReasonPhrase(400) == "Bad Request";
    assert "HTTP/1.1 400 Bad Request" == "HTTP/1.1 " + "400" + " " + "Bad Request";
  }

  lemma BadRequestBody(r: Response)
    requires r.body == BAD_REQUEST
    ensures r.body == "Bad Request" && OwnFields(|r.body|) == "Content-Length: 11" + CRLF + "Connection: close" + CRLF
  {
    NumeralsSpelled();
    assert |r.body| == 11;
    assert "Content-Length: 11" == "Content-Length: " + "11";
  }

  lemma NotReserved(name: Bytes)
    requires |name| == 12
    ensures !Reserved(name)
  {
    assert |"content-length"| == 14 && |"connection"| == 10;
  }

  lemma OneField(headers: seq<Header>, name: Bytes, value: Bytes)
    requires headers == [Header(name, value)] && |name| == 12
    ensures Fields(Kept(headers)) == name + ": " + value + CRLF
  {
    NotReserved(name);
    KeptAlone(headers);
    FieldsSnoc([], headers[0]);
    assert [] + headers == headers && [] + name + ": " + value + CRLF == name + ": " + value + CRLF;
  }

  lemma KeptAlone(headers: seq<Header>)
    requires |headers| == 1 && !Reserved(headers[0].name)
    ensures Kept(headers) == headers
  {
    assert headers[..0] == [];
    assert Kept(headers[..0]) == [];
  }

  lemma BadRequestField(name: Bytes, value: Bytes)
    requires name == CONTENT_TYPE && value == TEXT_PLAIN
    ensures |name| == 12 && name + ": " + value == "Content-Type: text/plain; charset=utf-8"
  {
  }

  lemma AssociateLines(
      first: Bytes, fields: Bytes, length: Bytes, close: Bytes, body: Bytes, line: Bytes, field: Bytes)
    requires first == line + CRLF && fields == field + CRLF
    ensures first + fields + (length + CRLF + close + CRLF) + CRLF + body
            == line + CRLF + field + CRLF + length + CRLF + close + CRLF + CRLF + body
  {
  }

  lemma NumeralsSpelled()
    ensures Decimal(400) == "400" && Decimal(11) == "11"
  {
  }

  /**
   A peer that sends something and closes before the end of its request head is sent the 400, as far
   as the writes go; one that closes at once is sent nothing.
   */
  lemma ClosedEarly(incoming: seq<Recv>, outgoing: seq<Send>, handler: Handler, limits: Limits)
    requires NoFailure(incoming) && Paced(incoming) && Find(Delivered(incoming), MARKER).None?
    ensures Output(incoming, outgoing, handler, limits)
            == if Delivered(incoming) == [] then [] else Written(Encoded(BadRequest()), outgoing)
  {
    SegmentationIndependence(incoming, limits);
  }
}
