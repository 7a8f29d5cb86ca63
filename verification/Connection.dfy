/** One connection from the first byte read to the last byte written. */
module Connection {
  import opened Errors
  import opened Octets
  import opened Sockets
  import opened HttpMessage
  import opened HttpReader
  import opened Segmentation
  import opened RoundTrip

  type Handler = Request -> Response

  const CONTENT_TYPE: Bytes := "Content-Type"
  const TEXT_PLAIN: Bytes := "text/plain; charset=utf-8"
  const BAD_REQUEST: Bytes := "Bad Request"

  /** `Response::new(400).text("Bad Request")`. */
  function BadRequest(): Response {
    Response(400, [Header(CONTENT_TYPE, TEXT_PLAIN)], BAD_REQUEST)
  }

  /** What is answered: nothing to a peer that closed at once, 400 to anything unreadable. */
  function Answer(verdict: Result<Option<Request>>, handler: Handler): Option<Response> {
    match verdict
    case Ok(Some(req)) => Some(handler(req))
    case Ok(None) => None
    case Err(_) => Some(BadRequest())
  }

  /** The part of `bytes` that a write puts on the wire. */
  function Written(bytes: Bytes, outgoing: seq<Send>): (r: Bytes)
    ensures r <= bytes
  {
    UpTo(bytes, SendAll(|bytes|, outgoing, 0).count)
  }

  /** The bytes a connection puts on the wire. */
  function Output(incoming: seq<Recv>, outgoing: seq<Send>, handler: Handler, limits: Limits): Bytes {
    match Answer(Reading(incoming, limits).0, handler)
    case None => []
    case Some(response) => Written(Encoded(response), outgoing)
  }

  // ----- the code

  method WriteResponse(stream: TcpStream, response: Response) returns (r: Result<()>)
    modifies stream`outgoing, stream`wire, stream`errno
    ensures stream.wire == old(stream.wire) + Written(Encoded(response), old(stream.outgoing))
    ensures r.Ok? <==> Written(Encoded(response), old(stream.outgoing)) == Encoded(response)
  {
    var bytes := Encode(response);
    SendAllErrnoFree(|bytes|, stream.outgoing, stream.errno, 0);
    SendAllExact(|bytes|, stream.outgoing, stream.errno);
    r := stream.WriteAll(bytes);
  }

  method ServeConnection(stream: TcpStream, handler: Handler, limits: Limits)
    requires Paced(stream.incoming)
    modifies stream
    ensures stream.wire == old(stream.wire) + Output(old(stream.incoming), old(stream.outgoing), handler, limits)
    ensures stream.incoming == Reading(old(stream.incoming), limits).1
    ensures stream.shutdowns == old(stream.shutdowns) + [|stream.wire|]
  {
    var verdict, _, _ := ReadRequest(stream, limits);
    var response;
    match verdict {
      case Ok(None) =>
        stream.Shutdown();
        return;
      case Ok(Some(req)) =>
        response := handler(req);
      case Err(_) =>
        response := BadRequest();
    }
    var _ := WriteResponse(stream, response);
    stream.Shutdown();
  }

  // ----- end to end

  /**
   For every read and write schedule, what goes out is a prefix of exactly one printed response:
   the handler's for the request read, or the 400; nothing if the peer closed at once. It is the
   whole response exactly when the write succeeds.
   */
  lemma OutputIsAnswer(incoming: seq<Recv>, outgoing: seq<Send>, handler: Handler, limits: Limits)
    ensures var out, verdict := Output(incoming, outgoing, handler, limits), Reading(incoming, limits).0;
            && (verdict == Ok(None) ==> out == [])
            && (verdict != Ok(None) ==>
                  var response := if verdict.Ok? then handler(verdict.value.value) else BadRequest();
                  var whole := Encoded(response);
                  out <= whole && (out == whole <==> SendAll(|whole|, outgoing, 0).result.Ok?))
  {
    var answer := Answer(Reading(incoming, limits).0, handler);
    if answer.Some? {
      SendAllExact(|Encoded(answer.value)|, outgoing, 0);
    }
  }

  /** What goes out depends on the bytes that came in, not on how the network cut them up. */
  lemma OutputSegmentationFree(a: seq<Recv>, b: seq<Recv>, outgoing: seq<Send>, handler: Handler, limits: Limits)
    requires NoFailure(a) && Paced(a) && NoFailure(b) && Paced(b) && Delivered(a) == Delivered(b)
    requires var h := Find(Delivered(a), MARKER);
             h.Some? ==> h.value + 4 <= limits.maxHeaderBytes + 1 || h.value + 4 > limits.maxHeaderBytes + READ_CHUNK
    ensures Output(a, outgoing, handler, limits) == Output(b, outgoing, handler, limits)
  {
    SegmentationIndependence(a, limits);
    SegmentationIndependence(b, limits);
  }

  /** A response the peer can read back whole, and that goes out whole. */
  predicate Deliverable(r: Response, outgoing: seq<Send>, peer: Limits) {
    && WireSafe(r.headers) && NoAlias(r.headers)
    && |r.body| < USIZE_LIMIT && |r.body| <= peer.maxBodyBytes
    && |HeadText(r)| + 4 <= peer.maxHeaderBytes + 1
    && SendAll(|Encoded(r)|, outgoing, 0).result.Ok?
  }

  /**
   The two directions composed: when a request arrives and its response goes out whole, a peer
   reading that output with this reader, under any segmentation, gets the handler's body.
   */
  lemma BodyReachesPeer(
      incoming: seq<Recv>, outgoing: seq<Send>, handler: Handler, limits: Limits,
      received: seq<Recv>, peer: Limits)
    requires NoFailure(received) && Paced(received)
    ensures var asked, v := Reading(incoming, limits).0, Reading(received, peer).0;
            && asked.Ok? && asked.value.Some?
            && Delivered(received) == Output(incoming, outgoing, handler, limits)
            && Deliverable(handler(asked.value.value), outgoing, peer)
            ==> v.Ok? && v.value.Some? && v.value.value.body == handler(asked.value.value).body
  {
    OutputIsAnswer(incoming, outgoing, handler, limits);
    var asked := Reading(incoming, limits).0;
    if && asked.Ok? && asked.value.Some?
       && Delivered(received) == Output(incoming, outgoing, handler, limits)
       && Deliverable(handler(asked.value.value), outgoing, peer)
    {
      ResponseRoundTrip(handler(asked.value.value), received, peer);
    }
  }
}
