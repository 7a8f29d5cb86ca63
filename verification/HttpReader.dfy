/** Reading one request off a stream: head up to the empty line, then the announced body. */
module HttpReader {
  import opened Errors
  import opened Octets
  import opened Sockets
  import opened HttpMessage

  datatype Limits = Limits(maxHeaderBytes: nat, maxBodyBytes: nat)

  const HEAD_LIMIT := InvalidInput("request head exceeds limit")
  const BODY_LIMIT := InvalidInput("request body exceeds limit")
  const MID_REQUEST := InvalidInput("connection closed mid-request")
  const BAD_UTF8 := InvalidInput("request head is not valid UTF-8")

  /** What reading a request gives: a request, nothing from a peer that closed at once, or an error. */
  type Verdict = Result<Option<Request>>

  // ----- what the reader does under a schedule

  /** The head loop ends with a marker in the buffer, or with the verdict of the whole read. */
  datatype Scan =
    | Found(pos: nat, buf: Bytes, rest: seq<Recv>)
    | Stopped(verdict: Verdict, rest: seq<Recv>)

  function ScanHead(buf: Bytes, incoming: seq<Recv>, limit: nat): (r: Scan)
    ensures r.Found? ==> r.pos + 4 <= |r.buf|
    decreases |incoming|
  {
    match Find(buf, MARKER)
    case Some(pos) => Found(pos, buf, incoming)
    case None =>
      if |buf| > limit then Stopped(Err(HEAD_LIMIT), incoming)
      else if incoming == [] then Stopped(AtEof(buf), [])
      else match incoming[0]
        case Failed(e) => Stopped(Err(Os(e)), incoming[1..])
        case Got(bytes) =>
          if bytes == [] then Stopped(AtEof(buf), incoming[1..])
          else ScanHead(buf + bytes, incoming[1..], limit)
  }

  function AtEof(buf: Bytes): Verdict {
    if buf == [] then Ok(None) else Err(MID_REQUEST)
  }

  /** The body vector before truncation, or the read error, with the unused answers. */
  function FillBody(body: Bytes, incoming: seq<Recv>, want: nat): (Result<Bytes>, seq<Recv>)
    decreases |incoming|
  {
    if |body| >= want then (Ok(body), incoming)
    else if incoming == [] then (Ok(body), [])
    else match incoming[0]
      case Failed(e) => (Err(Os(e)), incoming[1..])
      case Got(bytes) =>
        if bytes == [] then (Ok(body), incoming[1..])
        else FillBody(body + bytes, incoming[1..], want)
  }

  /** Everything decided by the head alone: its parts and the number of body bytes to read. */
  function Judge(head: Bytes, maxBody: nat): Result<(Head, nat)> {
    if !ValidUtf8(head) then Err(BAD_UTF8)
    else match HeadOf(head)
      case Err(e) => Err(e)
      case Ok(h) =>
        var c := ContentLength(h.headers);
        if c > maxBody then Err(BODY_LIMIT) else Ok((h, c))
  }

  function UpTo(s: Bytes, n: nat): Bytes {
    if n <= |s| then s[..n] else s
  }

  function Assemble(h: Head, body: Bytes, length: nat): Verdict {
    Ok(Some(Request(h.verb, h.target, h.version, h.headers, UpTo(body, length))))
  }

  /** A way of judging request heads; the transport part of the reader works with any. */
  type Judging = Bytes -> Result<(Head, nat)>

  function Judges(maxBody: nat): Judging {
    head => Judge(head, maxBody)
  }

  /** The verdict on one connection, and the answers left unused. */
  function Reading(incoming: seq<Recv>, limits: Limits): (Verdict, seq<Recv>) {
    ReadingBy(Judges(limits.maxBodyBytes), incoming, limits.maxHeaderBytes)
  }

  function ReadingBy(judge: Judging, incoming: seq<Recv>, limit: nat): (Verdict, seq<Recv>) {
    ReadingFrom([], judge, incoming, limit)
  }

  /** The same with `buf` already read. */
  function ReadingFrom(buf: Bytes, judge: Judging, incoming: seq<Recv>, limit: nat)
    : (Verdict, seq<Recv>)
  {
    match ScanHead(buf, incoming, limit)
    case Stopped(v, rest) => (v, rest)
    case Found(pos, all, rest) => AfterHead(judge(all[..pos]), all[pos + 4..], rest)
  }

  function AfterHead(judged: Result<(Head, nat)>, extra: Bytes, rest: seq<Recv>)
    : (Verdict, seq<Recv>)
  {
    match judged
    case Err(e) => (Err(e), rest)
    case Ok((h, c)) =>
      match FillBody(extra, rest, c)
      case (Err(e), rest') => (Err(e), rest')
      case (Ok(body), rest') => (Assemble(h, body, c), rest')
  }

  // ----- how large the buffers get

  function Max(a: nat, b: nat): nat {
    if a < b then b else a
  }

  /** The largest size the head buffer ever has, whatever the outcome. */
  function HeadPeak(buf: Bytes, incoming: seq<Recv>, limit: nat): nat
    decreases |incoming|
  {
    if Find(buf, MARKER).Some? || |buf| > limit || incoming == [] || incoming[0].Failed? || incoming[0].bytes == []
    then |buf|
    else Max(|buf|, HeadPeak(buf + incoming[0].bytes, incoming[1..], limit))
  }

  /** The largest size the body vector ever has, whatever the outcome. */
  function BodyPeak(body: Bytes, incoming: seq<Recv>, want: nat): nat
    decreases |incoming|
  {
    if |body| >= want || incoming == [] || incoming[0].Failed? || incoming[0].bytes == []
    then |body|
    else Max(|body|, BodyPeak(body + incoming[0].bytes, incoming[1..], want))
  }

  /** The largest size of the body vector over a whole read, 0 when there never is one. */
  function WholeBodyPeak(judge: Judging, incoming: seq<Recv>, limit: nat): nat {
    match ScanHead([], incoming, limit)
    case Stopped(_, _) => 0
    case Found(pos, buf, rest) =>
      match judge(buf[..pos]) case Err(_) => 0 case Ok((_, c)) => BodyPeak(buf[pos + 4..], rest, c)
  }

  lemma {:induction false} HeadPeakBound(buf: Bytes, incoming: seq<Recv>, limit: nat)
    requires Paced(incoming) && |buf| <= limit + READ_CHUNK
    ensures HeadPeak(buf, incoming, limit) <= limit + READ_CHUNK
    ensures ScanHead(buf, incoming, limit).Found? ==> |ScanHead(buf, incoming, limit).buf| <= limit + READ_CHUNK
    ensures Paced(ScanHead(buf, incoming, limit).rest)
    decreases |incoming|
  {
    if Find(buf, MARKER).None? && |buf| <= limit && incoming != [] && incoming[0].Got? {
      HeadPeakBound(buf + incoming[0].bytes, incoming[1..], limit);
    }
  }

  lemma {:induction false} BodyPeakBound(body: Bytes, incoming: seq<Recv>, want: nat)
    requires Paced(incoming)
    ensures BodyPeak(body, incoming, want) <= Max(|body|, want + READ_CHUNK - 1)
    decreases |incoming|
  {
    if |body| < want && incoming != [] && incoming[0].Got? {
      BodyPeakBound(body + incoming[0].bytes, incoming[1..], want);
    }
  }

  /**
   On every schedule, at every point of the read and whatever its outcome: the head buffer stays
   within one read of the header limit, and the body vector within what the head left over or one
   read of the body limit.
   */
  lemma BufferBounds(incoming: seq<Recv>, limits: Limits)
    requires Paced(incoming)
    ensures HeadPeak([], incoming, limits.maxHeaderBytes) <= limits.maxHeaderBytes + 4096
    ensures WholeBodyPeak(Judges(limits.maxBodyBytes), incoming, limits.maxHeaderBytes)
            <= Max(limits.maxHeaderBytes + 4092, limits.maxBodyBytes + 4095)
  {
    BufferBoundsBy(Judges(limits.maxBodyBytes), incoming, limits.maxHeaderBytes, limits.maxBodyBytes);
  }

  lemma BufferBoundsBy(judge: Judging, incoming: seq<Recv>, limit: nat, maxBody: nat)
    requires Paced(incoming) && forall head :: judge(head).Ok? ==> judge(head).value.1 <= maxBody
    ensures HeadPeak([], incoming, limit) <= limit + READ_CHUNK
    ensures WholeBodyPeak(judge, incoming, limit) <= Max(limit + READ_CHUNK - 4, maxBody + READ_CHUNK - 1)
  {
    HeadPeakBound([], incoming, limit);
    var scan := ScanHead([], incoming, limit);
    if scan.Found? && judge(scan.buf[..scan.pos]).Ok? {
      BodyPeakBound(scan.buf[scan.pos + 4..], scan.rest, judge(scan.buf[..scan.pos]).value.1);
    }
  }

  // ----- the reader itself

  /** The ghost results are the largest sizes the two buffers had. */
  method ReadRequest(stream: TcpStream, limits: Limits)
    returns (r: Verdict, ghost headPeak: nat, ghost bodyPeak: nat)
    requires Paced(stream.incoming)
    modifies stream`incoming, stream`errno
    ensures (r, stream.incoming) == Reading(old(stream.incoming), limits)
    ensures Paced(stream.incoming)
    ensures r.Ok? && r.value.Some? ==> |r.value.value.body| <= limits.maxBodyBytes
    ensures headPeak == HeadPeak([], old(stream.incoming), limits.maxHeaderBytes)
    ensures bodyPeak == WholeBodyPeak(Judges(limits.maxBodyBytes), old(stream.incoming), limits.maxHeaderBytes)
  {
    var scan;
    scan, headPeak := ReadHead(stream, limits.maxHeaderBytes);
    bodyPeak := 0;
    match scan
    case Stopped(v, _) =>
      ScanVerdict([], old(stream.incoming), limits.maxHeaderBytes);
      r := v;
    case Found(headEnd, buf, _) =>
      var judged := ExamineHead(buf[..headEnd], limits.maxBodyBytes);
      match judged
      case Err(e) =>
        r := Err(e);
      case Ok((h, length)) =>
        var body;
        body, bodyPeak := ReadBody(stream, buf[headEnd + 4..], length);
        match body
        case Err(e) => r := Err(e);
        case Ok(bytes) => r := Assemble(h, bytes, length);
  }

  method ExamineHead(head: Bytes, maxBody: nat) returns (r: Result<(Head, nat)>)
    ensures r == Judge(head, maxBody)
    ensures r.Ok? ==> r.value.1 <= maxBody
  {
    if !ValidUtf8(head) {
      return Err(BAD_UTF8);
    }
    var parsed := ParseHead(head);
    match parsed
    case Err(e) =>
      return Err(e);
    case Ok(h) =>
      var length := ContentLength(h.headers);
      if length > maxBody {
        return Err(BODY_LIMIT);
      }
      return Ok((h, length));
  }

  lemma {:induction false} ScanVerdict(buf: Bytes, incoming: seq<Recv>, limit: nat)
    ensures ScanHead(buf, incoming, limit).Stopped? && ScanHead(buf, incoming, limit).verdict.Ok? ==>
              ScanHead(buf, incoming, limit).verdict == Ok(None)
    decreases |incoming|
  {
    if incoming != [] && incoming[0].Got? {
      ScanVerdict(buf + incoming[0].bytes, incoming[1..], limit);
    }
  }

  /** Read until the end-of-headers marker. The loop ends because the buffer outgrows the limit. */
  method ReadHead(stream: TcpStream, limit: nat) returns (r: Scan, ghost peak: nat)
    requires Paced(stream.incoming)
    modifies stream`incoming, stream`errno
    ensures r == ScanHead([], old(stream.incoming), limit)
    ensures r.rest == stream.incoming && Paced(stream.incoming)
    ensures peak == HeadPeak([], old(stream.incoming), limit) <= limit + READ_CHUNK
  {
    var buf: Bytes := [];
    peak := 0;
    while true
      invariant Paced(stream.incoming)
      invariant ScanHead(buf, stream.incoming, limit) == ScanHead([], old(stream.incoming), limit)
      invariant |buf| <= peak <= limit + READ_CHUNK
      invariant Max(peak, HeadPeak(buf, stream.incoming, limit)) == HeadPeak([], old(stream.incoming), limit)
      decreases limit + READ_CHUNK - |buf|
    {
      var pos := Find(buf, MARKER);
      if pos.Some? {
        r := Found(pos.value, buf, stream.incoming);
        return;
      }
      if |buf| > limit {
        r := Stopped(Err(HEAD_LIMIT), stream.incoming);
        return;
      }
      var n := stream.Read();
      match n
      case Err(e) =>
        r := Stopped(Err(e), stream.incoming);
        return;
      case Ok(chunk) =>
        if chunk == [] {
          r := Stopped(AtEof(buf), stream.incoming);
          return;
        }
        buf := buf + chunk;
        peak := Max(peak, |buf|);
    }
  }

  /** Read until the announced length is there, or the peer closes. */
  method ReadBody(stream: TcpStream, extra: Bytes, want: nat) returns (r: Result<Bytes>, ghost peak: nat)
    requires Paced(stream.incoming)
    modifies stream`incoming, stream`errno
    ensures (r, stream.incoming) == FillBody(extra, old(stream.incoming), want)
    ensures Paced(stream.incoming)
    ensures peak == BodyPeak(extra, old(stream.incoming), want) <= Max(|extra|, want + READ_CHUNK - 1)
  {
    var body := extra;
    peak := |body|;
    while |body| < want
      invariant Paced(stream.incoming)
      invariant FillBody(body, stream.incoming, want) == FillBody(extra, old(stream.incoming), want)
      invariant |body| <= peak <= Max(|extra|, want + READ_CHUNK - 1)
      invariant Max(peak, BodyPeak(body, stream.incoming, want)) == BodyPeak(extra, old(stream.incoming), want)
      decreases want + READ_CHUNK - |body|
    {
      var n := stream.Read();
      match n
      case Err(e) =>
        r := Err(e);
        return;
      case Ok(chunk) =>
        if chunk == [] {
          r := Ok(body);
          return;
        }
        body := body + chunk;
        peak := Max(peak, |body|);
    }
    r := Ok(body);
  }
}
