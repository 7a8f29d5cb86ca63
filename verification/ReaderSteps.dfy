/**
 The request reader one read at a time, as other threads see it: between two reads it is fully
 described by its buffer, and a run may be cut at any read.
 */
module ReaderSteps {
  import opened Errors
  import opened Octets
  import opened Sockets
  import opened HttpMessage
  import opened HttpReader

  datatype Reader =
    | InHead(buf: Bytes)                              // about to read, no marker yet
    | InBody(head: Head, want: nat, body: Bytes)      // about to read, body still short
    | Done(verdict: Result<Option<Request>>)

  /** The top of the head loop: what is known from the buffer without reading. */
  function HeadLoop(buf: Bytes, judge: Judging, limit: nat): Reader {
    match Find(buf, MARKER)
    case Some(pos) => BodyLoop(judge(buf[..pos]), buf[pos + 4..])
    case None => if |buf| > limit then Done(Err(HEAD_LIMIT)) else InHead(buf)
  }

  /** The top of the body loop. */
  function BodyLoop(judged: Result<(Head, nat)>, body: Bytes): Reader {
    match judged
    case Err(e) => Done(Err(e))
    case Ok((h, c)) => if |body| < c then InBody(h, c, body) else Done(Assemble(h, body, c))
  }

  /** One read and what follows it, up to the next read or the verdict. */
  function Feed(r: Reader, a: Recv, judge: Judging, limit: nat): Reader {
    match r
    case InHead(buf) =>
      (match a
       case Failed(e) => Done(Err(Os(e)))
       case Got(bytes) => if bytes == [] then Done(AtEof(buf)) else HeadLoop(buf + bytes, judge, limit))
    case InBody(h, c, body) =>
      (match a
       case Failed(e) => Done(Err(Os(e)))
       case Got(bytes) => if bytes == [] then Done(Assemble(h, body, c)) else BodyLoop(Ok((h, c)), body + bytes))
    case Done(_) => r
  }

  /** A reader that has not stopped really needs its next read. */
  predicate Waits(r: Reader, limit: nat) {
    match r
    case InHead(buf) => Find(buf, MARKER).None? && |buf| <= limit
    case InBody(_, c, body) => |body| < c
    case Done(_) => true
  }

  lemma FeedWaits(r: Reader, a: Recv, judge: Judging, limit: nat)
    ensures Waits(Feed(r, a, judge, limit), limit)
  {
  }

  /** The verdict and unused answers of the rest of the run. */
  function Finish(r: Reader, incoming: seq<Recv>, judge: Judging, limit: nat)
    : (Result<Option<Request>>, seq<Recv>)
  {
    match r
    case InHead(buf) => ReadingFrom(buf, judge, incoming, limit)
    case InBody(h, c, body) => AfterHead(Ok((h, c)), body, incoming)
    case Done(v) => (v, incoming)
  }

  lemma HeadLoopFinish(buf: Bytes, incoming: seq<Recv>, judge: Judging, limit: nat)
    ensures Finish(HeadLoop(buf, judge, limit), incoming, judge, limit)
            == ReadingFrom(buf, judge, incoming, limit)
  {
    var pos := Find(buf, MARKER);
    if pos.Some? {
      BodyLoopFinish(judge(buf[..pos.value]), buf[pos.value + 4..], incoming, judge, limit);
    }
  }

  lemma BodyLoopFinish(
      judged: Result<(Head, nat)>, body: Bytes, incoming: seq<Recv>, judge: Judging, limit: nat)
    ensures Finish(BodyLoop(judged, body), incoming, judge, limit) == AfterHead(judged, body, incoming)
  {
  }

  /** The answer to the next read; past the end of the schedule the peer has closed. */
  function NextAnswer(incoming: seq<Recv>): Recv {
    if incoming == [] then Got([]) else incoming[0]
  }

  function AfterAnswer(incoming: seq<Recv>): seq<Recv> {
    if incoming == [] then [] else incoming[1..]
  }

  /** One read leaves the outcome of the whole run as it was. */
  lemma FeedFinish(r: Reader, incoming: seq<Recv>, judge: Judging, limit: nat)
    requires Waits(r, limit) && !r.Done?
    ensures Finish(Feed(r, NextAnswer(incoming), judge, limit), AfterAnswer(incoming), judge, limit)
            == Finish(r, incoming, judge, limit)
  {
    var a := NextAnswer(incoming);
    if a.Got? && a.bytes != [] {
      match r
      case InHead(buf) =>
        HeadLoopFinish(buf + a.bytes, incoming[1..], judge, limit);
      case InBody(h, c, body) =>
        BodyLoopFinish(Ok((h, c)), body + a.bytes, incoming[1..], judge, limit);
    }
  }

  /** Read on until the verdict or the end of `incoming`; the reader then, and the unused answers. */
  function FeedAll(r: Reader, incoming: seq<Recv>, judge: Judging, limit: nat): (Reader, seq<Recv>)
    decreases |incoming|
  {
    if r.Done? || incoming == [] then (r, incoming)
    else FeedAll(Feed(r, incoming[0], judge, limit), incoming[1..], judge, limit)
  }

  /** A run may be cut at any point of its schedule. */
  lemma {:induction false} ReadInParts(
      r: Reader, front: seq<Recv>, tail: seq<Recv>, judge: Judging, limit: nat)
    requires Waits(r, limit)
    ensures var (q, unused) := FeedAll(r, front, judge, limit);
            && Waits(q, limit) && (!q.Done? ==> unused == [])
            && Finish(r, front + tail, judge, limit) == Finish(q, unused + tail, judge, limit)
    decreases |front|
  {
    if !r.Done? && front != [] {
      var next := Feed(r, front[0], judge, limit);
      FeedWaits(r, front[0], judge, limit);
      FeedFinish(r, front + tail, judge, limit);
      assert (front + tail)[1..] == front[1..] + tail;
      ReadInParts(next, front[1..], tail, judge, limit);
    }
  }

  /** The reader before its first read. */
  function Start(): Reader {
    InHead([])
  }

  lemma StartFinish(incoming: seq<Recv>, judge: Judging, limit: nat)
    ensures Waits(Start(), limit)
    ensures Finish(Start(), incoming, judge, limit) == ReadingBy(judge, incoming, limit)
  {
  }

  /** Whether `good` alone brings the reader to its verdict. */
  predicate Decides(good: seq<Recv>, limits: Limits) {
    FeedAll(Start(), good, Judges(limits.maxBodyBytes), limits.maxHeaderBytes).0.Done?
  }

  /**
   A failing read, EINTR included: if the answers before it bring the reader to its verdict it is
   never reached and changes nothing; otherwise it is the verdict, and nothing after it is read.
   */
  lemma FailureIsFinal(good: seq<Recv>, tail: seq<Recv>, limits: Limits)
    requires tail != [] && tail[0].Failed?
    ensures Reading(good + tail, limits)
            == if Decides(good, limits)
               then var r := Reading(good, limits); (r.0, r.1 + tail)
               else (Err(Os(tail[0].errno)), tail[1..])
  {
    var judge, limit := Judges(limits.maxBodyBytes), limits.maxHeaderBytes;
    FailureIsFinalBy(judge, good, tail, limit);
  }

  lemma FailureIsFinalBy(judge: Judging, good: seq<Recv>, tail: seq<Recv>, limit: nat)
    requires tail != [] && tail[0].Failed?
    ensures ReadingBy(judge, good + tail, limit)
            == if FeedAll(Start(), good, judge, limit).0.Done?
               then var r := ReadingBy(judge, good, limit); (r.0, r.1 + tail)
               else (Err(Os(tail[0].errno)), tail[1..])
  {
    StartFinish(good + tail, judge, limit);
    StartFinish(good, judge, limit);
    ReadInParts(Start(), good, tail, judge, limit);
    ReadInParts(Start(), good, [], judge, limit);
    assert good + [] == good;
    var (q, unused) := FeedAll(Start(), good, judge, limit);
    if q.Done? {
      assert unused + [] == unused;
    } else {
      assert unused + tail == tail;
      FeedFinish(q, tail, judge, limit);
    }
  }
}
