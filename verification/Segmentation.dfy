/**
 What a read means in terms of the byte stream, however the network cuts it up.

 On error-free schedules the verdict depends on the bytes alone when the marker ends within one
 byte of the header limit, is a limit error when it ends more than one read beyond it, and in
 between really depends on the segmentation.
 */
module Segmentation {
  import opened Errors
  import opened Octets
  import opened Sockets
  import opened HttpMessage
  import opened HttpReader

  predicate NoFailure(incoming: seq<Recv>) {
    forall i :: 0 <= i < |incoming| ==> incoming[i].Got?
  }

  /** The bytes delivered up to the first end of stream. */
  function Delivered(incoming: seq<Recv>): Bytes {
    if incoming == [] || incoming[0].Failed? || incoming[0].bytes == [] then []
    else incoming[0].bytes + Delivered(incoming[1..])
  }

  // ----- the verdict on a byte stream

  function StreamVerdict(data: Bytes, h: nat, limits: Limits): Result<Option<Request>>
    requires h + 4 <= |data|
  {
    VerdictBy(Judges(limits.maxBodyBytes), data, h)
  }

  function VerdictBy(judge: Judging, data: Bytes, h: nat): Result<Option<Request>>
    requires h + 4 <= |data|
  {
    match judge(data[..h])
    case Err(e) => Err(e)
    case Ok((head, c)) => Assemble(head, data[h + 4..], c)
  }

  // ----- every schedule

  /** The head loop, on the stream formed by its buffer and what is still to come. */
  lemma {:induction false} ScanOnStream(buf: Bytes, incoming: seq<Recv>, limit: nat, data: Bytes)
    requires NoFailure(incoming) && Paced(incoming) && data == buf + Delivered(incoming)
    ensures var r, h := ScanHead(buf, incoming, limit), Find(data, MARKER);
            && NoFailure(r.rest)
            && (r.Found? ==> h == Some(r.pos) && data == r.buf + Delivered(r.rest))
            && (r.Stopped? && h.Some? ==> r.verdict == Err(HEAD_LIMIT))
            && (h.None? ==> r.Stopped? && r.verdict == if |data| > limit then Err(HEAD_LIMIT)
                                                      else if data == [] then Ok(None)
                                                      else Err(MID_REQUEST))
            && (h.Some? && h.value + 4 <= limit + 1 ==> r.Found?)
            && (h.Some? && |buf| <= limit + READ_CHUNK < h.value + 4 ==> r.Stopped?)
    decreases |incoming|
  {
    FindPrefix(buf, Delivered(incoming), MARKER);
    if Find(buf, MARKER).None? && |buf| <= limit {
      if incoming != [] && incoming[0].bytes != [] {
        var next := buf + incoming[0].bytes;
        assert data == next + Delivered(incoming[1..]);
        ScanOnStream(next, incoming[1..], limit, data);
      } else {
        assert data == buf;
      }
    }
  }

  lemma {:induction false} FillOnStream(body: Bytes, incoming: seq<Recv>, want: nat, tail: Bytes)
    requires NoFailure(incoming) && tail == body + Delivered(incoming)
    ensures var r := FillBody(body, incoming, want).0;
            r.Ok? && UpTo(r.value, want) == UpTo(tail, want)
    decreases |incoming|
  {
    if |body| < want && incoming != [] && incoming[0].bytes != [] {
      var next := body + incoming[0].bytes;
      assert tail == next + Delivered(incoming[1..]);
      FillOnStream(next, incoming[1..], want, tail);
    }
  }

  /** Once the head is found, the verdict is the verdict on the stream. */
  lemma FoundVerdict(judge: Judging, incoming: seq<Recv>, limit: nat)
    requires NoFailure(incoming) && Paced(incoming)
    requires ScanHead([], incoming, limit).Found?
    ensures var data, h := Delivered(incoming), Find(Delivered(incoming), MARKER);
            h.Some? && ReadingBy(judge, incoming, limit).0 == VerdictBy(judge, data, h.value)
  {
    var data := Delivered(incoming);
    assert data == [] + data;
    ScanOnStream([], incoming, limit, data);
    var r := ScanHead([], incoming, limit);
    FoundParts(data, r.buf, Delivered(r.rest), r.pos);
    AfterHeadOnStream(judge(data[..r.pos]), r.buf[r.pos + 4..], r.rest, data[r.pos + 4..]);
  }

  lemma FoundParts(data: Bytes, buf: Bytes, later: Bytes, pos: nat)
    requires data == buf + later && pos + 4 <= |buf|
    ensures data[..pos] == buf[..pos] && data[pos + 4..] == buf[pos + 4..] + later
  {
  }

  lemma AfterHeadOnStream(judged: Result<(Head, nat)>, extra: Bytes, rest: seq<Recv>, tail: Bytes)
    requires NoFailure(rest) && tail == extra + Delivered(rest)
    ensures AfterHead(judged, extra, rest).0
            == match judged case Err(e) => Err(e) case Ok((h, c)) => Assemble(h, tail, c)
  {
    if judged.Ok? {
      FillOnStream(extra, rest, judged.value.1, tail);
    }
  }

  /**
   The verdict on every error-free schedule, in terms of the bytes delivered: fixed by the bytes
   within one byte of the header limit, always a limit error more than one read beyond it, and
   one of the two in between.
   */
  lemma SegmentationIndependence(incoming: seq<Recv>, limits: Limits)
    requires NoFailure(incoming) && Paced(incoming)
    ensures var data, limit, verdict := Delivered(incoming), limits.maxHeaderBytes, Reading(incoming, limits).0;
            match Find(data, MARKER)
            case None =>
              verdict == if |data| > limit then Err(HEAD_LIMIT)
                         else if data == [] then Ok(None)
                         else Err(MID_REQUEST)
            case Some(h) =>
              if h + 4 <= limit + 1 then verdict == StreamVerdict(data, h, limits)
              else if h + 4 > limit + READ_CHUNK then verdict == Err(HEAD_LIMIT)
              else verdict == StreamVerdict(data, h, limits) || verdict == Err(HEAD_LIMIT)
  {
    var data := Delivered(incoming);
    assert data == [] + data;
    ScanOnStream([], incoming, limits.maxHeaderBytes, data);
    if ScanHead([], incoming, limits.maxHeaderBytes).Found? {
      FoundVerdict(Judges(limits.maxBodyBytes), incoming, limits.maxHeaderBytes);
    }
  }

  /**
   The body of an accepted request: exactly the first bytes after the marker, as many as its first
   Content-Length says or as the peer sent, however they were split between the two loops.
   */
  lemma BodyExtraction(incoming: seq<Recv>, limits: Limits)
    requires NoFailure(incoming) && Paced(incoming)
    ensures var v, data, h := Reading(incoming, limits).0, Delivered(incoming), Find(Delivered(incoming), MARKER);
            v.Ok? && v.value.Some? ==>
              && h.Some? && IsPrefixBody(v.value.value, data[h.value + 4..], limits.maxBodyBytes)
  {
    var data := Delivered(incoming);
    assert data == [] + data;
    ScanOnStream([], incoming, limits.maxHeaderBytes, data);
    ScanVerdict([], incoming, limits.maxHeaderBytes);
    if ScanHead([], incoming, limits.maxHeaderBytes).Found? {
      FoundVerdict(Judges(limits.maxBodyBytes), incoming, limits.maxHeaderBytes);
      JudgedLength(data[..Find(data, MARKER).value], limits.maxBodyBytes);
    }
  }

  /** The body is the first min(Content-Length, available) bytes of `tail`, and the announced length is allowed. */
  predicate IsPrefixBody(req: Request, tail: Bytes, maxBody: nat) {
    var c := ContentLength(req.headers);
    && c <= maxBody && req.body <= tail
    && |req.body| == (if c <= |tail| then c else |tail|)
  }

  /** An accepted request is complete exactly when the peer sent as much as it announced. */
  lemma CompleteExactly(incoming: seq<Recv>, limits: Limits, h: nat)
    requires NoFailure(incoming) && Paced(incoming) && Find(Delivered(incoming), MARKER) == Some(h)
    ensures Accepts(incoming, limits) ==>
              var req := Reading(incoming, limits).0.value.value;
              |req.body| == ContentLength(req.headers)
              <==> h + 4 + ContentLength(req.headers) <= |Delivered(incoming)|
  {
    BodyExtraction(incoming, limits);
  }

  lemma JudgedLength(head: Bytes, maxBody: nat)
    ensures var j := Judges(maxBody)(head);
            j.Ok? ==> j.value.1 == ContentLength(j.value.0.headers) <= maxBody
  {
  }

  // ----- the bound is exact

  /** A schedule delivering `data` in reads as large as possible. */
  function Chunks(data: Bytes): seq<Recv>
    decreases |data|
  {
    if data == [] then [] else [Got(data[..FirstCut(data)])] + Chunks(data[FirstCut(data)..])
  }

  /** The length of the first read. */
  function FirstCut(data: Bytes): (n: nat)
    ensures n <= |data| && n <= READ_CHUNK && (data != [] ==> n > 0)
  {
    if |data| <= READ_CHUNK then |data| else READ_CHUNK
  }

  /** Error-free reads of at most a buffer's length, none of them empty. */
  predicate Ordinary(incoming: seq<Recv>) {
    && NoFailure(incoming) && Paced(incoming)
    && forall i :: 0 <= i < |incoming| ==> incoming[i].bytes != []
  }

  lemma {:induction false} ChunksOrdinary(data: Bytes)
    ensures Ordinary(Chunks(data))
    decreases |data|
  {
    if data != [] {
      ChunksOrdinary(data[FirstCut(data)..]);
    }
  }

  lemma ChunksStep(data: Bytes, rest: seq<Recv>)
    requires data != []
    ensures Chunks(data) + rest == [Got(data[..FirstCut(data)])] + (Chunks(data[FirstCut(data)..]) + rest)
  {
  }

  lemma CutInTwo(data: Bytes, n: nat)
    requires n <= |data|
    ensures data == data[..n] + data[n..]
  {
  }

  lemma Reassembled(data: Bytes, n: nat, rest: Bytes)
    requires n <= |data|
    ensures data[..n] + (data[n..] + rest) == data + rest
  {
  }

  lemma MoveOver(buf: Bytes, data: Bytes, n: nat)
    requires n <= |data|
    ensures buf + data[..n] + data[n..] == buf + data
  {
  }

  lemma DeliveredStep(bytes: Bytes, rest: seq<Recv>)
    requires bytes != []
    ensures Delivered([Got(bytes)] + rest) == bytes + Delivered(rest)
  {
    assert ([Got(bytes)] + rest)[1..] == rest;
  }

  lemma ScanStep(buf: Bytes, bytes: Bytes, rest: seq<Recv>, limit: nat)
    requires bytes != [] && Find(buf, MARKER).None? && |buf| <= limit
    ensures ScanHead(buf, [Got(bytes)] + rest, limit) == ScanHead(buf + bytes, rest, limit)
  {
    assert ([Got(bytes)] + rest)[1..] == rest;
  }

  lemma {:induction false} ChunksDeliver(data: Bytes, rest: seq<Recv>)
    ensures Delivered(Chunks(data) + rest) == data + Delivered(rest)
    decreases |data|
  {
    if data == [] {
      assert Chunks(data) + rest == rest;
    } else {
      var n := FirstCut(data);
      ChunksDeliver(data[n..], rest);
      ChunksStep(data, rest);
      DeliveredStep(data[..n], Chunks(data[n..]) + rest);
      Reassembled(data, n, Delivered(rest));
    }
  }

  lemma ChunksAlone(data: Bytes)
    ensures Delivered(Chunks(data)) == data
  {
    ChunksDeliver(data, []);
    assert Chunks(data) + [] == Chunks(data);
    assert data + [] == data;
  }

  /** Reading without a marker or the limit in sight only moves bytes into the buffer. */
  lemma {:induction false} ScanSkips(buf: Bytes, data: Bytes, rest: seq<Recv>, limit: nat)
    requires Find(buf + data, MARKER).None? && |buf| + |data| <= limit + 1
    ensures ScanHead(buf, Chunks(data) + rest, limit) == ScanHead(buf + data, rest, limit)
    decreases |data|
  {
    if data == [] {
      assert Chunks(data) + rest == rest && buf + data == buf;
    } else {
      var n := FirstCut(data);
      ChunksStep(data, rest);
      MoveOver(buf, data, n);
      FindPrefix(buf, data, MARKER);
      ScanStep(buf, data[..n], Chunks(data[n..]) + rest, limit);
      ScanSkips(buf + data[..n], data[n..], rest, limit);
    }
  }

  /** Deliver `k` bytes, then the others, each part in reads as large as possible. */
  function CutAt(data: Bytes, k: nat): seq<Recv>
    requires k <= |data|
  {
    Chunks(data[..k]) + Chunks(data[k..])
  }

  lemma CutAtDelivers(data: Bytes, k: nat)
    requires k <= |data|
    ensures Ordinary(CutAt(data, k)) && Delivered(CutAt(data, k)) == data
  {
    ChunksOrdinary(data[..k]);
    ChunksOrdinary(data[k..]);
    ChunksDeliver(data[..k], Chunks(data[k..]));
    ChunksAlone(data[k..]);
    CutInTwo(data, k);
  }

  /**
   Strictly between the two bounds the segmentation decides: reading exactly up to the limit first
   accepts, reading one byte more first rejects.
   */
  lemma BoundsAreExact(data: Bytes, limits: Limits)
    requires Find(data, MARKER).Some?
    requires limits.maxHeaderBytes + 1 < Find(data, MARKER).value + 4 <= limits.maxHeaderBytes + READ_CHUNK
    ensures var h, limit := Find(data, MARKER).value, limits.maxHeaderBytes;
            && Reading(CutAt(data, limit), limits).0 == StreamVerdict(data, h, limits)
            && Reading(CutAt(data, limit + 1), limits).0 == Err(HEAD_LIMIT) != StreamVerdict(data, h, limits)
  {
    var h, limit := Find(data, MARKER).value, limits.maxHeaderBytes;
    CutAtDelivers(data, limit);
    CutAtDelivers(data, limit + 1);
    AcceptedCut(data, limit);
    FoundVerdict(Judges(limits.maxBodyBytes), CutAt(data, limit), limit);
    RejectedCut(data, limit);
    NotALimitError(data, h, limits);
  }

  /** A head that was found is never blamed for its size. */
  lemma NotALimitError(data: Bytes, h: nat, limits: Limits)
    requires h + 4 <= |data|
    ensures StreamVerdict(data, h, limits) != Err(HEAD_LIMIT)
  {
  }

  /** The network may deliver the stream in this way, without failures. */
  predicate Presents(incoming: seq<Recv>, data: Bytes) {
    NoFailure(incoming) && Paced(incoming) && Delivered(incoming) == data
  }

  predicate Accepts(incoming: seq<Recv>, limits: Limits) {
    var v := Reading(incoming, limits).0; v.Ok? && v.value.Some?
  }

  lemma GoodHeadVerdict(data: Bytes, h: nat, limits: Limits)
    requires h + 4 <= |data| && Judge(data[..h], limits.maxBodyBytes).Ok?
    ensures var v := StreamVerdict(data, h, limits); v.Ok? && v.value.Some?
  {
  }

  /**
   A request whose head is good is accepted on every schedule exactly when the head ends within one
   byte of the header limit, and on some schedule exactly when it ends within one read of it.
   */
  lemma AcceptedExactly(data: Bytes, h: nat, limits: Limits)
    requires Find(data, MARKER) == Some(h) && Judge(data[..h], limits.maxBodyBytes).Ok?
    ensures (forall incoming :: Presents(incoming, data) ==> Accepts(incoming, limits))
            <==> h + 4 <= limits.maxHeaderBytes + 1
    ensures (exists incoming :: Presents(incoming, data) && Accepts(incoming, limits))
            <==> h + 4 <= limits.maxHeaderBytes + 4096
  {
    GoodHeadVerdict(data, h, limits);
    forall incoming | Presents(incoming, data)
      ensures h + 4 <= limits.maxHeaderBytes + 1 ==> Accepts(incoming, limits)
      ensures h + 4 > limits.maxHeaderBytes + READ_CHUNK ==> !Accepts(incoming, limits)
    {
      SegmentationIndependence(incoming, limits);
    }
    SomePresentation(data);
    if limits.maxHeaderBytes + 1 < h + 4 <= limits.maxHeaderBytes + READ_CHUNK {
      GapSchedules(data, h, limits);
    } else if h + 4 > limits.maxHeaderBytes + READ_CHUNK {
      assert !Accepts(Chunks(data), limits);
    }
  }

  lemma SomePresentation(data: Bytes)
    ensures Presents(Chunks(data), data)
  {
    ChunksOrdinary(data);
    ChunksAlone(data);
  }

  /** Between the bounds, one schedule accepts and another does not. */
  lemma GapSchedules(data: Bytes, h: nat, limits: Limits)
    requires Find(data, MARKER) == Some(h) && Judge(data[..h], limits.maxBodyBytes).Ok?
    requires limits.maxHeaderBytes + 1 < h + 4 <= limits.maxHeaderBytes + READ_CHUNK
    ensures var a := CutAt(data, limits.maxHeaderBytes); Presents(a, data) && Accepts(a, limits)
    ensures var b := CutAt(data, limits.maxHeaderBytes + 1); Presents(b, data) && !Accepts(b, limits)
  {
    GoodHeadVerdict(data, h, limits);
    BoundsAreExact(data, limits);
    CutAtDelivers(data, limits.maxHeaderBytes);
    CutAtDelivers(data, limits.maxHeaderBytes + 1);
  }

  lemma AcceptedCut(data: Bytes, limit: nat)
    requires Find(data, MARKER).Some?
    requires limit + 1 < Find(data, MARKER).value + 4 <= limit + READ_CHUNK
    ensures ScanHead([], CutAt(data, limit), limit).Found?
  {
    var front, back := data[..limit], data[limit..];
    CutInTwo(data, limit);
    FindPrefix(front, back, MARKER);
    assert [] + front == front;
    ScanSkips([], front, Chunks(back), limit);
    NextReadFinds(front, back, limit);
  }

  lemma NextReadFinds(front: Bytes, back: Bytes, limit: nat)
    requires |front| <= limit && Find(front, MARKER).None? && Find(front + back, MARKER).Some?
    requires |front| < Find(front + back, MARKER).value + 4 <= |front| + READ_CHUNK
    ensures ScanHead(front, Chunks(back), limit).Found?
  {
    var n := FirstCut(back);
    assert Chunks(back) == [Got(back[..n])] + Chunks(back[n..]);
    ScanStep(front, back[..n], Chunks(back[n..]), limit);
    MoveOver(front, back, n);
    MarkerReached(front + back, front + back[..n], back[n..]);
  }

  lemma MarkerReached(data: Bytes, front: Bytes, back: Bytes)
    requires data == front + back && Find(data, MARKER).Some? && Find(data, MARKER).value + 4 <= |front|
    ensures Find(front, MARKER).Some?
  {
    FindPrefix(front, back, MARKER);
  }

  lemma RejectedCut(data: Bytes, limit: nat)
    requires Find(data, MARKER).Some? && limit + 1 < Find(data, MARKER).value + 4
    ensures ScanHead([], CutAt(data, limit + 1), limit) == Stopped(Err(HEAD_LIMIT), Chunks(data[limit + 1..]))
  {
    var front, back := data[..limit + 1], data[limit + 1..];
    assert data == front + back && [] + front == front;
    FindPrefix(front, back, MARKER);
    ScanSkips([], front, Chunks(back), limit);
  }

  // ----- what an accepted head looks like

  /** Occurrences of CRLF at or after `i`. */
  function CrlfCount(s: Bytes, i: nat): nat
    decreases |s| - i
  {
    if i >= |s| then 0 else (if At(s, CRLF, i) then 1 else 0) + CrlfCount(s, i + 1)
  }

  lemma {:induction false} CrlfCountShift(s: Bytes, k: nat, i: nat)
    requires k <= |s|
    ensures CrlfCount(s[k..], i) == CrlfCount(s, k + i)
    decreases |s| - i
  {
    if k + i < |s| {
      CrlfCountShift(s, k, i + 1);
      AtSuffix(s, CRLF, k, i);
    }
  }

  lemma {:induction false} CrlfCountSkip(s: Bytes, i: nat, j: nat)
    requires i <= j <= |s| && forall k :: i <= k < j ==> !At(s, CRLF, k)
    ensures CrlfCount(s, i) == CrlfCount(s, j)
    decreases j - i
  {
    if i < j {
      CrlfCountSkip(s, i + 1, j);
    }
  }

  /** Occurrences of CRLF do not overlap. */
  lemma NoOverlap(s: Bytes, i: nat)
    requires At(s, CRLF, i)
    ensures !At(s, CRLF, i + 1)
  {
    assert s[i..i + 2][1] == s[i + 1];
    if i + 3 <= |s| {
      assert s[i + 1..i + 3][0] == s[i + 1];
    }
  }

  /** A text has one line more than it has CRLFs. */
  lemma {:induction false} LineCount(s: Bytes)
    ensures |Split(s, CRLF)| == 1 + CrlfCount(s, 0)
    decreases |s|
  {
    var h := Find(s, CRLF);
    FindIsFirst(s, CRLF, h);
    if h.None? {
      CrlfCountSkip(s, 0, |s|);
    } else {
      var i := h.value;
      CrlfCountSkip(s, 0, i);
      NoOverlap(s, i);
      CrlfCountShift(s, i + 2, 0);
      LineCount(s[i + 2..]);
    }
  }

  /** Before the first empty line, no line but the first can be empty. */
  lemma {:induction false} NoEmptyLine(s: Bytes, rest: Bytes)
    requires Find(s + MARKER + rest, MARKER) == Some(|s|)
    ensures forall i :: 1 <= i < |Split(s, CRLF)| ==> Split(s, CRLF)[i] != []
    decreases |s|
  {
    var h := Find(s, CRLF);
    if h.Some? {
      var i := h.value;
      MarkerInTail(s, rest, i);
      NoEmptyLine(s[i + 2..], rest);
    }
  }

  /** Behind its first line break, the text still comes before the first marker, and is not at a line break. */
  lemma MarkerInTail(s: Bytes, rest: Bytes, i: nat)
    requires Find(s + MARKER + rest, MARKER) == Some(|s|) && Find(s, CRLF) == Some(i)
    ensures var tail := s[i + 2..];
            Find(tail + MARKER + rest, MARKER) == Some(|tail|) && Split(tail, CRLF)[0] != []
  {
    var data, tail := s + MARKER + rest, s[i + 2..];
    FindIsFirst(s, CRLF, Some(i));
    FindIsFirst(data, MARKER, Some(|s|));
    assert tail + MARKER + rest == data[i + 2..];
    FirstInSuffix(data, MARKER, i + 2, |s|);
    FindIsFirst(tail + MARKER + rest, MARKER, Some(|tail|));
    if Split(tail, CRLF)[0] == [] {
      EmptyFirstLine(tail);
      NoMarkerAt(s, rest, i);
    }
  }

  /** Two line breaks in a row, the second one maybe the marker's own, would be an earlier marker. */
  lemma NoMarkerAt(s: Bytes, rest: Bytes, i: nat)
    requires At(s, CRLF, i) && (s[i + 2..] == [] || At(s[i + 2..], CRLF, 0))
    ensures At(s + MARKER + rest, MARKER, i)
  {
    var data := s + MARKER + rest;
    assert data[i..i + 2] == s[i..i + 2];
    if i + 2 < |s| {
      assert data[i + 2..i + 4] == s[i + 2..][0..2];
    } else {
      assert data[i + 2..i + 4] == MARKER[..2];
    }
    assert data[i..i + 4] == data[i..i + 2] + data[i + 2..i + 4];
  }

  lemma FirstInSuffix(s: Bytes, pat: Bytes, k: nat, h: nat)
    requires IsFirst(s, pat, Some(h)) && k <= h
    ensures IsFirst(s[k..], pat, Some(h - k))
  {
    assert s[k..][h - k..h - k + |pat|] == s[h..h + |pat|];
    forall j: nat | j < h - k
      ensures !At(s[k..], pat, j)
    {
      assert !At(s, pat, k + j);
      if j + |pat| <= |s[k..]| {
        assert s[k..][j..j + |pat|] == s[k + j..k + j + |pat|];
      }
    }
  }

  lemma EmptyFirstLine(s: Bytes)
    requires Split(s, CRLF)[0] == []
    ensures s == [] || At(s, CRLF, 0)
  {
    var h := Find(s, CRLF);
    FindIsFirst(s, CRLF, h);
  }

  /**
   A request head taken from a stream is accepted only line by line: each line after the first is
   a header, none is skipped, and they come in stream order. The first line splits into at least
   three words, of which the first three are kept.
   */
  lemma HeaderLineExactness(data: Bytes, h: nat, maxBody: nat)
    requires Find(data, MARKER) == Some(h)
    requires Judge(data[..h], maxBody).Ok?
    ensures var (head, _) := Judge(data[..h], maxBody).value;
            var lines := Split(data[..h], CRLF);
            var words := Split(lines[0], " ");
            && Join(lines, CRLF) == data[..h]
            && |words| >= 3 && [head.verb, head.target, head.version] == words[..3]
            && |head.headers| == |lines| - 1 == CrlfCount(data[..h], 0)
            && forall i :: 0 <= i < |head.headers| ==> HeaderOf(lines[i + 1]) == Some(head.headers[i])
  {
    var s, rest := data[..h], data[h + 4..];
    FindIsFirst(data, MARKER, Some(h));
    assert data == s + MARKER + rest;
    NoEmptyLine(s, rest);
    LineCount(s);
    SplitInverse(s, CRLF);
    AcceptedHead(s, Judge(s, maxBody).value.0);
  }

  /**
   An accepted request, field by field: its first line's first three words, and one header for each
   further line before the marker, cut from that line.
   */
  lemma AcceptedRequest(incoming: seq<Recv>, limits: Limits, h: nat)
    requires NoFailure(incoming) && Paced(incoming) && Find(Delivered(incoming), MARKER) == Some(h)
    ensures Accepts(incoming, limits) ==>
              var req := Reading(incoming, limits).0.value.value;
              var lines := Split(Delivered(incoming)[..h], CRLF);
              var words := Split(lines[0], " ");
              && |words| >= 3 && req.verb == words[0] && req.target == words[1] && req.version == words[2]
              && |req.headers| == |lines| - 1
              && forall i :: 0 <= i < |req.headers| ==> HeaderOf(lines[i + 1]) == Some(req.headers[i])
  {
    var data := Delivered(incoming);
    SegmentationIndependence(incoming, limits);
    if Accepts(incoming, limits) {
      HeaderLineExactness(data, h, limits.maxBodyBytes);
      JudgedRequest(Judges(limits.maxBodyBytes), data, h);
    }
  }

  lemma JudgedRequest(judge: Judging, data: Bytes, h: nat)
    requires h + 4 <= |data|
    ensures var v := VerdictBy(judge, data, h);
            v.Ok? && v.value.Some? ==>
              && judge(data[..h]).Ok?
              && var head := judge(data[..h]).value.0;
                 var req := v.value.value;
                 req.verb == head.verb && req.target == head.target && req.version == head.version
                 && req.headers == head.headers
  {
  }

  lemma HeadParts(s: Bytes, head: Head)
    requires HeadOf(s) == Ok(head)
    ensures var lines := Split(s, CRLF);
            var words := Split(lines[0], " ");
            && |words| >= 3 && [head.verb, head.target, head.version] == words[..3]
            && Gather(lines[1..], HeaderOf) == Some(head.headers)
  {
  }

  lemma Shifted<T>(lines: seq<Bytes>, f: Bytes -> Option<T>, all: seq<T>)
    requires lines != [] && Gather(lines[1..], f) == Some(all)
    requires forall i :: 1 <= i < |lines| ==> lines[i] != []
    ensures |all| == |lines| - 1 && forall i :: 0 <= i < |all| ==> f(lines[i + 1]) == Some(all[i])
  {
    GatherAligned(lines[1..], f);
    assert forall i :: 0 <= i < |lines| - 1 ==> lines[1..][i] == lines[i + 1];
  }

  lemma AcceptedHead(s: Bytes, head: Head)
    requires HeadOf(s) == Ok(head)
    requires forall i :: 1 <= i < |Split(s, CRLF)| ==> Split(s, CRLF)[i] != []
    ensures var lines := Split(s, CRLF);
            var words := Split(lines[0], " ");
            && |words| >= 3 && [head.verb, head.target, head.version] == words[..3]
            && |head.headers| == |lines| - 1
            && forall i :: 0 <= i < |head.headers| ==> HeaderOf(lines[i + 1]) == Some(head.headers[i])
  {
    HeadParts(s, head);
    Shifted(Split(s, CRLF), HeaderOf, head.headers);
  }
}
