/**
 A connected TCP stream as its owner sees it: each `recv` and `send` is answered by the kernel from
 a schedule fixed in advance and unknown to the program.
 */
module Sockets {
  import opened Errors
  import opened Octets

  const READ_CHUNK := 4096

  /** One answer to `recv`: some bytes (none at end of stream), or an errno. */
  datatype Recv = Got(bytes: Bytes) | Failed(errno: int)

  /** One answer to `send`: how many bytes the kernel is ready to take, or an errno. */
  datatype Send = Took(count: nat) | Broke(errno: int)

  /** The kernel never hands over more bytes than the read buffer holds. */
  predicate Paced(incoming: seq<Recv>) {
    forall i :: 0 <= i < |incoming| && incoming[i].Got? ==> |incoming[i].bytes| <= READ_CHUNK
  }

  // ----- the meaning of write_all

  /** Bytes accepted, outcome, errno left behind and unused answers of one `write_all`. */
  datatype Sent = Sent(count: nat, result: Result<()>, errno: int, rest: seq<Send>)

  /**
   What `write_all` of `len` bytes does under a schedule. The schedule is finite, so it holds
   finitely many EINTRs; after its last answer the kernel takes whatever it is given.
   */
  function SendAll(len: nat, plan: seq<Send>, errno: int): Sent
    decreases len, |plan|
  {
    if len == 0 then Sent(0, Ok(()), errno, plan)
    else if plan == [] then Sent(len, Ok(()), errno, [])
    else match plan[0]
      case Took(n) =>
        var k := if n < len then n else len;
        if k == 0 then Sent(0, Err(Os(errno)), errno, plan[1..])
        else var r := SendAll(len - k, plan[1..], errno); r.(count := k + r.count)
      case Broke(e) =>
        if e == EINTR then SendAll(len, plan[1..], e)
        else Sent(0, Err(Os(e)), e, plan[1..])
  }

  /** How much gets out does not depend on the errno the thread starts with. */
  lemma {:induction false} SendAllErrnoFree(len: nat, plan: seq<Send>, e: int, f: int)
    ensures SendAll(len, plan, e).count == SendAll(len, plan, f).count
    ensures SendAll(len, plan, e).rest == SendAll(len, plan, f).rest
    decreases len, |plan|
  {
    if len > 0 && plan != [] {
      match plan[0]
      case Took(n) =>
        if n > 0 {
          SendAllErrnoFree(if n < len then len - n else 0, plan[1..], e, f);
        }
      case Broke(_) =>
    }
  }

  /** The answers a `write_all` may swallow without stopping. */
  predicate Harmless(a: Send) {
    a == Broke(EINTR) || (a.Took? && a.count > 0)
  }

  /** Sum of the counts offered by a run of answers. */
  function Offered(plan: seq<Send>): nat {
    if plan == [] then 0
    else Offered(plan[..|plan| - 1]) + match plan[|plan| - 1] case Took(n) => n case Broke(_) => 0
  }

  lemma {:induction false} OfferedFront(a: Send, plan: seq<Send>)
    ensures Offered([a] + plan) == Offered(plan) + match a case Took(n) => n case Broke(_) => 0
  {
    if plan == [] {
      assert ([a] + plan)[..0] == [];
    } else {
      var m := |plan| - 1;
      OfferedFront(a, plan[..m]);
      assert ([a] + plan)[..|plan|] == [a] + plan[..m];
    }
  }

  /**
   `write_all` never accepts more than the buffer, succeeds exactly when it accepts all of it, and
   consumes answers strictly in order.
   */
  lemma {:induction false} SendAllExact(len: nat, plan: seq<Send>, errno: int)
    ensures var s := SendAll(len, plan, errno);
            && s.count <= len
            && (s.result.Ok? <==> s.count == len)
            && |s.rest| <= |plan| && s.rest == plan[|plan| - |s.rest|..]
    decreases len, |plan|
  {
    if len > 0 && plan != [] {
      match plan[0]
      case Took(n) =>
        if n > 0 {
          SendAllExact(if n < len then len - n else 0, plan[1..], errno);
        }
      case Broke(e) =>
        if e == EINTR {
          SendAllExact(len, plan[1..], e);
        }
    }
  }

  /**
   The outcome is decided by the first answer that is neither progress nor EINTR: if the answers
   before it offer the whole buffer the write succeeds, otherwise it stops there, having accepted
   exactly what was offered. A send that takes nothing is reported with whatever errno is left over:
   that of an earlier interruption, or the one from before the call.
   */
  lemma {:induction false} SendAllOutcome(len: nat, plan: seq<Send>, errno: int, k: nat)
    requires k <= |plan| && forall i :: 0 <= i < k ==> Harmless(plan[i])
    requires k < |plan| ==> !Harmless(plan[k])
    ensures var s := SendAll(len, plan, errno);
            && (s.result.Ok? <==> k == |plan| || Offered(plan[..k]) >= len)
            && (s.result.Err? ==> s.count == Offered(plan[..k]) < len && s.rest == plan[k + 1..])
            && (s.result.Err? && plan[k].Broke? ==> s.result.error == Os(plan[k].errno))
            && (s.result.Err? && plan[k].Took? ==>
                  s.result.error == Os(if Broke(EINTR) in plan[..k] then EINTR else errno))
    decreases len, |plan|
  {
    if len > 0 && k > 0 {
      var a, rest := plan[0], plan[1..];
      assert plan[..k] == [a] + rest[..k - 1];
      OfferedFront(a, rest[..k - 1]);
      var left := if a.Took? then if a.count < len then len - a.count else 0 else len;
      SendAllOutcome(left, rest, if a.Broke? then EINTR else errno, k - 1);
      assert k < |plan| ==> rest[k..] == plan[k + 1..];
    }
  }

  lemma TakenParts(buffer: Bytes, done: nat, n: nat)
    requires done + n <= |buffer|
    ensures buffer[..done + n] == buffer[..done] + buffer[done..][..n]
    ensures buffer[done..][n..] == buffer[done + n..]
  {
  }

  // ----- the stream

  class TcpStream {
    var incoming: seq<Recv>  // what the kernel will answer to recv
    var outgoing: seq<Send>  // what it will answer to send
    var wire: Bytes          // what it has accepted for sending so far
    var errno: int           // the thread's errno
    var shutdowns: seq<nat>  // for each shutdown so far, how much had been accepted by then

    constructor (incoming: seq<Recv>, outgoing: seq<Send>, errno: int)
      ensures this.incoming == incoming && this.outgoing == outgoing && wire == []
      ensures this.errno == errno && shutdowns == []
    {
      this.incoming, this.outgoing, this.wire, this.errno, this.shutdowns := incoming, outgoing, [], errno, [];
    }

    /** One `recv`; past the end of the schedule the peer has closed. */
    method Read() returns (r: Result<Bytes>)
      requires Paced(incoming)
      modifies this`incoming, this`errno
      ensures Paced(incoming)
      ensures old(incoming) == [] ==> incoming == [] && r == Ok([])
      ensures old(incoming) != [] ==> incoming == old(incoming)[1..]
      ensures old(incoming) != [] ==>
                r == match old(incoming)[0] case Got(bytes) => Ok(bytes) case Failed(e) => Err(Os(e))
      ensures r.Ok? ==> |r.value| <= READ_CHUNK
    {
      if incoming == [] {
        return Ok([]);
      }
      var answer := incoming[0];
      incoming := incoming[1..];
      match answer
      case Got(bytes) =>
        r := Ok(bytes);
      case Failed(e) =>
        errno := e;
        r := Err(Os(e));
    }

    /** One `send`: the kernel takes some prefix of `buf`. */
    method Write(buf: Bytes) returns (r: Result<nat>)
      modifies this`outgoing, this`wire, this`errno
      ensures r.Ok? ==> r.value <= |buf| && wire == old(wire) + buf[..r.value] && errno == old(errno)
      ensures r.Err? ==> wire == old(wire) && r.error == Os(errno)
      ensures old(outgoing) == [] ==> outgoing == [] && r == Ok(|buf|)
      ensures old(outgoing) != [] ==> outgoing == old(outgoing)[1..]
      ensures old(outgoing) != [] ==>
                r == match old(outgoing)[0]
                     case Took(n) => Ok(if n < |buf| then n else |buf|)
                     case Broke(e) => Err(Os(e))
    {
      if outgoing == [] {
        wire := wire + buf;
        assert buf == buf[..|buf|];
        return Ok(|buf|);
      }
      var answer := outgoing[0];
      outgoing := outgoing[1..];
      match answer
      case Took(n) =>
        var k := if n < |buf| then n else |buf|;
        wire := wire + buf[..k];
        r := Ok(k);
      case Broke(e) =>
        errno := e;
        r := Err(Os(e));
    }

    /** Shut down both halves; the caller ignores the outcome. */
    method Shutdown()
      modifies this`shutdowns
      ensures shutdowns == old(shutdowns) + [|wire|]
    {
      shutdowns := shutdowns + [|wire|];
    }

    /** The loop ends because each round takes bytes off the buffer or an answer off the schedule. */
    method WriteAll(buffer: Bytes) returns (r: Result<()>)
      modifies this`outgoing, this`wire, this`errno
      ensures var s := SendAll(|buffer|, old(outgoing), old(errno));
              && s.count <= |buffer|
              && wire == old(wire) + buffer[..s.count]
              && r == s.result && errno == s.errno && outgoing == s.rest
    {
      SendAllExact(|buffer|, outgoing, errno);
      ghost var s := SendAll(|buffer|, outgoing, errno);
      var buf := buffer;
      ghost var done := 0;
      while buf != []
        invariant done <= |buffer| && buf == buffer[done..]
        invariant wire == old(wire) + buffer[..done]
        invariant var t := SendAll(|buf|, outgoing, errno); s == t.(count := done + t.count)
        decreases |buf|, |outgoing|
      {
        var w := Write(buf);
        match w
        case Ok(n) =>
          if n == 0 {
            return Err(Os(errno));
          }
          TakenParts(buffer, done, n);
          buf := buf[n..];
          done := done + n;
        case Err(e) =>
          if !e.Interrupted() {
            return Err(e);
          }
      }
      return Ok(());
    }
  }
}
