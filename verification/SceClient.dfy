/**
 The HTTP client over the SCE libraries: four handles acquired in sequence with unwinding, one
 request handle per request, and a reverse-order teardown, against any pattern of call failures.
 */
module SceClient {
  import opened Errors
  import opened Octets

  datatype Kind = Pool | Ssl | Http2 | Template | Request

  datatype Handle = Handle(kind: Kind, id: int)

  /** What the calls do to handles: create one (successful creations only), operate on one, delete one. */
  datatype Event = Acquired(h: Handle) | Used(h: Handle) | Released(h: Handle)

  // ----- bracketing

  /** One event on the stack of live handles: only live handles are used, only the top one is released. */
  function Apply(stack: seq<Handle>, e: Event): Option<seq<Handle>> {
    match e
    case Acquired(h) => Some(stack + [h])
    case Used(h) => if h in stack then Some(stack) else None
    case Released(h) =>
      if stack != [] && stack[|stack| - 1] == h then Some(stack[..|stack| - 1]) else None
  }

  function Replay(stack: seq<Handle>, trace: seq<Event>): Option<seq<Handle>> {
    if trace == [] then Some(stack)
    else match Replay(stack, trace[..|trace| - 1])
      case None => None
      case Some(s) => Apply(s, trace[|trace| - 1])
  }

  lemma {:induction false} ReplayConcat(stack: seq<Handle>, a: seq<Event>, b: seq<Event>)
    requires Replay(stack, a).Some?
    ensures Replay(stack, a + b) == Replay(Replay(stack, a).value, b)
  {
    if b == [] {
      assert a + b == a;
    } else {
      ReplayConcat(stack, a, b[..|b| - 1]);
      assert (a + b)[..|a + b| - 1] == a + b[..|b| - 1];
    }
  }

  function Gained(e: Event): multiset<Handle> {
    if e.Acquired? then multiset{e.h} else multiset{}
  }

  function Lost(e: Event): multiset<Handle> {
    if e.Released? then multiset{e.h} else multiset{}
  }

  function Acquires(trace: seq<Event>): multiset<Handle> {
    if trace == [] then multiset{} else Acquires(trace[..|trace| - 1]) + Gained(trace[|trace| - 1])
  }

  function Releases(trace: seq<Event>): multiset<Handle> {
    if trace == [] then multiset{} else Releases(trace[..|trace| - 1]) + Lost(trace[|trace| - 1])
  }

  /** A replayable trace releases each handle as often as it acquires it, but for the stack's change. */
  lemma {:induction false} ReplayCounts(stack: seq<Handle>, trace: seq<Event>)
    requires Replay(stack, trace).Some?
    ensures multiset(stack) + Acquires(trace) == multiset(Replay(stack, trace).value) + Releases(trace)
  {
    if trace != [] {
      var front, e := trace[..|trace| - 1], trace[|trace| - 1];
      ReplayCounts(stack, front);
      var s, t := Replay(stack, front).value, Replay(stack, trace).value;
      ApplyCounts(s, e);
      assert (multiset(stack) + Acquires(front)) + Gained(e) == (multiset(s) + Gained(e)) + Releases(front);
      assert (multiset(t) + Lost(e)) + Releases(front) == multiset(t) + (Releases(front) + Lost(e));
      assert multiset(stack) + (Acquires(front) + Gained(e)) == (multiset(stack) + Acquires(front)) + Gained(e);
    }
  }

  lemma ApplyCounts(s: seq<Handle>, e: Event)
    requires Apply(s, e).Some?
    ensures multiset(s) + Gained(e) == multiset(Apply(s, e).value) + Lost(e)
  {
    if e.Released? {
      assert s == s[..|s| - 1] + [s[|s| - 1]];
    }
  }

  /** A handle acquired before `inner` and released right after it. */
  function Bracket(h: Handle, inner: seq<Event>): seq<Event> {
    [Acquired(h)] + inner + [Released(h)]
  }

  /** On any stack that holds `needed`, the trace can be replayed and leaves the stack as it was. */
  ghost predicate Neutral(trace: seq<Event>, needed: set<Handle>) {
    forall stack: seq<Handle> :: (forall h :: h in needed ==> h in stack) ==> Replay(stack, trace) == Some(stack)
  }

  lemma NothingIsNeutral(needed: set<Handle>)
    ensures Neutral([], needed)
  {
  }

  lemma BracketIsNeutral(h: Handle, inner: seq<Event>, needed: set<Handle>)
    requires Neutral(inner, needed + {h})
    ensures Neutral(Bracket(h, inner), needed)
  {
    var all := Bracket(h, inner);
    forall stack: seq<Handle> | forall x :: x in needed ==> x in stack
      ensures Replay(stack, all) == Some(stack)
    {
      var with := stack + [h];
      assert forall x :: x in needed + {h} ==> x in with;
      ReplayOne(stack, Acquired(h));
      ReplayConcat(stack, [Acquired(h)], inner);
      assert all[..|all| - 1] == [Acquired(h)] + inner;
      assert with[..|stack|] == stack;
    }
  }

  lemma NeutralConcat(a: seq<Event>, b: seq<Event>, needed: set<Handle>)
    requires Neutral(a, needed) && Neutral(b, needed)
    ensures Neutral(a + b, needed)
  {
    forall stack: seq<Handle> | forall x :: x in needed ==> x in stack
      ensures Replay(stack, a + b) == Some(stack)
    {
      ReplayConcat(stack, a, b);
    }
  }

  lemma {:induction false} UsesAreNeutral(uses: seq<Event>, needed: set<Handle>)
    requires forall i :: 0 <= i < |uses| ==> uses[i].Used? && uses[i].h in needed
    ensures Neutral(uses, needed)
  {
    if uses != [] {
      var front := uses[..|uses| - 1];
      UsesAreNeutral(front, needed);
      forall stack: seq<Handle> | forall x :: x in needed ==> x in stack
        ensures Replay(stack, uses) == Some(stack)
      {
        assert Replay(stack, front) == Some(stack);
      }
    }
  }

  lemma ReplayOne(stack: seq<Handle>, e: Event)
    ensures Replay(stack, [e]) == Apply(stack, e)
  {
    assert [e][..0] == [];
  }

  // ----- the libraries, as oracles

  const READ_CHUNK := 0x1000

  /** One answer of the body reader: bytes, none at the end, or a negative code. */
  datatype Chunk = Data(bytes: Bytes) | Broken(code: int)

  /** The answers respect the buffer, and only negative codes are errors. */
  predicate Proper(body: seq<Chunk>) {
    forall i :: 0 <= i < |body| ==>
      match body[i] case Data(bytes) => |bytes| <= READ_CHUNK case Broken(code) => code < 0
  }

  /** The SCE libraries: the n-th call returns the n-th code, whatever it is. */
  class Sce {
    const codes: nat -> int
    var calls: nat
    var body: seq<Chunk>     // answers of sceHttp2ReadData to come
    var trace: seq<Event>

    constructor (codes: nat -> int, body: seq<Chunk>)
      ensures this.codes == codes && calls == 0 && this.body == body && trace == []
    {
      this.codes, this.calls, this.body, this.trace := codes, 0, body, [];
    }

    method Call() returns (rc: int)
      modifies this`calls
      ensures rc == codes(old(calls)) && calls == old(calls) + 1
    {
      rc := codes(calls);
      calls := calls + 1;
    }

    /** A call that operates on a live handle. */
    method CallOn(kind: Kind, id: int) returns (rc: int)
      modifies this`calls, this`trace
      ensures rc == codes(old(calls)) && calls == old(calls) + 1
      ensures trace == old(trace) + [Used(Handle(kind, id))]
    {
      rc := Call();
      trace := trace + [Used(Handle(kind, id))];
    }

    /** A call that operates on the handles `on` and creates one unless it returns a negative code. */
    method Create(kind: Kind, on: seq<Event>) returns (id: int)
      modifies this`calls, this`trace
      ensures id == codes(old(calls)) && calls == old(calls) + 1
      ensures trace == old(trace) + on + if id < 0 then [] else [Acquired(Handle(kind, id))]
    {
      id := Call();
      trace := trace + on;
      if id >= 0 {
        trace := trace + [Acquired(Handle(kind, id))];
      }
    }

    /** A call that deletes a handle; its return code rarely matters. */
    method Delete(kind: Kind, id: int) returns (rc: int)
      modifies this`calls, this`trace
      ensures rc == codes(old(calls)) && calls == old(calls) + 1
      ensures trace == old(trace) + [Released(Handle(kind, id))]
    {
      rc := Call();
      trace := trace + [Released(Handle(kind, id))];
    }

    method ReadData(req: int) returns (r: Chunk)
      requires Proper(body)
      modifies this`body, this`trace
      ensures trace == old(trace) + [Used(Handle(Request, req))]
      ensures Proper(body)
      ensures old(body) == [] ==> r == Data([]) && body == []
      ensures old(body) != [] ==> r == old(body)[0] && body == old(body)[1..]
    {
      trace := trace + [Used(Handle(Request, req))];
      if body == [] {
        return Data([]);
      }
      r, body := body[0], body[1..];
    }
  }

  // ----- the client

  datatype Client = Client(netMem: int, sslCtx: int, libCtx: int, tmpl: int) {
    function Opening(): seq<Event> {
      var pool, ssl, lib := Handle(Pool, netMem), Handle(Ssl, sslCtx), Handle(Http2, libCtx);
      [Acquired(pool), Acquired(ssl), Used(pool), Used(ssl), Acquired(lib), Used(lib),
       Acquired(Handle(Template, tmpl))]
    }

    function Closing(): seq<Event> {
      [Released(Handle(Template, tmpl)), Released(Handle(Http2, libCtx)),
       Released(Handle(Ssl, sslCtx)), Released(Handle(Pool, netMem))]
    }
  }

  /** Between the two traces only live handles were used, and all that was acquired was released, innermost first. */
  ghost predicate Unwound(before: seq<Event>, after: seq<Event>) {
    exists t :: after == before + t && Neutral(t, {})
  }

  lemma UnwoundBy(before: seq<Event>, after: seq<Event>, t: seq<Event>)
    requires after == before + t && Neutral(t, {})
    ensures Unwound(before, after)
  {
  }

  /** The library context's part of the trace, whatever happens inside it. */
  function LibPart(pool: Handle, ssl: Handle, inner: seq<Event>): seq<Event> {
    Bracket(pool, Bracket(ssl, [Used(pool), Used(ssl)] + inner))
  }

  lemma LibPartIsNeutral(pool: Handle, ssl: Handle, inner: seq<Event>)
    requires Neutral(inner, {pool, ssl})
    ensures Neutral(LibPart(pool, ssl, inner), {})
  {
    UsesAreNeutral([Used(pool), Used(ssl)], {pool, ssl});
    NeutralConcat([Used(pool), Used(ssl)], inner, {pool, ssl});
    assert {} + {pool} + {ssl} == {pool, ssl};
    BracketIsNeutral(ssl, [Used(pool), Used(ssl)] + inner, {} + {pool});
    BracketIsNeutral(pool, Bracket(ssl, [Used(pool), Used(ssl)] + inner), {});
  }

  /** The template's part of the trace, inside the library context. */
  function TemplatePart(lib: Handle, inner: seq<Event>): seq<Event> {
    Bracket(lib, [Used(lib)] + inner)
  }

  lemma TemplatePartIsNeutral(lib: Handle, inner: seq<Event>, needed: set<Handle>)
    requires Neutral(inner, needed + {lib})
    ensures Neutral(TemplatePart(lib, inner), needed)
  {
    UsesAreNeutral([Used(lib)], needed + {lib});
    NeutralConcat([Used(lib)], inner, needed + {lib});
    BracketIsNeutral(lib, [Used(lib)] + inner, needed);
  }

  lemma UnwoundOne(before: seq<Event>, after: seq<Event>, pool: Handle)
    requires after == before + [] + [Acquired(pool)] + [] + [] + [Released(pool)]
    ensures Unwound(before, after)
  {
    NothingIsNeutral({} + {pool});
    BracketIsNeutral(pool, [], {});
    assert after == before + Bracket(pool, []);
  }

  lemma UnwoundTwo(before: seq<Event>, after: seq<Event>, pool: Handle, ssl: Handle)
    requires after == before + [] + [Acquired(pool)] + [] + [Acquired(ssl)] + [Used(pool), Used(ssl)] + []
                      + [Released(ssl)] + [Released(pool)]
    ensures Unwound(before, after)
  {
    NothingIsNeutral({pool, ssl});
    LibPartIsNeutral(pool, ssl, []);
    assert after == before + LibPart(pool, ssl, []);
  }

  lemma UnwoundThree(before: seq<Event>, after: seq<Event>, pool: Handle, ssl: Handle, lib: Handle)
    requires after == before + [] + [Acquired(pool)] + [] + [Acquired(ssl)] + [Used(pool), Used(ssl)]
                      + [Acquired(lib)] + [Used(lib)] + [] + [Released(lib)] + [Released(ssl)] + [Released(pool)]
    ensures Unwound(before, after)
  {
    NothingIsNeutral({pool, ssl} + {lib});
    TemplatePartIsNeutral(lib, [], {pool, ssl});
    LibPartIsNeutral(pool, ssl, TemplatePart(lib, []));
    assert after == before + LibPart(pool, ssl, TemplatePart(lib, []));
  }

  /** The error of a failing construction: the first call that fails is reported, with its code. */
  function FirstError(agent: Bytes, init: int, pool: int, ssl: int, lib: int, tmpl: int): Error {
    if !CString(agent) then BAD_STRING
    else if init != 0 then Error.Sce("sceNetInit", init)
    else if pool < 0 then Error.Sce("sceNetPoolCreate", pool)
    else if ssl < 0 then Error.Sce("sceSslInit", ssl)
    else if lib < 0 then Error.Sce("sceHttp2Init", lib)
    else Error.Sce("sceHttp2CreateTemplate", tmpl)
  }

  /** The calls of a construction in order, after which the error names are taken. */
  const NEW_CALLS := ["sceNetInit", "sceNetPoolCreate", "sceSslInit", "sceHttp2Init", "sceHttp2CreateTemplate"]

  /** Whether the n-th call of a construction has failed: the first is judged by zero, the others by sign. */
  predicate NewCallFails(i: nat, code: int) {
    if i == 0 then code != 0 else code < 0
  }

  /** The error is that of the first failing call, under that call's name and with its code. */
  lemma FirstErrorExact(agent: Bytes, codes: seq<int>, i: nat)
    requires |codes| == 5 && i < 5 && CString(agent)
    requires NewCallFails(i, codes[i]) && forall j :: 0 <= j < i ==> !NewCallFails(j, codes[j])
    ensures FirstError(agent, codes[0], codes[1], codes[2], codes[3], codes[4]) == Error.Sce(NEW_CALLS[i], codes[i])
  {
    assert i == 0 || i == 1 || i == 2 || i == 3 || i == 4;
    assert i > 0 ==> !NewCallFails(0, codes[0]);
    assert i > 1 ==> !NewCallFails(1, codes[1]);
    assert i > 2 ==> !NewCallFails(2, codes[2]);
    assert i > 3 ==> !NewCallFails(3, codes[3]);
  }

  /** Initialise the stack; on any failure, what was created so far is unwound in reverse order. */
  method New(sce: Sce, agent: Bytes) returns (r: Result<Client>)
    modifies sce`calls, sce`trace
    ensures var n := old(sce.calls);
            r.Ok? <==> && CString(agent) && sce.codes(n) == 0
                       && sce.codes(n + 1) >= 0 && sce.codes(n + 2) >= 0
                       && sce.codes(n + 3) >= 0 && sce.codes(n + 4) >= 0
    ensures var n := old(sce.calls);
            r.Ok? ==>
              && r.value == Client(sce.codes(n + 1), sce.codes(n + 2), sce.codes(n + 3), sce.codes(n + 4))
              && sce.trace == old(sce.trace) + r.value.Opening()
    ensures var n := old(sce.calls);
            r.Err? ==>
              && r.error == FirstError(agent, sce.codes(n), sce.codes(n + 1), sce.codes(n + 2),
                                       sce.codes(n + 3), sce.codes(n + 4))
              && Unwound(old(sce.trace), sce.trace)
  {
    NothingIsNeutral({});
    UnwoundBy(sce.trace, sce.trace, []);
    if !CString(agent) {
      return Err(BAD_STRING);
    }
    var rc := sce.Call();
    if rc != 0 {
      return Err(Error.Sce("sceNetInit", rc));
    }
    var pool := sce.Create(Pool, []);
    if pool < 0 {
      return Err(Error.Sce("sceNetPoolCreate", pool));
    }
    var ssl := sce.Create(Ssl, []);
    if ssl < 0 {
      var _ := sce.Delete(Pool, pool);
      UnwoundOne(old(sce.trace), sce.trace, Handle(Pool, pool));
      return Err(Error.Sce("sceSslInit", ssl));
    }
    var lib := sce.Create(Http2, [Used(Handle(Pool, pool)), Used(Handle(Ssl, ssl))]);
    if lib < 0 {
      var _ := sce.Delete(Ssl, ssl);
      var _ := sce.Delete(Pool, pool);
      UnwoundTwo(old(sce.trace), sce.trace, Handle(Pool, pool), Handle(Ssl, ssl));
      return Err(Error.Sce("sceHttp2Init", lib));
    }
    var tmpl := sce.Create(Template, [Used(Handle(Http2, lib))]);
    if tmpl < 0 {
      var _ := sce.Delete(Http2, lib);
      var _ := sce.Delete(Ssl, ssl);
      var _ := sce.Delete(Pool, pool);
      UnwoundThree(old(sce.trace), sce.trace, Handle(Pool, pool), Handle(Ssl, ssl), Handle(Http2, lib));
      return Err(Error.Sce("sceHttp2CreateTemplate", tmpl));
    }
    return Ok(Client(pool, ssl, lib, tmpl));
  }

  /** Release the four handles in reverse order of creation. */
  method Drop(sce: Sce, client: Client)
    modifies sce`calls, sce`trace
    ensures sce.trace == old(sce.trace) + client.Closing()
  {
    var _ := sce.Delete(Template, client.tmpl);
    var _ := sce.Delete(Http2, client.libCtx);
    var _ := sce.Delete(Ssl, client.sslCtx);
    var _ := sce.Delete(Pool, client.netMem);
  }

  // ----- requests

  datatype Response = Response(status: int, body: Bytes)

  /** What draining the response body gives: all bytes up to the end, or the first error. */
  function Drained(body: seq<Chunk>): Result<Bytes> {
    if body == [] || body[0] == Data([]) then Ok([])
    else match body[0]
      case Broken(code) => Err(Error.Sce("sceHttp2ReadData", code))
      case Data(bytes) =>
        match Drained(body[1..]) case Err(e) => Err(e) case Ok(rest) => Ok(bytes + rest)
  }

  /** The bytes of a run of data answers, one after the other. */
  function Gathered(data: seq<Chunk>): Bytes
    requires forall i :: 0 <= i < |data| ==> data[i].Data?
  {
    if data == [] then [] else Gathered(data[..|data| - 1]) + data[|data| - 1].bytes
  }

  lemma {:induction false} GatheredFront(bytes: Bytes, data: seq<Chunk>)
    requires forall i :: 0 <= i < |data| ==> data[i].Data?
    ensures Gathered([Data(bytes)] + data) == bytes + Gathered(data)
  {
    if data == [] {
      assert Gathered(([Data(bytes)] + data)[..0]) == [];
    } else {
      var k := |data| - 1;
      GatheredFront(bytes, data[..k]);
      assert ([Data(bytes)] + data)[..|data|] == [Data(bytes)] + data[..k];
    }
  }

  /**
   Draining is decided by the first answer that brings no bytes: an error is the result, with its
   code and whatever came before it is dropped; the end gives all the bytes that came, in order.
   */
  lemma {:induction false} DrainedExact(body: seq<Chunk>, k: nat)
    requires k <= |body| && forall i :: 0 <= i < k ==> body[i].Data? && body[i].bytes != []
    ensures k == |body| || body[k] == Data([]) ==> Drained(body) == Ok(Gathered(body[..k]))
    ensures k < |body| && body[k].Broken? ==> Drained(body) == Err(Error.Sce("sceHttp2ReadData", body[k].code))
  {
    if k > 0 {
      DrainedExact(body[1..], k - 1);
      GatheredFront(body[0].bytes, body[1..][..k - 1]);
      assert body[..k] == [Data(body[0].bytes)] + body[1..][..k - 1];
    }
  }

  /** `status as u16` keeps the low sixteen bits. */
  function StatusWord(status: int): (w: int)
    ensures 0 <= w < 0x1_0000 && (0 <= status < 0x1_0000 ==> w == status)
  {
    status % 0x1_0000
  }

  /** What the program will have when it has `buf` already and drains the rest. */
  function WithRest(buf: Bytes, rest: Result<Bytes>): Result<Bytes> {
    match rest case Err(e) => Err(e) case Ok(bytes) => Ok(buf + bytes)
  }

  lemma DrainStep(body: seq<Chunk>, buf: Bytes, bytes: Bytes)
    requires bytes != [] && body != [] && body[0] == Data(bytes)
    ensures WithRest(buf, Drained(body)) == WithRest(buf + bytes, Drained(body[1..]))
  {
    var rest := Drained(body[1..]);
    if rest.Ok? {
      assert buf + (bytes + rest.value) == buf + bytes + rest.value;
    }
  }

  /** Since `before`, nothing happened to handles but calls operating on `h`. */
  ghost predicate OnlyUsed(before: seq<Event>, after: seq<Event>, h: Handle) {
    && before <= after
    && forall i :: |before| <= i < |after| ==> after[i] == Used(h)
  }

  method Drain(sce: Sce, req: int) returns (r: Result<Bytes>)
    requires Proper(sce.body)
    modifies sce`body, sce`trace
    ensures Proper(sce.body)
    ensures OnlyUsed(old(sce.trace), sce.trace, Handle(Request, req))
    ensures r == Drained(old(sce.body))
  {
    var buf: Bytes := [];
    assert Drained(sce.body).Ok? ==> [] + Drained(sce.body).value == Drained(sce.body).value;
    while true
      invariant Proper(sce.body)
      invariant OnlyUsed(old(sce.trace), sce.trace, Handle(Request, req))
      invariant Drained(old(sce.body)) == WithRest(buf, Drained(sce.body))
      decreases |sce.body|
    {
      ghost var was := sce.body;
      var chunk := sce.ReadData(req);
      match chunk
      case Broken(code) =>
        return Err(Error.Sce("sceHttp2ReadData", code));
      case Data(bytes) =>
        if bytes == [] {
          assert buf + [] == buf;
          return Ok(buf);
        }
        DrainStep(was, buf, bytes);
        buf := buf + bytes;
    }
  }

  /** The outcome of a request from its calls' codes and the drained body: the first failure wins. */
  function Outcome(send: int, got: int, status: int, drained: Result<Bytes>): Result<Response> {
    if send != 0 then Err(Error.Sce("sceHttp2SendRequest", send))
    else if got != 0 then Err(Error.Sce("sceHttp2GetStatusCode", got))
    else match drained
      case Err(e) => Err(e)
      case Ok(bytes) => Ok(Response(StatusWord(status), bytes))
  }

  /** The first of the three that fails gives the error, under its own name and with its own code. */
  lemma OutcomeExact(send: int, got: int, status: int, drained: Result<Bytes>)
    ensures var r := Outcome(send, got, status, drained);
            && (r.Ok? <==> send == 0 && got == 0 && drained.Ok?)
            && (r.Ok? ==> r.value.body == drained.value && (0 <= status < 0x1_0000 ==> r.value.status == status))
            && (send != 0 ==> r.error.Sce? && r.error.op == "sceHttp2SendRequest" && r.error.code == send)
            && (send == 0 != got ==> r.error.Sce? && r.error.op == "sceHttp2GetStatusCode" && r.error.code == got)
            && (send == 0 == got && drained.Err? ==> r.error == drained.error)
  {
  }

  /** Send, read the status, drain the body; the request handle stays with the caller. */
  method RunRequest(sce: Sce, req: int, status: int) returns (r: Result<Response>)
    requires Proper(sce.body)
    modifies sce`calls, sce`body, sce`trace
    ensures Proper(sce.body)
    ensures var n := old(sce.calls);
            && r == Outcome(sce.codes(n), sce.codes(n + 1), status, Drained(old(sce.body)))
            && sce.calls == if sce.codes(n) != 0 then n + 1 else n + 2
    ensures OnlyUsed(old(sce.trace), sce.trace, Handle(Request, req))
  {
    var rc := sce.CallOn(Request, req);
    if rc != 0 {
      return Err(Error.Sce("sceHttp2SendRequest", rc));
    }
    rc := sce.CallOn(Request, req);
    if rc != 0 {
      return Err(Error.Sce("sceHttp2GetStatusCode", rc));
    }
    var body := Drain(sce, req);
    match body
    case Err(e) => return Err(e);
    case Ok(bytes) => return Ok(Response(StatusWord(status), bytes));
  }

  /** The trace of one request that got a handle: created on the template, used, deleted. */
  predicate HandledTrace(t: seq<Event>, tmpl: Handle) {
    && |t| >= 3 && t[0] == Used(tmpl)
    && t[1].Acquired? && t[1].h.kind == Request && t[|t| - 1] == Released(t[1].h)
    && forall i :: 2 <= i < |t| - 1 ==> t[i] == Used(t[1].h)
  }

  /** The trace of one request, whatever its outcome. */
  predicate RequestTrace(t: seq<Event>, tmpl: Handle) {
    t == [] || t == [Used(tmpl)] || HandledTrace(t, tmpl)
  }

  /**
   One request. The handle is deleted whatever happens; success needs every call to succeed, the
   deletion included, and then returns the whole body. An earlier error is preferred to the deletion's.
   */
  method DoRequest(sce: Sce, client: Client, verb: Bytes, url: Bytes, status: int) returns (r: Result<Response>)
    requires Proper(sce.body)
    modifies sce`calls, sce`body, sce`trace
    ensures Proper(sce.body)
    ensures old(sce.trace) <= sce.trace
    ensures var t, n := sce.trace[|old(sce.trace)|..], old(sce.calls);
            if !CString(verb) || !CString(url) then t == []
            else if sce.codes(n) < 0 then t == [Used(Handle(Template, client.tmpl))]
            else HandledTrace(t, Handle(Template, client.tmpl)) && t[1].h.id == sce.codes(n)
    ensures var n := old(sce.calls);
            r.Ok? <==> && CString(verb) && CString(url) && sce.codes(n) >= 0
                       && sce.codes(n + 1) == sce.codes(n + 2) == sce.codes(n + 3) == 0
                       && Drained(old(sce.body)).Ok?
    ensures r.Ok? ==> r.value.status == StatusWord(status) && Ok(r.value.body) == Drained(old(sce.body))
    ensures var n := old(sce.calls);
            var outcome := Outcome(sce.codes(n + 1), sce.codes(n + 2), status, Drained(old(sce.body)));
            r.Err? ==>
              r.error == if !CString(verb) || !CString(url) then BAD_STRING
                         else if sce.codes(n) < 0 then Error.Sce("sceHttp2CreateRequestWithURL", sce.codes(n))
                         else if outcome.Err? then outcome.error
                         else Error.Sce("sceHttp2DeleteRequest", sce.codes(n + 3))
  {
    if !CString(verb) || !CString(url) {
      return Err(BAD_STRING);
    }
    var req := sce.Create(Request, [Used(Handle(Template, client.tmpl))]);
    if req < 0 {
      return Err(Error.Sce("sceHttp2CreateRequestWithURL", req));
    }
    var result := RunRequest(sce, req, status);
    var del := sce.Delete(Request, req);
    match result
    case Err(e) =>
      return Err(e);
    case Ok(response) =>
      if del != 0 {
        return Err(Error.Sce("sceHttp2DeleteRequest", del));
      }
      return Ok(response);
  }

  // ----- a client's whole life

  function Concat(traces: seq<seq<Event>>): seq<Event> {
    if traces == [] then [] else Concat(traces[..|traces| - 1]) + traces[|traces| - 1]
  }

  lemma {:induction false} RequestsAreNeutral(requests: seq<seq<Event>>, tmpl: Handle, needed: set<Handle>)
    requires tmpl in needed
    requires forall i :: 0 <= i < |requests| ==> RequestTrace(requests[i], tmpl)
    ensures Neutral(Concat(requests), needed)
  {
    if requests == [] {
      NothingIsNeutral(needed);
    } else {
      var front, t := requests[..|requests| - 1], requests[|requests| - 1];
      RequestsAreNeutral(front, tmpl, needed);
      RequestIsNeutral(t, tmpl, needed);
      NeutralConcat(Concat(front), t, needed);
    }
  }

  lemma RequestIsNeutral(t: seq<Event>, tmpl: Handle, needed: set<Handle>)
    requires RequestTrace(t, tmpl) && tmpl in needed
    ensures Neutral(t, needed)
  {
    if t == [] || t == [Used(tmpl)] {
      UsesAreNeutral(t, needed);
    } else {
      var h, uses := t[1].h, t[2..|t| - 1];
      UsesAreNeutral(uses, needed + {h});
      BracketIsNeutral(h, uses, needed);
      UsesAreNeutral([Used(tmpl)], needed);
      NeutralConcat([Used(tmpl)], Bracket(h, uses), needed);
      assert t == [Used(tmpl)] + Bracket(h, uses);
    }
  }

  /** The trace of a client's whole life. */
  function Life(c: Client, requests: seq<seq<Event>>): seq<Event> {
    c.Opening() + Concat(requests) + c.Closing()
  }

  lemma LifeNests(c: Client, requests: seq<seq<Event>>, pool: Handle, ssl: Handle, lib: Handle, tmpl: Handle)
    requires pool == Handle(Pool, c.netMem) && ssl == Handle(Ssl, c.sslCtx)
    requires lib == Handle(Http2, c.libCtx) && tmpl == Handle(Template, c.tmpl)
    ensures Life(c, requests) == LibPart(pool, ssl, TemplatePart(lib, Bracket(tmpl, Concat(requests))))
  {
  }

  /**
   A client's whole life, from a successful `New` through any number of requests with any outcomes
   to its drop: every call operates on live handles only, handles are released innermost first, none
   is left, and each is released as often as it was acquired.
   */
  lemma LifeIsBracketed(client: Client, requests: seq<seq<Event>>)
    requires AllRequests(requests, Handle(Template, client.tmpl))
    ensures Replay([], Life(client, requests)) == Some([])
    ensures Acquires(Life(client, requests)) == Releases(Life(client, requests))
  {
    var pool, ssl := Handle(Pool, client.netMem), Handle(Ssl, client.sslCtx);
    var lib, tmpl := Handle(Http2, client.libCtx), Handle(Template, client.tmpl);
    RequestsAreNeutral(requests, tmpl, {pool, ssl} + {lib} + {tmpl});
    BracketIsNeutral(tmpl, Concat(requests), {pool, ssl} + {lib});
    TemplatePartIsNeutral(lib, Bracket(tmpl, Concat(requests)), {pool, ssl});
    LibPartIsNeutral(pool, ssl, TemplatePart(lib, Bracket(tmpl, Concat(requests))));
    LifeNests(client, requests, pool, ssl, lib, tmpl);
    BalancedCounts(Life(client, requests));
  }

  /** One request to make, and the status the libraries would report for it. */
  datatype Job = Job(verb: Bytes, url: Bytes, status: int)

  /** Each trace is that of a request on `tmpl`. */
  predicate AllRequests(requests: seq<seq<Event>>, tmpl: Handle) {
    forall i :: 0 <= i < |requests| ==> RequestTrace(requests[i], tmpl)
  }

  /**
   A program that creates a client, makes any requests, whatever their outcomes, and drops it, or
   fails to create one: no handle is left, none was used when it was not live, and each was released
   exactly as often as it was acquired.
   */
  method UseClient(sce: Sce, agent: Bytes, jobs: seq<Job>)
    returns (client: Result<Client>, responses: seq<Result<Response>>)
    requires Proper(sce.body) && sce.trace == []
    modifies sce`calls, sce`body, sce`trace
    ensures Replay([], sce.trace) == Some([]) && Acquires(sce.trace) == Releases(sce.trace)
    ensures |responses| == if client.Ok? then |jobs| else 0
    ensures client.Ok? ==> client.value.Opening() <= sce.trace
  {
    responses := [];
    client := New(sce, agent);
    match client
    case Err(_) =>
      FailureLeavesNothing([], [], sce.trace);
      BalancedCounts(sce.trace);
    case Ok(c) =>
      ghost var requests;
      responses, requests := MakeRequests(sce, c, jobs);
      Drop(sce, c);
      assert sce.trace == Life(c, requests);
      LifeIsBracketed(c, requests);
  }

  method MakeRequests(sce: Sce, client: Client, jobs: seq<Job>)
    returns (responses: seq<Result<Response>>, ghost requests: seq<seq<Event>>)
    requires Proper(sce.body)
    modifies sce`calls, sce`body, sce`trace
    ensures |responses| == |jobs| == |requests|
    ensures AllRequests(requests, Handle(Template, client.tmpl))
    ensures sce.trace == old(sce.trace) + Concat(requests)
  {
    responses, requests := [], [];
    for i := 0 to |jobs|
      invariant Proper(sce.body) && |responses| == |requests| == i
      invariant AllRequests(requests, Handle(Template, client.tmpl))
      invariant sce.trace == old(sce.trace) + Concat(requests)
    {
      ghost var before := sce.trace;
      var r := DoRequest(sce, client, jobs[i].verb, jobs[i].url, jobs[i].status);
      ghost var t := sce.trace[|before|..];
      assert sce.trace == before + t;
      ConcatSnoc(requests, t);
      responses, requests := responses + [r], requests + [t];
    }
  }

  lemma ConcatSnoc(traces: seq<seq<Event>>, t: seq<Event>)
    ensures Concat(traces + [t]) == Concat(traces) + t
  {
    assert (traces + [t])[..|traces|] == traces;
  }

  lemma BalancedCounts(trace: seq<Event>)
    requires Replay([], trace) == Some([])
    ensures Acquires(trace) == Releases(trace)
  {
    var empty: seq<Handle> := [];
    ReplayCounts(empty, trace);
    assert multiset(empty) == multiset{};
    assert multiset(empty) + Acquires(trace) == Acquires(trace);
    assert multiset(empty) + Releases(trace) == Releases(trace);
  }

  /** A failed `New` leaves nothing unreleased. */
  lemma FailureLeavesNothing(stack: seq<Handle>, before: seq<Event>, after: seq<Event>)
    requires Replay(stack, before).Some? && Unwound(before, after)
    ensures Replay(stack, after) == Replay(stack, before)
  {
    var t :| after == before + t && Neutral(t, {});
    ReplayConcat(stack, before, t);
  }
}
