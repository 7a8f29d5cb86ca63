/**
 The accept loop and its connection threads, as a transition system over every schedule: bind and
 its failures, accept, thread creation through `Spawn`, and the threads serving their connections
 concurrently, one system call at a time.

 Threads know connections only by descriptor number, and the kernel may hand a number out again
 once it is closed. Whatever a call does, it does to what the number denotes at that moment; using
 a number that denotes no connection is recorded as misuse.
 */
module Server {
  import opened Errors
  import opened Octets
  import opened Sockets
  import opened HttpMessage
  import HttpReader
  import opened ReaderSteps
  import Connection
  import Spawn

  // ----- the kernel's side

  /** What a descriptor denotes. */
  datatype Desc = Listener | Peer(j: nat)

  /** How the network will behave on one connection: the answers to its reads and its writes. */
  datatype Io = Io(incoming: seq<Recv>, outgoing: seq<Send>)

  /** An accepted connection: answers still to come, and what has been done to it. */
  datatype Sock = Sock(incoming: seq<Recv>, outgoing: seq<Send>, wire: Bytes, shutdowns: nat, closes: nat)

  function FreshSock(io: Io): Sock {
    Sock(io.incoming, io.outgoing, [], 0, 0)
  }

  // ----- the program's side

  /** The bytes to answer a verdict with, if any. */
  type Reply = HttpReader.Verdict -> Option<Bytes>

  /** `sized`: threads get an explicit stack size; serve always asks for one. */
  datatype Config = Config(sized: bool, judge: HttpReader.Judging, limit: nat, reply: Reply)

  /** Serving as `serve_connection` does. */
  function Serving(sized: bool, handler: Connection.Handler, limits: HttpReader.Limits): Config {
    Config(sized, HttpReader.Judges(limits.maxBodyBytes), limits.maxHeaderBytes, Replies(handler))
  }

  function Replies(handler: Connection.Handler): Reply {
    v => match Connection.Answer(v, handler) case None => None case Some(r) => Some(Encoded(r))
  }

  /** Where the closure of a connection is. */
  datatype Phase =
    | Receiving(r: Reader)
    | Sending(rest: Bytes)     // in write_all, with this much left
    | ShuttingDown
    | Returning                // done but for dropping the stream

  datatype Main =
    | Binding
    | Configuring(fd: int)             // socket() done; SO_REUSEADDR, bind, listen to go
    | Accepting(fd: int)
    | Spawning(fd: int, k: nat)        // starting the thread of connection k
    | Stopped                          // serve has returned an error

  /** The program's record of a connection: its descriptor, its thread, and how far its closure is. */
  datatype Conn = Conn(fd: int, io: Io, spawn: Spawn.State, phase: Phase)

  datatype State = State(
    config: Config,
    main: Main,
    table: map<int, Desc>, // the open descriptors
    socks: seq<Sock>,      // every connection ever accepted, as the kernel sees it
    conns: seq<Conn>,      // the same connections, as the program sees them
    listeners: nat,        // listening sockets ever created
    listenerCloses: nat,
    misuse: bool)

  function Init(config: Config): State {
    State(config, Binding, map[], [], [], 0, 0, false)
  }

  datatype Step =
    | RejectV6 | SocketFails | Socket(fd: int)
    | SetupFails | Listening
    | AcceptFails(errno: int) | Accepted(fd: int, io: Io)
    | Advance(k: nat, step: Spawn.Step)   // connection k's spawner or thread moves
    | Work(k: nat)                        // connection k's closure makes its next call
    | NextConnection

  // ----- what steps do

  function Close(s: State, fd: int): State {
    if fd !in s.table then s.(misuse := true)
    else match s.table[fd]
      case Listener => s.(table := s.table - {fd}, listenerCloses := s.listenerCloses + 1)
      case Peer(j) =>
        if j >= |s.socks| then s.(misuse := true)
        else s.(table := s.table - {fd}, socks := s.socks[j := s.socks[j].(closes := s.socks[j].closes + 1)])
  }

  /** Close as often as the stream is dropped. */
  function CloseTimes(s: State, fd: int, n: nat): State
    decreases n
  {
    if n == 0 then s else CloseTimes(Close(s, fd), fd, n - 1)
  }

  function CloseListener(s: State, fd: int): State {
    Close(s, fd).(main := Main.Stopped)
  }

  predicate Denotes(s: State, fd: int, d: Desc) {
    fd in s.table && s.table[fd] == d
  }

  /** accept: a new connection, its closure about to be handed to a thread. */
  function Adopt(s: State, listener: int, c: Conn, sock: Sock): State {
    s.(main := Spawning(listener, |s.conns|),
       table := s.table[c.fd := Peer(|s.socks|)],
       socks := s.socks + [sock],
       conns := s.conns + [c],
       misuse := s.misuse || !Denotes(s, listener, Listener))
  }

  function Fresh(fd: int, io: Io, sized: bool): Conn {
    Conn(fd, io, Spawn.Init(sized), Receiving(Start()))
  }

  /** One call of a closure on the connection its descriptor denotes. */
  function Served(config: Config, phase: Phase, s: Sock): (Phase, Sock) {
    match phase
    case Receiving(r) =>
      if r.Done? then
        (match config.reply(r.verdict) case None => ShuttingDown case Some(bytes) => Sending(bytes), s)
      else
        (Receiving(Feed(r, NextAnswer(s.incoming), config.judge, config.limit)),
         s.(incoming := AfterAnswer(s.incoming)))
    case Sending(rest) => SendOnce(rest, s)
    case ShuttingDown => (Returning, s.(shutdowns := s.shutdowns + 1))
    case Returning => (Returning, s)
  }

  /** One round of `write_all`. */
  function SendOnce(rest: Bytes, s: Sock): (Phase, Sock) {
    if rest == [] then (ShuttingDown, s)
    else if s.outgoing == [] then (Sending([]), s.(wire := s.wire + rest))
    else match s.outgoing[0]
      case Took(n) =>
        var k := if n < |rest| then n else |rest|;
        (if k == 0 then ShuttingDown else Sending(rest[k..]),
         s.(outgoing := s.outgoing[1..], wire := s.wire + rest[..k]))
      case Broke(e) =>
        (if e == EINTR then Sending(rest) else ShuttingDown, s.(outgoing := s.outgoing[1..]))
  }

  function WorkConn(s: State, k: nat): State
    requires k < |s.conns|
  {
    var c := s.conns[k];
    if c.fd !in s.table || s.table[c.fd].Listener? || s.table[c.fd].j >= |s.socks| then s.(misuse := true)
    else
      var j := s.table[c.fd].j;
      var (phase, sock) := Served(s.config, c.phase, s.socks[j]);
      s.(conns := s.conns[k := c.(phase := phase)], socks := s.socks[j := sock])
  }

  /** How often a closure has been consumed: run to its end or dropped unrun. */
  function Consumed(sp: Spawn.State): nat {
    sp.ledger.closureRuns + sp.ledger.closureDrops
  }

  /** The closure owns the stream: each time it is consumed the stream is dropped, which closes it. */
  function AdvanceConn(s: State, k: nat, sp: Spawn.State): State
    requires k < |s.conns|
  {
    var c := s.conns[k];
    var times := if Consumed(sp) > Consumed(c.spawn) then Consumed(sp) - Consumed(c.spawn) else 0;
    CloseTimes(s.(conns := s.conns[k := c.(spawn := sp)]), c.fd, times)
  }

  /** The spawner's part is over: spawn has failed, or its handle has been dropped. */
  predicate SpawnerDone(sp: Spawn.State) {
    sp.parent.SpawnFailed? || sp.parent.Gone?
  }

  /** A connection's thread or spawner may move; a closure returns only when it is through. */
  predicate MayAdvance(s: State, k: nat, st: Spawn.Step) {
    && k < |s.conns|
    && !st.Join?   // the handle is dropped unread, so nothing is ever joined
    && (Spawn.ByChild(st) || Current(s.main, k))
    && (st.RunClosure? ==> s.conns[k].phase.Returning?)
  }

  predicate Current(m: Main, k: nat) {
    m.Spawning? && m.k == k
  }

  function Next(s: State, step: Step): Option<State> {
    match (s.main, step)
    case (Binding, RejectV6) => Some(s.(main := Main.Stopped))
    case (Binding, SocketFails) => Some(s.(main := Main.Stopped))
    case (Binding, Socket(fd)) =>
      if fd in s.table then None
      else Some(s.(main := Configuring(fd), table := s.table[fd := Listener], listeners := s.listeners + 1))
    case (Configuring(fd), SetupFails) => Some(CloseListener(s, fd))
    case (Configuring(fd), Listening) => Some(s.(main := Accepting(fd)))
    case (Accepting(fd), AcceptFails(e)) => if Os(e).Interrupted() then Some(s) else Some(CloseListener(s, fd))
    case (Accepting(fd), Accepted(c, io)) =>
      if c in s.table then None else Some(Adopt(s, fd, Fresh(c, io, s.config.sized), FreshSock(io)))
    case (Spawning(fd, k), NextConnection) =>
      if k < |s.conns| && SpawnerDone(s.conns[k].spawn) then Some(s.(main := Accepting(fd))) else None
    case (_, Work(k)) =>
      if k < |s.conns| && s.conns[k].spawn.child.Running? && !s.conns[k].phase.Returning?
      then Some(WorkConn(s, k)) else None
    case (_, Advance(k, st)) =>
      if !MayAdvance(s, k, st) then None
      else (match Spawn.Next(s.conns[k].spawn, st) case None => None case Some(sp) => Some(AdvanceConn(s, k, sp)))
    case _ => None
  }

  /** A run: the states passed through, and the steps between them. */
  datatype Run = Run(states: seq<State>, steps: seq<Step>)

  ghost predicate IsRun(run: Run, config: Config) {
    && |run.states| == |run.steps| + 1
    && run.states[0] == Init(config)
    && forall i {:trigger run.steps[i]} :: 0 <= i < |run.steps| ==>
         Next(run.states[i], run.steps[i]) == Some(run.states[i + 1])
  }

  // ----- one connection

  function VerdictOn(config: Config, io: Io): HttpReader.Verdict {
    HttpReader.ReadingBy(config.judge, io.incoming, config.limit).0
  }

  /** The printed response the peer is owed, if any. */
  function Owed(config: Config, io: Io): Option<Bytes> {
    config.reply(VerdictOn(config, io))
  }

  /** What serving this connection alone puts on the wire. */
  function Due(config: Config, io: Io): Bytes {
    match Owed(config, io) case None => [] case Some(whole) => Connection.Written(whole, io.outgoing)
  }

  /** How far the closure is agrees with what has happened to its connection. */
  predicate PhaseInv(config: Config, io: Io, phase: Phase, s: Sock) {
    match phase
    case Receiving(r) =>
      && Waits(r, config.limit)
      && Finish(r, s.incoming, config.judge, config.limit).0 == VerdictOn(config, io)
      && s.outgoing == io.outgoing && s.wire == [] && s.shutdowns == 0
    case Sending(rest) =>
      && Owed(config, io) == Some(s.wire + rest)
      && s.wire + Connection.Written(rest, s.outgoing) == Due(config, io)
      && s.shutdowns == 0
    case ShuttingDown => s.wire == Due(config, io) && s.shutdowns == 0
    case Returning => s.wire == Due(config, io) && s.shutdowns == 1
  }

  lemma StartPhase(config: Config, io: Io)
    ensures PhaseInv(config, io, Receiving(Start()), FreshSock(io))
  {
    StartFinish(io.incoming, config.judge, config.limit);
  }

  lemma ReceiveStep(config: Config, io: Io, r: Reader, s: Sock)
    requires PhaseInv(config, io, Receiving(r), s)
    ensures var (phase, t) := Served(config, Receiving(r), s); PhaseInv(config, io, phase, t)
  {
    if r.Done? {
      var bytes := config.reply(r.verdict);
      if bytes.Some? {
        assert [] + bytes.value == bytes.value;
        assert [] + Connection.Written(bytes.value, s.outgoing) == Connection.Written(bytes.value, s.outgoing);
      }
    } else {
      FeedWaits(r, NextAnswer(s.incoming), config.judge, config.limit);
      FeedFinish(r, s.incoming, config.judge, config.limit);
    }
  }

  /** One round of `write_all` adds to what is on the wire a part of what will be written. */
  lemma WrittenStep(rest: Bytes, s: Sock)
    ensures var (phase, t) := SendOnce(rest, s);
            match phase
            case Sending(left) =>
              && s.wire + rest == t.wire + left
              && s.wire + Connection.Written(rest, s.outgoing) == t.wire + Connection.Written(left, t.outgoing)
            case _ => t.wire == s.wire + Connection.Written(rest, s.outgoing)
  {
    if rest == [] {
      assert Connection.Written([], s.outgoing) == [];
    } else if s.outgoing == [] {
      assert Connection.Written(rest, []) == rest && Connection.Written([], []) == [];
    } else {
      match s.outgoing[0]
      case Took(n) =>
        var k := if n < |rest| then n else |rest|;
        WrittenTook(rest, s.outgoing, k);
        Regroup(s.wire, rest[..k], rest[k..]);
        Regroup(s.wire, rest[..k], Connection.Written(rest[k..], s.outgoing[1..]));
        assert rest[..k] + rest[k..] == rest;
        assert k == 0 ==> rest[..k] + [] == rest[..k];
      case Broke(e) =>
        WrittenBroke(rest, s.outgoing);
    }
  }

  lemma Regroup(a: Bytes, b: Bytes, c: Bytes)
    ensures a + (b + c) == a + b + c
  {
  }

  lemma WrittenTook(rest: Bytes, outgoing: seq<Send>, k: nat)
    requires rest != [] && outgoing != [] && outgoing[0].Took?
    requires k == if outgoing[0].count < |rest| then outgoing[0].count else |rest|
    ensures Connection.Written(rest, outgoing)
            == rest[..k] + if k == 0 then [] else Connection.Written(rest[k..], outgoing[1..])
  {
    var m := SendAll(|rest| - k, outgoing[1..], 0).count;
    SendAllExact(|rest| - k, outgoing[1..], 0);
    if k > 0 {
      assert rest[..k + m] == rest[..k] + rest[k..][..m];
    }
  }

  lemma WrittenBroke(rest: Bytes, outgoing: seq<Send>)
    requires rest != [] && outgoing != [] && outgoing[0].Broke?
    ensures Connection.Written(rest, outgoing)
            == if outgoing[0].errno == EINTR then Connection.Written(rest, outgoing[1..]) else []
  {
    SendAllErrnoFree(|rest|, outgoing[1..], EINTR, 0);
  }

  lemma SendStep(config: Config, io: Io, rest: Bytes, s: Sock)
    requires PhaseInv(config, io, Sending(rest), s)
    ensures var (phase, t) := Served(config, Sending(rest), s); PhaseInv(config, io, phase, t)
  {
    WrittenStep(rest, s);
  }

  lemma ServedKeepsPhase(config: Config, io: Io, phase: Phase, s: Sock)
    requires PhaseInv(config, io, phase, s)
    ensures var (after, t) := Served(config, phase, s); PhaseInv(config, io, after, t)
    ensures Served(config, phase, s).1.closes == s.closes
  {
    match phase
    case Receiving(r) => ReceiveStep(config, io, r, s);
    case Sending(rest) => SendStep(config, io, rest, s);
    case _ =>
  }

  /** Before its thread runs, a connection is untouched; after its closure has returned it is served. */
  predicate ConnInv(config: Config, c: Conn, s: Sock, current: bool) {
    && Spawn.Inv(c.spawn)
    && (current || SpawnerDone(c.spawn))
    && !c.spawn.joined
    && PhaseInv(config, c.io, c.phase, s)
    && s.closes == Consumed(c.spawn)
    && (c.spawn.child.Absent? || c.spawn.child.Ready? ==> c.phase == Receiving(Start()) && s.wire == [])
    && (c.spawn.ledger.closureRuns > 0 ==> c.phase.Returning?)
  }

  lemma FreshConn(config: Config, c: Conn, s: Sock)
    requires c == Fresh(c.fd, c.io, config.sized) && s == FreshSock(c.io)
    ensures ConnInv(config, c, s, true) && Consumed(c.spawn) == 0
  {
    StartPhase(config, c.io);
    SpawnStarts(config.sized);
    UntouchedConn(config, c, s);
  }

  lemma UntouchedConn(config: Config, c: Conn, s: Sock)
    requires Spawn.Inv(c.spawn) && Consumed(c.spawn) == 0 && !c.spawn.joined && s.closes == 0 && s.wire == []
    requires c.phase == Receiving(Start()) && PhaseInv(config, c.io, c.phase, s)
    ensures ConnInv(config, c, s, true)
  {
  }

  lemma SpawnStarts(sized: bool)
    ensures var sp := Spawn.Init(sized);
            && Spawn.Inv(sp) && Consumed(sp) == 0 && sp.ledger.closureRuns == 0
            && !sp.joined && sp.child.Absent?
  {
  }

  lemma WorkKeepsConn(config: Config, c: Conn, s: Sock, current: bool)
    requires ConnInv(config, c, s, current) && c.spawn.child.Running?
    ensures var (phase, t) := Served(config, c.phase, s);
            ConnInv(config, c.(phase := phase), t, current)
  {
    ServedKeepsPhase(config, c.io, c.phase, s);
  }

  lemma StepsConsume(sp: Spawn.State, step: Spawn.Step)
    requires Spawn.Inv(sp) && Spawn.Next(sp, step).Some? && !step.Join?
    ensures var t := Spawn.Next(sp, step).value;
            && Consumed(sp) <= Consumed(t) <= 1
            && (t.joined ==> sp.joined)
            && (SpawnerDone(sp) ==> SpawnerDone(t))
            && (t.child.Absent? || t.child.Ready? ==> sp.child.Absent? || sp.child.Ready?)
            && (t.ledger.closureRuns > sp.ledger.closureRuns ==> step.RunClosure?)
  {
    Spawn.StepKeepsInv(sp, step);
    if Spawn.ByChild(step) {
      ChildStepConsumes(sp, step);
    } else {
      SpawnerStepConsumes(sp, step);
    }
    ConsumedOnce(Spawn.Next(sp, step).value);
  }

  lemma ChildStepConsumes(sp: Spawn.State, step: Spawn.Step)
    requires Spawn.NextChild(sp, step).Some?
    ensures var t := Spawn.NextChild(sp, step).value;
            && Consumed(t) == Consumed(sp) + (if step.RunClosure? then 1 else 0)
            && t.ledger.closureRuns == sp.ledger.closureRuns + (if step.RunClosure? then 1 else 0)
            && t.joined == sp.joined && t.parent == sp.parent
            && (t.child.Absent? || t.child.Ready? ==> sp.child.Absent? || sp.child.Ready?)
  {
  }

  lemma SpawnerStepConsumes(sp: Spawn.State, step: Spawn.Step)
    requires Spawn.Inv(sp) && Spawn.NextParent(sp, step).Some? && !step.Join?
    ensures var t := Spawn.NextParent(sp, step).value;
            && Consumed(t) == Consumed(sp) + (if step.ReclaimPacket? then 1 else 0)
            && t.ledger.closureRuns == sp.ledger.closureRuns
            && (t.joined ==> sp.joined)
            && !SpawnerDone(sp)
            && (t.child.Absent? || t.child.Ready? ==> sp.child.Absent? || sp.child.Ready?)
  {
  }

  lemma ConsumedOnce(sp: Spawn.State)
    requires Spawn.Inv(sp)
    ensures Consumed(sp) <= 1
    ensures Spawn.Quiescent(sp) ==> Consumed(sp) == sp.ledger.packetFrees == sp.ledger.slotFrees == 1
    ensures Spawn.Quiescent(sp) ==> sp.ledger.closureRuns == if sp.parent.SpawnFailed? then 0 else 1
  {
  }

  lemma AdvanceKeepsConn(config: Config, c: Conn, s: Sock, current: bool, step: Spawn.Step)
    requires ConnInv(config, c, s, current) && Spawn.Next(c.spawn, step).Some?
    requires !step.Join? && (step.RunClosure? ==> c.phase.Returning?)
    ensures var sp := Spawn.Next(c.spawn, step).value;
            && Consumed(c.spawn) <= Consumed(sp) <= 1
            && ConnInv(config, c.(spawn := sp), s.(closes := Consumed(sp)), current)
  {
    Spawn.StepKeepsInv(c.spawn, step);
    StepsConsume(c.spawn, step);
  }

  // ----- all connections

  type Check = (Conn, Sock, bool) -> bool

  function Checks(config: Config): Check {
    (c, s, current) => ConnInv(config, c, s, current)
  }

  /** `p` holds of every connection, given whether it is the one being spawned. */
  predicate Each(conns: seq<Conn>, socks: seq<Sock>, m: Main, p: Check) {
    |conns| == |socks| && forall k :: 0 <= k < |conns| ==> p(conns[k], socks[k], Current(m, k))
  }

  function ListenerFd(m: Main): Option<int> {
    match m
    case Configuring(fd) => Some(fd)
    case Accepting(fd) => Some(fd)
    case Spawning(fd, _) => Some(fd)
    case _ => None
  }

  /** The closure of connection `k`, and with it the stream, still exists. */
  predicate Live(conns: seq<Conn>, k: nat) {
    k < |conns| && Consumed(conns[k].spawn) == 0
  }

  /** The open descriptors are the listener's and those of live connections, each denoting its owner's. */
  ghost predicate TableInv(table: map<int, Desc>, conns: seq<Conn>, listener: Option<int>) {
    && (forall fd :: fd in table ==>
          match table[fd]
          case Listener => listener == Some(fd)
          case Peer(j) => Live(conns, j) && conns[j].fd == fd)
    && (listener.Some? ==> listener.value in table && table[listener.value] == Listener)
    && (forall k :: 0 <= k < |conns| && Live(conns, k) ==> conns[k].fd in table && table[conns[k].fd] == Peer(k))
  }

  ghost predicate Inv(s: State) {
    && !s.misuse
    && (s.main.Spawning? ==> s.main.k < |s.conns|)
    && s.listeners == s.listenerCloses + (if ListenerFd(s.main).Some? then 1 else 0) <= 1
    && (s.main.Binding? ==> s.conns == [] && s.listeners == 0)
    && Each(s.conns, s.socks, s.main, Checks(s.config))
    && TableInv(s.table, s.conns, ListenerFd(s.main))
  }

  // One connection at a time: what happens to the others.

  lemma EachSnoc(conns: seq<Conn>, socks: seq<Sock>, m: Main, n: Main, c: Conn, s: Sock, p: Check)
    requires Each(conns, socks, m, p) && m.Accepting? && n.Spawning? && n.k == |conns| && p(c, s, true)
    ensures Each(conns + [c], socks + [s], n, p)
  {
    forall k | 0 <= k < |conns|
      ensures p((conns + [c])[k], (socks + [s])[k], Current(n, k))
    {
      assert p(conns[k], socks[k], Current(m, k));
    }
  }

  lemma EachUpdate(conns: seq<Conn>, socks: seq<Sock>, m: Main, k: nat, c: Conn, s: Sock, p: Check)
    requires Each(conns, socks, m, p) && k < |conns| && p(c, s, Current(m, k))
    ensures Each(conns[k := c], socks[k := s], m, p)
  {
    forall l | 0 <= l < |conns| && l != k
      ensures p(conns[k := c][l], socks[k := s][l], Current(m, l))
    {
      assert p(conns[l], socks[l], Current(m, l));
    }
  }

  lemma EachMain(conns: seq<Conn>, socks: seq<Sock>, m: Main, n: Main, p: Check)
    requires Each(conns, socks, m, p) && !n.Spawning?
    requires forall k :: 0 <= k < |conns| && Current(m, k) && p(conns[k], socks[k], true) ==>
               p(conns[k], socks[k], false)
    ensures Each(conns, socks, n, p)
  {
    forall k | 0 <= k < |conns|
      ensures p(conns[k], socks[k], Current(n, k))
    {
      assert p(conns[k], socks[k], Current(m, k));
    }
  }

  lemma ConnAt(s: State, k: nat)
    requires Each(s.conns, s.socks, s.main, Checks(s.config)) && k < |s.conns|
    ensures ConnInv(s.config, s.conns[k], s.socks[k], Current(s.main, k))
  {
    assert Checks(s.config)(s.conns[k], s.socks[k], Current(s.main, k));
  }

  // ----- steps of the main thread alone

  lemma CloseListenerKeepsInv(s: State, fd: int)
    requires Inv(s) && ListenerFd(s.main) == Some(fd) && !s.main.Spawning?
    ensures Inv(CloseListener(s, fd))
  {
    EachMain(s.conns, s.socks, s.main, Main.Stopped, Checks(s.config));
  }

  lemma MainStepKeepsInv(s: State, step: Step)
    requires Inv(s) && Next(s, step).Some? && !step.Accepted? && !step.Advance? && !step.Work?
    ensures Inv(Next(s, step).value)
  {
    var t := Next(s, step).value;
    if EndsServe(step) && !s.main.Binding? {
      CloseListenerKeepsInv(s, s.main.fd);
    } else {
      EachMain(s.conns, s.socks, s.main, t.main, Checks(s.config));
    }
  }

  lemma AcceptedState(s: State, fd: int, io: Io)
    requires Next(s, Accepted(fd, io)).Some?
    ensures s.main.Accepting? && fd !in s.table
    ensures Next(s, Accepted(fd, io)).value == Adopt(s, s.main.fd, Fresh(fd, io, s.config.sized), FreshSock(io))
  {
  }

  lemma AcceptKeepsInv(s: State, fd: int, io: Io, c: Conn)
    requires Inv(s) && s.main.Accepting? && fd !in s.table && c == Fresh(fd, io, s.config.sized)
    ensures Inv(Adopt(s, s.main.fd, c, FreshSock(io)))
  {
    FreshConn(s.config, c, FreshSock(io));
    AdoptKeepsInv(s, c, FreshSock(io));
  }

  lemma AdoptKeepsInv(s: State, c: Conn, sock: Sock)
    requires Inv(s) && s.main.Accepting? && c.fd !in s.table
    requires ConnInv(s.config, c, sock, true) && Consumed(c.spawn) == 0
    ensures Inv(Adopt(s, s.main.fd, c, sock))
  {
    var t := Adopt(s, s.main.fd, c, sock);
    assert Checks(s.config)(c, sock, true);
    EachSnoc(s.conns, s.socks, s.main, t.main, c, sock, Checks(s.config));
    TableWithConn(s.table, s.conns, s.main.fd, c);
  }

  lemma TableWithConn(table: map<int, Desc>, conns: seq<Conn>, listener: int, c: Conn)
    requires TableInv(table, conns, Some(listener)) && c.fd !in table && Consumed(c.spawn) == 0
    ensures TableInv(table[c.fd := Peer(|conns|)], conns + [c], Some(listener))
  {
    forall k | 0 <= k < |conns|
      ensures Live(conns + [c], k) <==> Live(conns, k)
    {
    }
  }

  // ----- steps of a connection

  lemma TableUpdate(table: map<int, Desc>, conns: seq<Conn>, listener: Option<int>, k: nat, c: Conn)
    requires TableInv(table, conns, listener) && k < |conns| && c.fd == conns[k].fd
    requires Consumed(c.spawn) == 0 <==> Consumed(conns[k].spawn) == 0
    ensures TableInv(table, conns[k := c], listener)
  {
    forall l | 0 <= l < |conns|
      ensures Live(conns[k := c], l) <==> Live(conns, l)
    {
    }
  }

  lemma TableClosed(table: map<int, Desc>, conns: seq<Conn>, listener: Option<int>, k: nat, c: Conn)
    requires TableInv(table, conns, listener) && k < |conns| && c.fd == conns[k].fd
    requires Consumed(conns[k].spawn) == 0 < Consumed(c.spawn)
    ensures c.fd in table && table[c.fd] == Peer(k)
    ensures TableInv(table - {c.fd}, conns[k := c], listener)
  {
    assert Live(conns, k);
    forall l | 0 <= l < |conns|
      ensures Live(conns[k := c], l) <==> Live(conns, l) && l != k
    {
    }
  }

  /** A closure at work has its connection open under its descriptor. */
  lemma WorksOnItsOwn(s: State, k: nat)
    requires Inv(s) && Next(s, Work(k)).Some?
    ensures k < |s.conns| == |s.socks| && Denotes(s, s.conns[k].fd, Peer(k))
    ensures var (phase, sock) := Served(s.config, s.conns[k].phase, s.socks[k]);
            Next(s, Work(k)).value
            == s.(conns := s.conns[k := s.conns[k].(phase := phase)], socks := s.socks[k := sock])
  {
    ConnAt(s, k);
    RunningIsLive(s.conns[k].spawn);
    assert Live(s.conns, k);
  }

  lemma RunningIsLive(sp: Spawn.State)
    requires Spawn.Inv(sp) && sp.child.Running?
    ensures Consumed(sp) == 0
  {
  }

  lemma WorkKeepsInv(s: State, k: nat)
    requires Inv(s) && Next(s, Work(k)).Some?
    ensures Inv(Next(s, Work(k)).value)
  {
    WorksOnItsOwn(s, k);
    ConnAt(s, k);
    WorkKeepsConn(s.config, s.conns[k], s.socks[k], Current(s.main, k));
    var (phase, sock) := Served(s.config, s.conns[k].phase, s.socks[k]);
    var c := s.conns[k].(phase := phase);
    EachUpdate(s.conns, s.socks, s.main, k, c, sock, Checks(s.config));
    TableUpdate(s.table, s.conns, ListenerFd(s.main), k, c);
  }

  /** The state after connection `k`'s thread or spawner has moved; its stream is closed at most once. */
  lemma Advanced(s: State, k: nat, step: Spawn.Step)
    requires Inv(s) && Next(s, Advance(k, step)).Some?
    ensures k < |s.conns| == |s.socks| && Spawn.Next(s.conns[k].spawn, step).Some?
    ensures var sp := Spawn.Next(s.conns[k].spawn, step).value;
            var c, sock := s.conns[k].(spawn := sp), s.socks[k].(closes := Consumed(sp));
            var t := s.(conns := s.conns[k := c], socks := s.socks[k := sock]);
            && ConnInv(s.config, c, sock, Current(s.main, k))
            && Next(s, Advance(k, step)).value
               == (if Consumed(sp) == Consumed(s.conns[k].spawn) then t else t.(table := s.table - {c.fd}))
            && TableInv(Next(s, Advance(k, step)).value.table, t.conns, ListenerFd(s.main))
  {
    ConnAt(s, k);
    AdvanceKeepsConn(s.config, s.conns[k], s.socks[k], Current(s.main, k), step);
    var sp := Spawn.Next(s.conns[k].spawn, step).value;
    AdvancedState(s, k, step);
    AdvancedConn(s, k, sp);
  }

  lemma AdvancedState(s: State, k: nat, step: Spawn.Step)
    requires Next(s, Advance(k, step)).Some?
    ensures k < |s.conns| && Spawn.Next(s.conns[k].spawn, step).Some?
    ensures Next(s, Advance(k, step)).value == AdvanceConn(s, k, Spawn.Next(s.conns[k].spawn, step).value)
  {
  }

  lemma AdvancedConn(s: State, k: nat, sp: Spawn.State)
    requires TableInv(s.table, s.conns, ListenerFd(s.main)) && k < |s.conns| == |s.socks|
    requires s.socks[k].closes == Consumed(s.conns[k].spawn) <= Consumed(sp) <= 1
    ensures var c, sock := s.conns[k].(spawn := sp), s.socks[k].(closes := Consumed(sp));
            var t := s.(conns := s.conns[k := c], socks := s.socks[k := sock]);
            && AdvanceConn(s, k, sp)
               == (if Consumed(sp) == Consumed(s.conns[k].spawn) then t else t.(table := s.table - {c.fd}))
            && TableInv(AdvanceConn(s, k, sp).table, t.conns, ListenerFd(s.main))
  {
    var c := s.conns[k].(spawn := sp);
    if Consumed(sp) == Consumed(s.conns[k].spawn) {
      TableUpdate(s.table, s.conns, ListenerFd(s.main), k, c);
      assert s.socks[k := s.socks[k]] == s.socks;
    } else {
      TableClosed(s.table, s.conns, ListenerFd(s.main), k, c);
      CloseOnce(s.(conns := s.conns[k := c]), c.fd);
    }
  }

  lemma CloseOnce(s: State, fd: int)
    ensures CloseTimes(s, fd, 1) == Close(s, fd)
  {
  }

  lemma AdvanceKeepsInv(s: State, k: nat, step: Spawn.Step)
    requires Inv(s) && Next(s, Advance(k, step)).Some?
    ensures Inv(Next(s, Advance(k, step)).value)
  {
    Advanced(s, k, step);
    var sp := Spawn.Next(s.conns[k].spawn, step).value;
    var c, sock := s.conns[k].(spawn := sp), s.socks[k].(closes := Consumed(sp));
    EachUpdate(s.conns, s.socks, s.main, k, c, sock, Checks(s.config));
  }

  lemma StepKeepsInv(s: State, step: Step)
    requires Inv(s) && Next(s, step).Some?
    ensures Inv(Next(s, step).value)
  {
    match step
    case Accepted(fd, io) =>
      AcceptedState(s, fd, io);
      AcceptKeepsInv(s, fd, io, Fresh(fd, io, s.config.sized));
    case Advance(k, st) =>
      AdvanceKeepsInv(s, k, st);
    case Work(k) =>
      WorkKeepsInv(s, k);
    case _ =>
      MainStepKeepsInv(s, step);
  }

  lemma ConfigStays(s: State, step: Step)
    requires Inv(s) && Next(s, step).Some?
    ensures Next(s, step).value.config == s.config
  {
    if step.Advance? {
      Advanced(s, step.k, step.step);
    }
  }

  lemma {:induction false} Reachable(run: Run, config: Config, i: nat)
    requires IsRun(run, config) && i < |run.states|
    ensures Inv(run.states[i]) && run.states[i].config == config
  {
    if i > 0 {
      Reachable(run, config, i - 1);
      assert Next(run.states[i - 1], run.steps[i - 1]) == Some(run.states[i]);
      StepKeepsInv(run.states[i - 1], run.steps[i - 1]);
      ConfigStays(run.states[i - 1], run.steps[i - 1]);
    }
  }

  // ----- descriptor conservation

  /**
   In every run, each call a closure makes goes to its own connection, still open under its
   descriptor, and touches no other connection, however often the number has been used before.
   */
  lemma IoHitsOwn(run: Run, config: Config, i: nat, k: nat)
    requires IsRun(run, config) && i < |run.steps| && run.steps[i] == Work(k)
    ensures var s, t := run.states[i], run.states[i + 1];
            && k < |s.conns| && Denotes(s, s.conns[k].fd, Peer(k))
            && |t.socks| == |s.socks| && forall j :: 0 <= j < |s.socks| && j != k ==> t.socks[j] == s.socks[j]
  {
    Reachable(run, config, i);
    assert Next(run.states[i], run.steps[i]) == Some(run.states[i + 1]);
    WorksOnItsOwn(run.states[i], k);
  }

  /**
   In every reachable state of every run: a connection has been closed as often as its closure has
   been consumed, which is once at most; nothing has used a descriptor that is not its own; the
   open descriptors are exactly the listener's and those of the live connections.
   */
  lemma DescriptorsOwned(run: Run, config: Config, i: nat, k: nat)
    requires IsRun(run, config) && i < |run.states| && k < |run.states[i].conns|
    ensures var s := run.states[i];
            && !s.misuse && |s.socks| == |s.conns|
            && s.socks[k].closes == Consumed(s.conns[k].spawn) <= 1
            && (Live(s.conns, k) ==> Denotes(s, s.conns[k].fd, Peer(k)))
            && forall fd :: fd in s.table <==>
                 || ListenerFd(s.main) == Some(fd)
                 || exists l :: 0 <= l < |s.conns| && Live(s.conns, l) && s.conns[l].fd == fd
  {
    Reachable(run, config, i);
    ConnAt(run.states[i], k);
    ConsumedOnce(run.states[i].conns[k].spawn);
  }

  /** The listening descriptor is closed exactly once if there ever was one, whichever way serve returns. */
  lemma ListenerClosedOnce(run: Run, config: Config, i: nat)
    requires IsRun(run, config) && i < |run.states| && run.states[i].main.Stopped?
    ensures var s := run.states[i]; s.listenerCloses == s.listeners <= 1
  {
    Reachable(run, config, i);
  }

  /** serve has returned and every connection's protocol has come to its end. */
  predicate Quiescent(s: State) {
    s.main.Stopped? && forall k :: 0 <= k < |s.conns| ==> Spawn.Quiescent(s.conns[k].spawn)
  }

  /**
   At the end nothing is left open, every connection has been closed exactly once, and the packet
   and result slot of its thread have been freed exactly once.
   */
  lemma NothingLeaks(run: Run, config: Config, i: nat)
    requires IsRun(run, config) && i < |run.states| && Quiescent(run.states[i])
    ensures var s := run.states[i];
            && s.table == map[] && s.listenerCloses == s.listeners && |s.socks| == |s.conns|
            && forall k :: 0 <= k < |s.conns| ==>
                 && s.socks[k].closes == 1
                 && s.conns[k].spawn.ledger.packetFrees == s.conns[k].spawn.ledger.slotFrees == 1
  {
    Reachable(run, config, i);
    var s := run.states[i];
    forall k | 0 <= k < |s.conns|
      ensures !Live(s.conns, k) && s.socks[k].closes == 1
      ensures s.conns[k].spawn.ledger.packetFrees == s.conns[k].spawn.ledger.slotFrees == 1
    {
      ConnAt(s, k);
      ConsumedOnce(s.conns[k].spawn);
    }
    assert forall fd :: fd !in s.table;
  }

  // ----- what the peers get

  /** `wire` is part of what is owed: nothing if nothing is, else a prefix of it. */
  predicate PartOf(wire: Bytes, owed: Option<Bytes>) {
    match owed case None => wire == [] case Some(whole) => wire <= whole
  }

  /**
   At every moment, between any two calls of any thread, each peer has got a prefix of what it is
   owed for its own bytes alone, and what serving it alone sends once its closure is through. It is
   shut down at most once, and not before all of that is sent.
   */
  lemma WireIsPrefix(run: Run, config: Config, i: nat, k: nat)
    requires IsRun(run, config) && i < |run.states| && k < |run.states[i].conns|
    ensures var c := run.states[i].conns[k];
            && |run.states[i].socks| == |run.states[i].conns|
            && PartOf(run.states[i].socks[k].wire, Owed(config, c.io))
            && (c.phase.Returning? ==> run.states[i].socks[k].wire == Due(config, c.io))
            && (c.spawn.ledger.closureRuns > 0 ==> c.phase.Returning? && run.states[i].socks[k].shutdowns == 1)
            && (c.spawn.child.Absent? ==> run.states[i].socks[k].wire == [])
            && run.states[i].socks[k].shutdowns <= 1
            && (run.states[i].socks[k].shutdowns == 1 ==> run.states[i].socks[k].wire == Due(config, c.io))
  {
    Reachable(run, config, i);
    ConnAt(run.states[i], k);
  }

  /** The response the peer is owed: the handler's for the request it sent, or the 400. */
  function OwedResponse(io: Io, handler: Connection.Handler, limits: HttpReader.Limits): Option<Response> {
    Connection.Answer(HttpReader.Reading(io.incoming, limits).0, handler)
  }

  /** What a peer gets for `io`: a prefix of the printed response it is owed, all of it when every write succeeds. */
  predicate Answered(wire: Bytes, io: Io, owed: Option<Response>) {
    match owed
    case None => wire == []
    case Some(r) => wire <= Encoded(r) && (wire == Encoded(r) <==> SendAll(|Encoded(r)|, io.outgoing, 0).result.Ok?)
  }

  /**
   The server end to end, at the end of every run: each accepted connection whose thread could be
   created was answered by its own request alone and shut down after that, each other one got
   nothing, and all of them, like the listener, are closed.
   */
  lemma EveryConnectionAnswered(
      sized: bool, handler: Connection.Handler, limits: HttpReader.Limits, run: Run, i: nat, k: nat)
    requires IsRun(run, Serving(sized, handler, limits)) && i < |run.states| && Quiescent(run.states[i])
    requires k < |run.states[i].conns|
    ensures var s := run.states[i];
            var c := s.conns[k];
            && |s.socks| == |s.conns|
            && (if c.spawn.parent.SpawnFailed? then s.socks[k].wire == []
                else Answered(s.socks[k].wire, c.io, OwedResponse(c.io, handler, limits)) && s.socks[k].shutdowns == 1)
            && s.socks[k].closes == 1 && s.table == map[]
  {
    var config := Serving(sized, handler, limits);
    NothingLeaks(run, config, i);
    Reachable(run, config, i);
    ConnAt(run.states[i], k);
    WireIsPrefix(run, config, i, k);
    var c := run.states[i].conns[k];
    ConsumedOnce(c.spawn);
    DueAnswers(sized, handler, limits, c.io);
  }

  lemma DueAnswers(sized: bool, handler: Connection.Handler, limits: HttpReader.Limits, io: Io)
    ensures Answered(Due(Serving(sized, handler, limits), io), io, OwedResponse(io, handler, limits))
    ensures Due(Serving(sized, handler, limits), io) == Connection.Output(io.incoming, io.outgoing, handler, limits)
  {
    Connection.OutputIsAnswer(io.incoming, io.outgoing, handler, limits);
  }

  // ----- the loop goes on

  /** A step of the thread that runs `serve`. */
  predicate ByMain(step: Step) {
    !step.Work? && (step.Advance? ==> !Spawn.ByChild(step.step))
  }

  /** How many of the steps from `i` to `j` are the main thread's. */
  function MainSteps(steps: seq<Step>, i: nat, j: nat): nat
    requires i <= j <= |steps|
    decreases j - i
  {
    if i == j then 0 else MainSteps(steps, i, j - 1) + (if ByMain(steps[j - 1]) then 1 else 0)
  }

  /** How many steps the main thread is at most away from accepting again. */
  function SpawnRank(s: State): nat {
    if s.main.Spawning? && s.main.k < |s.conns| then 1 + Spawn.ParentRank(s.conns[s.main.k].spawn.parent) else 0
  }

  lemma SpawnerDescends(sp: Spawn.State, step: Spawn.Step)
    requires Spawn.Inv(sp) && Spawn.Next(sp, step).Some?
    ensures var t := Spawn.Next(sp, step).value;
            if Spawn.ByChild(step) then t.parent == sp.parent
            else Spawn.ParentRank(t.parent) < Spawn.ParentRank(sp.parent)
  {
  }

  /** While a thread is being created, the main thread's steps run down, and lead only back to accepting. */
  lemma SpawningStep(s: State, step: Step)
    requires Inv(s) && s.main.Spawning? && Next(s, step).Some?
    ensures var t := Next(s, step).value;
            || t.main == Accepting(s.main.fd)
            || (t.main == s.main && SpawnRank(t) + (if ByMain(step) then 1 else 0) <= SpawnRank(s))
  {
    match step
    case Advance(k, st) =>
      Advanced(s, k, st);
      ConnAt(s, k);
      SpawnerDescends(s.conns[k].spawn, st);
    case Work(k) =>
      WorksOnItsOwn(s, k);
    case _ =>
  }

  /** The main thread is accepting at some point after `i`, up to `j`. */
  ghost predicate AcceptsAgain(run: Run, i: nat, j: nat, fd: int)
    requires j < |run.states|
  {
    exists m :: i < m <= j && run.states[m].main == Accepting(fd)
  }

  lemma {:induction false} SpawningRunsDown(run: Run, config: Config, i: nat, j: nat)
    requires IsRun(run, config) && i <= j < |run.states| && run.states[i].main.Spawning?
    ensures AcceptsAgain(run, i, j, run.states[i].main.fd)
            || (run.states[j].main == run.states[i].main
                && SpawnRank(run.states[j]) + MainSteps(run.steps, i, j) <= SpawnRank(run.states[i]))
    decreases j - i
  {
    if i < j {
      var fd := run.states[i].main.fd;
      SpawningRunsDown(run, config, i, j - 1);
      if AcceptsAgain(run, i, j - 1, fd) {
        var m :| i < m <= j - 1 && run.states[m].main == Accepting(fd);
        assert i < m <= j;
      } else {
        Reachable(run, config, j - 1);
        assert Next(run.states[j - 1], run.steps[j - 1]) == Some(run.states[j]);
        SpawningStep(run.states[j - 1], run.steps[j - 1]);
      }
    }
  }

  /**
   The loop always comes back: from the moment a connection is accepted, thirteen steps of the main
   thread at most, whatever the return codes and however the other threads interleave, and it is
   accepting again.
   */
  lemma LoopComesBack(run: Run, config: Config, i: nat, j: nat)
    requires IsRun(run, config) && i <= j < |run.states| && run.states[i].main.Spawning?
    requires MainSteps(run.steps, i, j) >= 13
    ensures AcceptsAgain(run, i, j, run.states[i].main.fd)
  {
    SpawningRunsDown(run, config, i, j);
    Reachable(run, config, i);
    Reachable(run, config, j);
    assert SpawnRank(run.states[i]) <= 13;
  }

  /** While a thread is being created, the main thread waits for nobody: it can take a step. */
  lemma SpawningIsNeverBlocked(run: Run, config: Config, i: nat)
    requires IsRun(run, config) && i < |run.states| && run.states[i].main.Spawning?
    ensures exists step :: ByMain(step) && Next(run.states[i], step).Some?
  {
    Reachable(run, config, i);
    var s := run.states[i];
    var k := s.main.k;
    ConnAt(s, k);
    if SpawnerDone(s.conns[k].spawn) {
      assert ByMain(NextConnection) && Next(s, NextConnection).Some?;
    } else {
      var st := Spawn.SomeStep(s.conns[k].spawn);
      SpawnerCanMove(s.conns[k].spawn);
      CanAdvance(s, k, st);
      assert ByMain(Advance(k, st)) && Next(s, Advance(k, st)).Some?;
    }
  }

  lemma SpawnerCanMove(sp: Spawn.State)
    requires Spawn.Inv(sp) && !SpawnerDone(sp) && !sp.joined
    ensures var st := Spawn.SomeStep(sp);
            !Spawn.ByChild(st) && !st.Join? && !st.RunClosure? && Spawn.Next(sp, st).Some?
  {
  }

  lemma CanAdvance(s: State, k: nat, st: Spawn.Step)
    requires MayAdvance(s, k, st) && Spawn.Next(s.conns[k].spawn, st).Some?
    ensures Next(s, Advance(k, st)).Some?
  {
  }

  // ----- when serve returns

  /** Steps of the main thread that make `serve` return: any accept error but EINTR is one. */
  predicate EndsServe(step: Step) {
    || step.RejectV6? || step.SocketFails? || step.SetupFails?
    || (step.AcceptFails? && step.errno != EINTR)
  }

  /** A step makes serve return exactly if it is a listener set-up that fails or an accept error other than EINTR. */
  lemma StopsExactly(s: State, step: Step)
    requires Inv(s) && !s.main.Stopped? && Next(s, step).Some?
    ensures Next(s, step).value.main.Stopped? <==> EndsServe(step)
  {
    match step
    case Advance(k, st) => Advanced(s, k, st);
    case Work(k) => WorksOnItsOwn(s, k);
    case _ =>
  }

  lemma StoppedStays(s: State, step: Step)
    requires Inv(s) && s.main.Stopped? && Next(s, step).Some?
    ensures Next(s, step).value.main.Stopped? && (step.Work? || (step.Advance? && Spawn.ByChild(step.step)))
  {
    match step
    case Advance(k, st) => Advanced(s, k, st);
    case Work(k) => WorksOnItsOwn(s, k);
    case _ =>
  }

  /** One of the first `i` steps made serve return. */
  predicate HasEnded(steps: seq<Step>, i: nat)
    requires i <= |steps|
  {
    exists m :: 0 <= m < i && EndsServe(steps[m])
  }

  lemma HasEndedNext(steps: seq<Step>, i: nat)
    requires i < |steps|
    ensures HasEnded(steps, i + 1) <==> HasEnded(steps, i) || EndsServe(steps[i])
  {
  }

  /**
   serve has returned exactly if some step so far was a failure to set up the listener or an accept
   error other than EINTR: nothing the connections' threads do, and no failed creation, makes it stop.
   */
  lemma {:induction false} StoppedExactly(run: Run, config: Config, i: nat)
    requires IsRun(run, config) && i < |run.states|
    ensures run.states[i].main.Stopped? <==> HasEnded(run.steps, i)
  {
    if i > 0 {
      StoppedExactly(run, config, i - 1);
      StoppedExactlyNext(run, config, i - 1);
    }
  }

  lemma StoppedExactlyNext(run: Run, config: Config, i: nat)
    requires IsRun(run, config) && i < |run.steps|
    requires run.states[i].main.Stopped? <==> HasEnded(run.steps, i)
    ensures run.states[i + 1].main.Stopped? <==> HasEnded(run.steps, i + 1)
  {
    StoppedNext(run, config, i);
    HasEndedNext(run.steps, i);
  }

  lemma StoppedNext(run: Run, config: Config, i: nat)
    requires IsRun(run, config) && i < |run.steps|
    ensures run.states[i + 1].main.Stopped? <==> run.states[i].main.Stopped? || EndsServe(run.steps[i])
  {
    Reachable(run, config, i);
    StoppedAfter(run.states[i], run.steps[i], run.states[i + 1]);
  }

  lemma StoppedAfter(s: State, step: Step, t: State)
    requires Inv(s) && Next(s, step) == Some(t)
    ensures t.main.Stopped? <==> s.main.Stopped? || EndsServe(step)
  {
    if s.main.Stopped? {
      StoppedStays(s, step);
    } else {
      StopsExactly(s, step);
    }
  }

  // What accept reports when a queued connection was dropped by its peer (FreeBSD numbering).
  const ECONNABORTED := 53

  /**
   One peer giving up in the queue makes the whole server return, although its listening socket is
   sound: the states and steps of such a run.
   */
  function AbortedRun(config: Config, fd: int): Run {
    var listening := Init(config).(main := Accepting(fd), table := map[fd := Listener], listeners := 1);
    Run([Init(config), listening.(main := Configuring(fd)), listening, CloseListener(listening, fd)],
        [Socket(fd), Listening, AcceptFails(ECONNABORTED)])
  }

  lemma DroppedPeerEndsServe(config: Config, fd: int)
    ensures IsRun(AbortedRun(config, fd), config)
    ensures AbortedRun(config, fd).states[2].main == Accepting(fd) && AbortedRun(config, fd).states[3].main.Stopped?
  {
    assert map[][fd := Listener] == map[fd := Listener];
  }

  // ----- every connection comes to its end

  /** What a closure has left to do: its phase, bytes or answers to go, answers to its writes to go. */
  function Left(phase: Phase, s: Sock): (nat, nat, nat) {
    match phase
    case Receiving(r) => (if r.Done? then 3 else 4, |s.incoming|, 0)
    case Sending(rest) => (2, |rest|, |s.outgoing|)
    case ShuttingDown => (1, 0, 0)
    case Returning => (0, 0, 0)
  }

  predicate Less(a: (nat, nat, nat), b: (nat, nat, nat)) {
    a.0 < b.0 || (a.0 == b.0 && (a.1 < b.1 || (a.1 == b.1 && a.2 < b.2)))
  }

  /** Every call of a closure brings it closer to its end, on every schedule. */
  lemma ServingEnds(config: Config, phase: Phase, s: Sock)
    requires !phase.Returning?
    ensures var (after, t) := Served(config, phase, s); Less(Left(after, t), Left(phase, s))
  {
    if phase.Receiving? && !phase.r.Done? && s.incoming == [] {
      assert NextAnswer(s.incoming) == Got([]);
    }
  }

  /** A closure run without interruption; the recursion ends because serving does. */
  function Alone(config: Config, phase: Phase, s: Sock): Sock
    decreases Left(phase, s).0, Left(phase, s).1, Left(phase, s).2
  {
    if phase.Returning? then s
    else
      ServingEnds(config, phase, s);
      var (after, t) := Served(config, phase, s);
      Alone(config, after, t)
  }

  /** From wherever it is, a closure that goes on alone gets through: all that is due goes out, then one shutdown. */
  lemma {:induction false} GetsThrough(config: Config, io: Io, phase: Phase, s: Sock)
    requires PhaseInv(config, io, phase, s)
    ensures Alone(config, phase, s).wire == Due(config, io) && Alone(config, phase, s).shutdowns == 1
    decreases Left(phase, s).0, Left(phase, s).1, Left(phase, s).2
  {
    if !phase.Returning? {
      ServingEnds(config, phase, s);
      ServedKeepsPhase(config, io, phase, s);
      var (after, t) := Served(config, phase, s);
      GetsThrough(config, io, after, t);
    }
  }

  /** How many calls a closure still makes when it goes on. */
  function CallsLeft(config: Config, phase: Phase, s: Sock): nat
    decreases Left(phase, s).0, Left(phase, s).1, Left(phase, s).2
  {
    if phase.Returning? then 0
    else
      ServingEnds(config, phase, s);
      var (after, t) := Served(config, phase, s);
      1 + CallsLeft(config, after, t)
  }

  /** How many steps a connection's closure, thread and spawner still take at most. */
  function ConnLeft(config: Config, c: Conn, s: Sock): nat {
    CallsLeft(config, c.phase, s) + Spawn.Rank(c.spawn)
  }

  type Measure = (Conn, Sock) -> nat

  function Lefts(config: Config): Measure {
    (c, s) => ConnLeft(config, c, s)
  }

  function Total(conns: seq<Conn>, socks: seq<Sock>, m: Measure): nat
    requires |conns| == |socks|
  {
    if conns == [] then 0
    else
      var k := |conns| - 1;
      Total(conns[..k], socks[..k], m) + m(conns[k], socks[k])
  }

  lemma {:induction false} TotalUpdate(conns: seq<Conn>, socks: seq<Sock>, m: Measure, k: nat, c: Conn, s: Sock)
    requires k < |conns| == |socks|
    ensures Total(conns[k := c], socks[k := s], m) + m(conns[k], socks[k]) == Total(conns, socks, m) + m(c, s)
  {
    var last := |conns| - 1;
    if k == last {
      assert conns[k := c][..last] == conns[..last] && socks[k := s][..last] == socks[..last];
    } else {
      assert conns[k := c][..last] == conns[..last][k := c] && socks[k := s][..last] == socks[..last][k := s];
      TotalUpdate(conns[..last], socks[..last], m, k, c, s);
    }
  }

  lemma WorkDescends(config: Config, c: Conn, s: Sock)
    requires !c.phase.Returning?
    ensures var (phase, t) := Served(config, c.phase, s);
            ConnLeft(config, c.(phase := phase), t) < ConnLeft(config, c, s)
  {
  }

  /** A thread that moves leaves its connection alone, unless its closure returns and has no calls left. */
  lemma AdvanceDescends(config: Config, c: Conn, s: Sock, step: Spawn.Step)
    requires Spawn.Inv(c.spawn) && s.closes == Consumed(c.spawn) && Spawn.ByChild(step)
    requires Spawn.Next(c.spawn, step).Some? && (step.RunClosure? ==> c.phase.Returning?)
    ensures var sp := Spawn.Next(c.spawn, step).value;
            ConnLeft(config, c.(spawn := sp), s.(closes := Consumed(sp))) < ConnLeft(config, c, s)
  {
    Spawn.StepDescends(c.spawn, step);
    ChildStepConsumes(c.spawn, step);
  }

  /** How many steps there still are at most once serve has returned. */
  function TotalLeft(s: State): nat
    requires |s.conns| == |s.socks|
  {
    Total(s.conns, s.socks, Lefts(s.config))
  }

  lemma StoppedDescends(s: State, step: Step)
    requires Inv(s) && s.main.Stopped? && Next(s, step).Some?
    ensures Inv(Next(s, step).value) && TotalLeft(Next(s, step).value) < TotalLeft(s)
  {
    StoppedStays(s, step);
    StepKeepsInv(s, step);
    ConnAt(s, step.k);
    if step.Work? {
      StoppedWorkDescends(s, step.k);
    } else {
      StoppedAdvanceDescends(s, step.k, step.step);
    }
  }

  lemma StoppedWorkDescends(s: State, k: nat)
    requires Inv(s) && Next(s, Work(k)).Some? && Inv(Next(s, Work(k)).value)
    ensures TotalLeft(Next(s, Work(k)).value) < TotalLeft(s)
  {
    WorksOnItsOwn(s, k);
    var c, m := s.conns[k], Lefts(s.config);
    var (phase, sock) := Served(s.config, c.phase, s.socks[k]);
    WorkDescends(s.config, c, s.socks[k]);
    TotalUpdate(s.conns, s.socks, m, k, c.(phase := phase), sock);
  }

  lemma StoppedAdvanceDescends(s: State, k: nat, st: Spawn.Step)
    requires Inv(s) && Next(s, Advance(k, st)).Some? && Spawn.ByChild(st) && Inv(Next(s, Advance(k, st)).value)
    ensures TotalLeft(Next(s, Advance(k, st)).value) < TotalLeft(s)
  {
    Advanced(s, k, st);
    ConnAt(s, k);
    var sp, m := Spawn.Next(s.conns[k].spawn, st).value, Lefts(s.config);
    var c, sock := s.conns[k].(spawn := sp), s.socks[k].(closes := Consumed(sp));
    AdvanceDescends(s.config, s.conns[k], s.socks[k], st);
    TotalUpdate(s.conns, s.socks, m, k, c, sock);
  }

  /**
   Once serve has returned, no run goes on for ever: at most as many steps follow as the connections
   have left between them, whatever the interleaving.
   */
  lemma {:induction false} StoppedRunsEnd(run: Run, config: Config, i: nat, j: nat)
    requires IsRun(run, config) && i <= j < |run.states| && run.states[i].main.Stopped?
    ensures run.states[j].main.Stopped?
    ensures |run.states[i].conns| == |run.states[i].socks| && |run.states[j].conns| == |run.states[j].socks|
    ensures (j - i) + TotalLeft(run.states[j]) <= TotalLeft(run.states[i])
    decreases j - i
  {
    if i < j {
      StoppedRunsEnd(run, config, i, j - 1);
      StoppedRunNext(run, config, j - 1);
    } else {
      Reachable(run, config, i);
    }
  }

  lemma StoppedRunNext(run: Run, config: Config, i: nat)
    requires IsRun(run, config) && i < |run.steps| && run.states[i].main.Stopped?
    ensures var s, t := run.states[i], run.states[i + 1];
            && t.main.Stopped? && |s.conns| == |s.socks| && |t.conns| == |t.socks|
            && TotalLeft(t) < TotalLeft(s)
  {
    Reachable(run, config, i);
    assert Next(run.states[i], run.steps[i]) == Some(run.states[i + 1]);
    StoppedStays(run.states[i], run.steps[i]);
    StoppedDescends(run.states[i], run.steps[i]);
  }

  /**
   After serve has returned, the threads that are left run to their end: a state in which no
   connection can move any more is quiescent, so nothing is open in it.
   */
  lemma StoppedRunsOut(run: Run, config: Config, i: nat)
    requires IsRun(run, config) && i < |run.states| && run.states[i].main.Stopped?
    requires forall k :: Next(run.states[i], Work(k)).None?
    requires forall k, st :: Next(run.states[i], Advance(k, st)).None?
    ensures Quiescent(run.states[i]) && run.states[i].table == map[]
  {
    Reachable(run, config, i);
    var s := run.states[i];
    forall k | 0 <= k < |s.conns|
      ensures Spawn.Quiescent(s.conns[k].spawn)
    {
      ConnAt(s, k);
      if !Spawn.Quiescent(s.conns[k].spawn) {
        ThreadMoves(s, k);
      }
    }
    NothingLeaks(run, config, i);
  }

  lemma ThreadCanMove(sp: Spawn.State)
    requires Spawn.Inv(sp) && SpawnerDone(sp) && !Spawn.Quiescent(sp)
    ensures var st := Spawn.SomeStep(sp);
            Spawn.ByChild(st) && Spawn.Next(sp, st).Some? && (st.RunClosure? ==> sp.child.Running?)
  {
  }

  lemma ThreadMoves(s: State, k: nat)
    requires k < |s.conns| && Spawn.Inv(s.conns[k].spawn)
    requires SpawnerDone(s.conns[k].spawn) && !Spawn.Quiescent(s.conns[k].spawn)
    ensures Next(s, Work(k)).Some? || exists st :: Next(s, Advance(k, st)).Some?
  {
    ThreadCanMove(s.conns[k].spawn);
    var st := Spawn.SomeStep(s.conns[k].spawn);
    if st.RunClosure? && !s.conns[k].phase.Returning? {
      CanWork(s, k);
    } else {
      CanAdvance(s, k, st);
    }
  }

  lemma CanWork(s: State, k: nat)
    requires k < |s.conns| && s.conns[k].spawn.child.Running? && !s.conns[k].phase.Returning?
    ensures Next(s, Work(k)).Some?
  {
  }
}
