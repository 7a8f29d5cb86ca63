/** Whole-file reads and writes over a file system whose transfers may be short or fail at any call. */
module Files {
  import opened Errors
  import opened Octets

  const CHUNK := 8192

  /** What the kernel does with one call: move at most so many bytes, or fail. */
  datatype Io = Moves(count: nat) | Fails(errno: int)

  const NO_PROGRESS := InvalidInput("write returned zero (failed to write whole buffer)")
  const ENOENT := 2

  function Min(a: nat, b: nat): nat {
    if a < b then a else b
  }

  /** `content` after writing `data` at `offset`. */
  function Overwrite(content: Bytes, offset: nat, data: Bytes): (r: Bytes)
    requires offset <= |content|
    ensures |r| == if offset + |data| <= |content| then |content| else offset + |data|
  {
    content[..offset] + data + (if offset + |data| <= |content| then content[offset + |data|..] else [])
  }

  /** A write replaces the bytes it covers, extends the file if it must, and leaves the others alone. */
  lemma OverwriteExact(content: Bytes, offset: nat, data: Bytes, i: nat)
    requires offset <= |content| && i < |Overwrite(content, offset, data)|
    ensures Overwrite(content, offset, data)[i]
            == if offset <= i < offset + |data| then data[i - offset] else content[i]
  {
  }

  lemma FreshContents(data: Bytes, n: nat)
    requires n <= |data|
    ensures Overwrite([], 0, data[..n]) == data[..n] && data[..|data|] == data
  {
  }

  /** Writing in two parts is writing at once. */
  lemma OverwriteTwice(content: Bytes, offset: nat, a: Bytes, b: Bytes)
    requires offset <= |content|
    ensures Overwrite(Overwrite(content, offset, a), offset + |a|, b) == Overwrite(content, offset, a + b)
  {
    var mid := Overwrite(content, offset, a);
    assert mid[..offset + |a|] == content[..offset] + a;
    assert content[..offset] + a + b == content[..offset] + (a + b);
    if offset + |a| + |b| <= |content| {
      assert mid[offset + |a| + |b|..] == content[offset + |a| + |b|..];
    }
  }

  // ----- what the loops do under a schedule

  /** Bytes written by one `write_all`, its outcome, and the unused answers. */
  datatype WriteRun = WriteRun(count: nat, result: Result<()>, rest: seq<Io>)

  function WriteLoop(len: nat, plan: seq<Io>): WriteRun
    decreases len
  {
    if len == 0 then WriteRun(0, Ok(()), plan)
    else if plan == [] then WriteRun(len, Ok(()), [])
    else match plan[0]
      case Fails(e) => WriteRun(0, Err(Os(e)), plan[1..])
      case Moves(n) =>
        var k := Min(n, len);
        if k == 0 then WriteRun(0, Err(NO_PROGRESS), plan[1..])
        else var w := WriteLoop(len - k, plan[1..]); w.(count := k + w.count)
  }

  /** The answer ends a write loop with this error. */
  predicate Stops(a: Io, e: Error) {
    match a
    case Fails(errno) => e == Os(errno)
    case Moves(n) => n == 0 && e == NO_PROGRESS
  }

  /** Answer `i` is the first that is not progress, and accounts for the error. */
  predicate StoppedAt(plan: seq<Io>, i: nat, e: Error) {
    i < |plan| && Stops(plan[i], e) && forall j :: 0 <= j < i ==> plan[j].Moves? && plan[j].count > 0
  }

  /** `write_all` succeeds exactly when it has written everything, and never writes more. */
  lemma {:induction false} WriteLoopCount(len: nat, plan: seq<Io>)
    ensures WriteLoop(len, plan).count <= len
    ensures WriteLoop(len, plan).result.Ok? <==> WriteLoop(len, plan).count == len
    decreases len
  {
    if len > 0 && plan != [] && plan[0].Moves? && plan[0].count > 0 {
      WriteLoopCount(len - Min(plan[0].count, len), plan[1..]);
    }
  }

  /** It fails only for the first answer that is an error, EINTR included, or no progress. */
  lemma {:induction false} WriteLoopStops(len: nat, plan: seq<Io>) returns (i: nat)
    requires WriteLoop(len, plan).result.Err?
    ensures StoppedAt(plan, i, WriteLoop(len, plan).result.error)
    decreases len
  {
    var a, rest := plan[0], plan[1..];
    if a.Moves? && a.count > 0 {
      i := WriteLoopStops(len - Min(a.count, len), rest);
      i := i + 1;
      assert plan[i] == rest[i - 1];
      assert forall j :: 0 < j < i ==> plan[j] == rest[j - 1];
    } else {
      i := 0;
    }
  }

  /** Sum of what a run of answers would move. */
  function Moved(plan: seq<Io>): nat {
    if plan == [] then 0
    else Moved(plan[..|plan| - 1]) + match plan[|plan| - 1] case Moves(n) => n case Fails(_) => 0
  }

  lemma {:induction false} MovedFront(a: Io, plan: seq<Io>)
    ensures Moved([a] + plan) == Moved(plan) + match a case Moves(n) => n case Fails(_) => 0
  {
    if plan == [] {
      assert ([a] + plan)[..0] == [];
    } else {
      var m := |plan| - 1;
      MovedFront(a, plan[..m]);
      assert ([a] + plan)[..|plan|] == [a] + plan[..m];
    }
  }

  /**
   The outcome is decided by the first answer that is an error, EINTR included, or moves nothing: if
   the answers before it cover the buffer the write succeeds, otherwise it fails there for that reason,
   having written exactly what they cover.
   */
  lemma {:induction false} WriteLoopOutcome(len: nat, plan: seq<Io>, k: nat)
    requires k <= |plan| && forall i :: 0 <= i < k ==> plan[i].Moves? && plan[i].count > 0
    requires k < |plan| ==> plan[k].Fails? || plan[k].count == 0
    ensures var w := WriteLoop(len, plan);
            && (w.result.Ok? <==> k == |plan| || Moved(plan[..k]) >= len)
            && (w.result.Err? ==> w.count == Moved(plan[..k]) < len && w.rest == plan[k + 1..]
                                  && Stops(plan[k], w.result.error))
    decreases len
  {
    if len > 0 && k > 0 {
      var rest := plan[1..];
      assert plan[..k] == [plan[0]] + rest[..k - 1];
      MovedFront(plan[0], rest[..k - 1]);
      WriteLoopOutcome(len - Min(plan[0].count, len), rest, k - 1);
      assert k < |plan| ==> rest[k..] == plan[k + 1..];
    }
  }

  /** What a write loop leaves of the plan. */
  lemma {:induction false} WriteLoopRest(len: nat, plan: seq<Io>)
    ensures LeftOf(WriteLoop(len, plan).rest, plan)
    decreases len
  {
    if len > 0 && plan != [] && plan[0].Moves? && plan[0].count > 0 {
      var k := Min(plan[0].count, len);
      WriteLoopRest(len - k, plan[1..]);
      LeftOfTail(WriteLoop(len - k, plan[1..]).rest, plan);
    }
  }

  lemma LeftOfTail(rest: seq<Io>, plan: seq<Io>)
    requires plan != [] && LeftOf(rest, plan[1..])
    ensures LeftOf(rest, plan)
  {
  }

  /** The next answer; past the end of the schedule the kernel does what it is asked. */
  function First(plan: seq<Io>): Io {
    if plan == [] then Moves(0) else plan[0]
  }

  function After(plan: seq<Io>): seq<Io> {
    if plan == [] then [] else plan[1..]
  }

  predicate AllMove(plan: seq<Io>) {
    forall i :: 0 <= i < |plan| ==> plan[i].Moves?
  }

  /** `rest` is what is left of the plan. */
  predicate LeftOf(rest: seq<Io>, plan: seq<Io>) {
    |rest| <= |plan| && rest == plan[|plan| - |rest|..]
  }

  /** The answers used up so far. */
  function Used(rest: seq<Io>, plan: seq<Io>): seq<Io>
    requires LeftOf(rest, plan)
  {
    plan[..|plan| - |rest|]
  }

  /** No answer used so far is a failure. */
  predicate Unfailed(rest: seq<Io>, plan: seq<Io>) {
    LeftOf(rest, plan) && AllMove(Used(rest, plan))
  }

  /** The last answer used is the first failure, and the error is its errno. */
  predicate FailedLast(rest: seq<Io>, plan: seq<Io>, e: Error) {
    && LeftOf(rest, plan)
    && var used := Used(rest, plan);
       && used != [] && AllMove(used[..|used| - 1])
       && used[|used| - 1].Fails? && e == Os(used[|used| - 1].errno)
  }

  lemma FailureInPlan(rest: seq<Io>, plan: seq<Io>, all: seq<Io>, e: Error)
    requires FailedLast(rest, plan, e) && plan == After(all)
    ensures e.Os? && Fails(e.errno) in all
  {
    var k := |plan| - |rest| - 1;
    assert plan[k] == Used(rest, plan)[k] && all[k + 1] == plan[k];
  }

  lemma UseOne(plan: seq<Io>, rest: seq<Io>)
    requires Unfailed(rest, plan)
    ensures First(rest).Moves? ==> Unfailed(After(rest), plan)
    ensures First(rest).Fails? ==> FailedLast(After(rest), plan, Os(First(rest).errno))
  {
    if rest != [] {
      assert Used(After(rest), plan) == Used(rest, plan) + [rest[0]];
    } else {
      assert Used(After(rest), plan) == Used(rest, plan);
    }
  }

  // ----- the file system

  /** An open file: what it is a description of, and where it stands. */
  datatype Desc = Desc(path: Bytes, offset: nat)

  lemma Appended(start: Bytes, content: Bytes, at: nat, m: nat, n: nat)
    requires at + m + n <= |content|
    ensures start + content[at..at + m] + content[at + m..at + m + n] == start + content[at..at + m + n]
  {
  }

  lemma Taken(done: Bytes, buf: Bytes, n: nat)
    requires n <= |buf|
    ensures done + buf == done + buf[..n] + buf[n..]
  {
  }

  lemma UpdatedTwice<K, V>(m: map<K, V>, k: K, v: V, w: V)
    ensures m[k := v][k := w] == m[k := w]
  {
  }

  /** File contents by path, and the table of open descriptors. */
  datatype Disk = Disk(files: map<Bytes, Bytes>, open: map<nat, Desc>) {
    /** Every open descriptor stands inside its file. */
    predicate Sound() {
      forall fd :: fd in open ==> open[fd].path in files && open[fd].offset <= |files[open[fd].path]|
    }

    predicate Unopened(path: Bytes) {
      forall fd :: fd in open ==> open[fd].path != path
    }

    function Content(fd: nat): Bytes
      requires Sound() && fd in open
    {
      files[open[fd].path]
    }

    /** After writing `data` through `fd`. */
    function Write(fd: nat, data: Bytes): (d: Disk)
      requires Sound() && fd in open
      ensures d.Sound() && d.open.Keys == open.Keys
    {
      var at := open[fd];
      Disk(files[at.path := Overwrite(files[at.path], at.offset, data)], open[fd := Desc(at.path, at.offset + |data|)])
    }

    /** After reading `n` bytes through `fd`. */
    function Skip(fd: nat, n: nat): (d: Disk)
      requires Sound() && fd in open && open[fd].offset + n <= |Content(fd)|
      ensures d.Sound() && fd in d.open && d.Content(fd) == Content(fd)
    {
      Disk(files, open[fd := Desc(open[fd].path, open[fd].offset + n)])
    }

    lemma WriteTwice(fd: nat, a: Bytes, b: Bytes)
      requires Sound() && fd in open
      ensures Write(fd, a).Write(fd, b) == Write(fd, a + b)
    {
      var at := open[fd];
      var once, whole := Overwrite(files[at.path], at.offset, a), Overwrite(files[at.path], at.offset, a + b);
      OverwriteTwice(files[at.path], at.offset, a, b);
      UpdatedTwice(files, at.path, once, whole);
      UpdatedTwice(open, fd, Desc(at.path, at.offset + |a|), Desc(at.path, at.offset + |a| + |b|));
    }

    lemma SkipTwice(fd: nat, m: nat, n: nat)
      requires Sound() && fd in open && open[fd].offset + m + n <= |Content(fd)|
      ensures Skip(fd, m).Skip(fd, n) == Skip(fd, m + n)
    {
      assert Skip(fd, m).Skip(fd, n).open == Skip(fd, m + n).open;
    }

    lemma SkipNothing(fd: nat)
      requires Sound() && fd in open
      ensures Skip(fd, 0) == this
    {
      assert Skip(fd, 0).open == open;
    }

    lemma WriteNothing(fd: nat)
      requires Sound() && fd in open
      ensures Write(fd, []) == this
    {
      var at := open[fd];
      assert Overwrite(files[at.path], at.offset, []) == files[at.path];
      assert Write(fd, []).files == files && Write(fd, []).open == open;
    }
  }

  class FileSystem {
    var disk: Disk
    var nextFd: nat
    var plan: seq<Io>

    ghost predicate Valid()
      reads this
    {
      disk.Sound() && forall fd :: fd in disk.open ==> fd < nextFd
    }

    constructor (files: map<Bytes, Bytes>, plan: seq<Io>)
      ensures Valid() && disk == Disk(files, map[]) && this.plan == plan
    {
      this.disk, this.nextFd, this.plan := Disk(files, map[]), 0, plan;
    }

    method Answer(wish: nat) returns (a: Io)
      modifies this`plan
      ensures a == if old(plan) == [] then Moves(wish) else old(plan)[0]
      ensures plan == if old(plan) == [] then [] else old(plan)[1..]
    {
      if plan == [] {
        return Moves(wish);
      }
      a, plan := plan[0], plan[1..];
    }

    /** open(2): for reading the file must exist, for writing it is created and truncated. */
    method Open(path: Bytes, create: bool) returns (r: Result<nat>)
      requires Valid() && disk.Unopened(path)
      modifies this
      ensures Valid()
      ensures plan == After(old(plan))
      ensures match First(old(plan))
              case Fails(e) => r == Err(Os(e))
              case Moves(_) => if create || path in old(disk).files then r.Ok? else r == Err(Os(ENOENT))
      ensures r.Err? ==> disk == old(disk)
      ensures r.Ok? ==> r.value !in old(disk).open && path in disk.files
      ensures r.Ok? ==> disk == Disk(if create then old(disk).files[path := []] else old(disk).files,
                                     old(disk).open[r.value := Desc(path, 0)])
    {
      var a := Answer(0);
      if a.Fails? {
        return Err(Os(a.errno));
      }
      if !create && path !in disk.files {
        return Err(Os(ENOENT));
      }
      disk := Disk(if create then disk.files[path := []] else disk.files, disk.open[nextFd := Desc(path, 0)]);
      r := Ok(nextFd);
      nextFd := nextFd + 1;
    }

    method Close(fd: nat)
      requires Valid() && fd in disk.open
      modifies this`disk
      ensures Valid() && disk == Disk(old(disk).files, old(disk).open - {fd})
    {
      disk := Disk(disk.files, disk.open - {fd});
    }

    /** write(2): some prefix of the buffer goes to the file offset. */
    method Write(fd: nat, buf: Bytes) returns (r: Result<nat>)
      requires Valid() && fd in disk.open
      modifies this`disk, this`plan
      ensures Valid()
      ensures var a := if old(plan) == [] then Moves(|buf|) else old(plan)[0];
              r == match a case Fails(e) => Err(Os(e)) case Moves(n) => Ok(Min(n, |buf|))
      ensures plan == if old(plan) == [] then [] else old(plan)[1..]
      ensures disk == if r.Ok? then old(disk).Write(fd, buf[..r.value]) else old(disk)
    {
      var a := Answer(|buf|);
      match a
      case Fails(e) =>
        return Err(Os(e));
      case Moves(n) =>
        var k := Min(n, |buf|);
        disk := disk.Write(fd, buf[..k]);
        return Ok(k);
    }

    /** read(2): at least one byte unless at the end of the file. */
    method Read(fd: nat, size: nat) returns (r: Result<Bytes>)
      requires Valid() && fd in disk.open && size > 0
      modifies this`disk, this`plan
      ensures Valid() && fd in disk.open
      ensures plan == After(old(plan))
      ensures if First(old(plan)).Fails? then r == Err(Os(First(old(plan)).errno)) else r.Ok?
      ensures r.Err? ==> disk == old(disk)
      ensures r.Ok? ==> var at, content := old(disk).open[fd].offset, old(disk).Content(fd);
                        && |r.value| <= size && at + |r.value| <= |content|
                        && r.value == content[at..at + |r.value|]
                        && disk == old(disk).Skip(fd, |r.value|)
                        && (r.value == [] <==> at == |content|)
    {
      var a := Answer(size);
      match a
      case Fails(e) =>
        return Err(Os(e));
      case Moves(n) =>
        var at, content := disk.open[fd].offset, disk.Content(fd);
        var available := Min(size, |content| - at);
        var k := if available == 0 then 0 else if n == 0 then 1 else Min(n, available);
        disk := disk.Skip(fd, k);
        return Ok(content[at..at + k]);
    }

    // ----- File

    /** Write the entire buffer at the file offset; EINTR is an error like any other. */
    method WriteAll(fd: nat, buffer: Bytes) returns (r: Result<()>)
      requires Valid() && fd in disk.open
      modifies this`disk, this`plan
      ensures Valid()
      ensures var w := WriteLoop(|buffer|, old(plan));
              && w.count <= |buffer| && r == w.result && plan == w.rest
              && disk == old(disk).Write(fd, buffer[..w.count])
    {
      ghost var start, run := disk, WriteLoop(|buffer|, plan);
      WriteLoopCount(|buffer|, plan);
      start.WriteNothing(fd);
      ghost var done: Bytes := [];
      var buf := buffer;
      while buf != []
        invariant Valid()
        invariant done + buf == buffer
        invariant disk == start.Write(fd, done)
        invariant var w := WriteLoop(|buf|, plan); run == w.(count := |done| + w.count)
        decreases |buf|
      {
        var w := WriteMore(fd, buf, start, done);
        match w
        case Err(e) =>
          return Err(e);
        case Ok(n) =>
          if n == 0 {
            assert done + buf[..0] == done;
            return Err(NO_PROGRESS);
          }
          Taken(done, buf, n);
          done := done + buf[..n];
          buf := buf[n..];
      }
      return Ok(());
    }

    /** One more write after `done` has been written. */
    method WriteMore(fd: nat, buf: Bytes, ghost start: Disk, ghost done: Bytes) returns (r: Result<nat>)
      requires Valid() && start.Sound() && fd in start.open && disk == start.Write(fd, done)
      modifies this`disk, this`plan
      ensures Valid()
      ensures var a := if old(plan) == [] then Moves(|buf|) else old(plan)[0];
              r == match a case Fails(e) => Err(Os(e)) case Moves(n) => Ok(Min(n, |buf|))
      ensures plan == if old(plan) == [] then [] else old(plan)[1..]
      ensures disk == start.Write(fd, if r.Ok? then done + buf[..r.value] else done)
    {
      r := Write(fd, buf);
      if r.Ok? {
        start.WriteTwice(fd, done, buf[..r.value]);
      }
    }

    /** One more read after `got` bytes have been read. */
    method ReadMore(fd: nat, ghost first: Disk, ghost got: nat, ghost whole: seq<Io>) returns (r: Result<Bytes>)
      requires Unfailed(plan, whole)
      requires Valid() && first.Sound() && fd in first.open
      requires first.open[fd].offset + got <= |first.Content(fd)| && disk == first.Skip(fd, got)
      modifies this`disk, this`plan
      ensures Valid()
      ensures if r.Ok? then Unfailed(plan, whole) else FailedLast(plan, whole, r.error)
      ensures r.Err? ==> disk == first.Skip(fd, got)
      ensures r.Ok? ==> var at, content := first.open[fd].offset + got, first.Content(fd);
                        && at + |r.value| <= |content| && r.value == content[at..at + |r.value|]
                        && disk == first.Skip(fd, got + |r.value|)
                        && (r.value == [] <==> at == |content|)
    {
      UseOne(whole, plan);
      r := Read(fd, CHUNK);
      if r.Ok? {
        first.SkipTwice(fd, got, |r.value|);
      }
    }

    /** Append everything from the file offset on to `start`; return it and the number appended. */
    method ReadToEnd(fd: nat, start: Bytes) returns (buf: Bytes, r: Result<nat>)
      requires Valid() && fd in disk.open
      modifies this`disk, this`plan
      ensures Valid() && |start| <= |buf|
      ensures var at, content := old(disk).open[fd].offset, old(disk).Content(fd);
              && at + (|buf| - |start|) <= |content|
              && buf == start + content[at..at + (|buf| - |start|)]
              && disk == old(disk).Skip(fd, |buf| - |start|)
              && (r.Ok? ==> r.value == |buf| - |start| == |content| - at)
      ensures if r.Ok? then Unfailed(plan, old(plan)) else FailedLast(plan, old(plan), r.error)
    {
      ghost var first, at, content := disk, disk.open[fd].offset, disk.Content(fd);
      buf := start;
      ghost var got := 0;
      first.SkipNothing(fd);
      while true
        invariant Valid() && at + got <= |content|
        invariant disk == first.Skip(fd, got)
        invariant buf == start + content[at..at + got]
        invariant Unfailed(plan, old(plan))
        decreases |content| - at - got
      {
        var chunk := ReadMore(fd, first, got, old(plan));
        match chunk
        case Err(e) =>
          return buf, Err(e);
        case Ok(bytes) =>
          if bytes == [] {
            return buf, Ok(|buf| - |start|);
          }
          Appended(start, content, at, got, |bytes|);
          buf := buf + bytes;
          got := got + |bytes|;
      }
    }
  }

  // ----- whole files

  /**
   Create or truncate the file and write `contents`. When the file cannot be opened everything stays
   as it was; once it is open the old contents are gone, and a failure leaves what was written.
   */
  method WriteFile(fs: FileSystem, path: Bytes, contents: Bytes) returns (r: Result<()>)
    requires fs.Valid() && fs.disk.Unopened(path)
    modifies fs
    ensures fs.Valid() && fs.disk.open == old(fs.disk).open
    ensures !CString(path) ==> r == Err(BAD_STRING) && fs.disk.files == old(fs.disk).files
    ensures CString(path) ==>
              match First(old(fs.plan))
              case Fails(e) => r == Err(Os(e)) && fs.disk.files == old(fs.disk).files
              case Moves(_) =>
                var w := WriteLoop(|contents|, After(old(fs.plan)));
                && r == w.result && w.count <= |contents| && (r.Ok? <==> w.count == |contents|)
                && fs.disk.files == old(fs.disk).files[path := contents[..w.count]] && fs.plan == w.rest
    ensures r.Ok? ==> fs.disk.files == old(fs.disk).files[path := contents]
  {
    if !CString(path) {
      return Err(BAD_STRING);
    }
    var file := fs.Open(path, true);
    if file.Err? {
      return Err(file.error);
    }
    WriteLoopCount(|contents|, fs.plan);
    ghost var m := WriteLoop(|contents|, fs.plan).count;
    r := fs.WriteAll(file.value, contents);
    FreshContents(contents, m);
    fs.Close(file.value);
    assert fs.disk.open == old(fs.disk).open;
  }

  /** Read a whole file. */
  method ReadFile(fs: FileSystem, path: Bytes) returns (r: Result<Bytes>)
    requires fs.Valid() && fs.disk.Unopened(path)
    modifies fs
    ensures fs.Valid() && fs.disk == old(fs.disk)
    ensures !CString(path) ==> r == Err(BAD_STRING)
    ensures r.Ok? ==> path in fs.disk.files && r.value == fs.disk.files[path]
    ensures r.Err? && CString(path) ==>
              if First(old(fs.plan)).Moves? && path !in old(fs.disk).files then r.error == Os(ENOENT)
              else r.error.Os? && Fails(r.error.errno) in old(fs.plan)
  {
    if !CString(path) {
      return Err(BAD_STRING);
    }
    var file := fs.Open(path, false);
    if file.Err? {
      return Err(file.error);
    }
    ghost var rest := fs.plan;
    var buf, n := fs.ReadToEnd(file.value, []);
    fs.Close(file.value);
    assert fs.disk.open == old(fs.disk).open;
    match n
    case Err(e) =>
      FailureInPlan(fs.plan, rest, old(fs.plan), e);
      return Err(e);
    case Ok(_) =>
      return Ok(buf);
  }

  /**
   The round trip through a file: a successful write followed by a successful read gives the
   contents back, whatever short transfers happened; after a write that failed, unless the file
   could not be opened, a successful read gives a proper prefix.
   */
  method WriteThenRead(fs: FileSystem, path: Bytes, contents: Bytes) returns (w: Result<()>, r: Result<Bytes>)
    requires fs.Valid() && fs.disk.Unopened(path)
    modifies fs
    ensures fs.Valid() && fs.disk.open == old(fs.disk).open
    ensures w.Ok? && r.Ok? ==> r.value == contents
    ensures CString(path) && AllProgress(old(fs.plan)) ==> w.Ok? && r == Ok(contents)
    ensures w.Err? && r.Ok? && (path !in old(fs.disk).files || First(old(fs.plan)).Moves?) ==>
              r.value <= contents && r.value != contents
    ensures forall p :: p != path && p in old(fs.disk).files ==>
              p in fs.disk.files && fs.disk.files[p] == old(fs.disk).files[p]
  {
    w := WriteFile(fs, path, contents);
    if AllProgress(old(fs.plan)) {
      var rest := After(old(fs.plan));
      WriteLoopOutcome(|contents|, rest, |rest|);
      WriteLoopRest(|contents|, rest);
    }
    r := ReadFile(fs, path);
  }

  /** No call fails, and none moves nothing. */
  predicate AllProgress(plan: seq<Io>) {
    forall i :: 0 <= i < |plan| ==> plan[i].Moves? && plan[i].count > 0
  }
}
