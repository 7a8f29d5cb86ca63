/** Iterating over a directory stream that reports its end and its errors through the same null. */
module Directory {
  import opened Errors
  import opened Octets

  /** A raw directory entry: the name array and the length the kernel claims for it. */
  datatype Dirent = Dirent(raw: Bytes, namlen: nat)

  /** One answer of readdir: an entry (errno may change to anything), or null with an errno. */
  datatype Answer = Entry(ent: Dirent, noise: int) | Fault(errno: int)

  /** The name: the claimed length, clamped to the array, up to the first NUL. */
  function Name(ent: Dirent): Bytes {
    var max := if ent.namlen < |ent.raw| then ent.namlen else |ent.raw|;
    var end := Find(ent.raw[..max], "\0");
    if end.None? then ent.raw[..max] else ent.raw[..end.value]
  }

  /** A name never reads past the claimed length or the array, and stops exactly at the first NUL. */
  lemma NameExact(ent: Dirent)
    ensures Name(ent) <= ent.raw && |Name(ent)| <= ent.namlen && Find(Name(ent), "\0").None?
    ensures |Name(ent)| < ent.namlen && |Name(ent)| < |ent.raw| ==> ent.raw[|Name(ent)|] == '\0'
  {
    var max := if ent.namlen < |ent.raw| then ent.namlen else |ent.raw|;
    var bytes := ent.raw[..max];
    if Find(bytes, "\0").Some? {
      CutBefore(bytes, "\0");
      assert bytes[..Find(bytes, "\0").value] == ent.raw[..Find(bytes, "\0").value];
    }
  }

  predicate IsDot(name: Bytes) {
    name == "." || name == ".."
  }

  /** The names skipped are those of one or two dots, and no other name that starts with a dot. */
  lemma DotExact(name: Bytes)
    ensures IsDot(name) <==> 1 <= |name| <= 2 && forall i :: 0 <= i < |name| ==> name[i] == '.'
  {
    if 1 <= |name| <= 2 && forall i :: 0 <= i < |name| ==> name[i] == '.' {
      assert name == if |name| == 1 then "." else "..";
    }
  }

  /** What the program sees of one answer: nothing for "." and "..", else a name or an error. */
  function Seen(a: Answer): seq<Result<Bytes>> {
    match a
    case Fault(e) => [Err(Os(e))]
    case Entry(ent, _) => if IsDot(Name(ent)) then [] else [Ok(Name(ent))]
  }

  /** What `f` makes of the answers, in order. */
  function Flat<T>(pending: seq<Answer>, f: Answer -> seq<T>): seq<T> {
    if pending == [] then [] else f(pending[0]) + Flat(pending[1..], f)
  }

  function AllSeen(pending: seq<Answer>): seq<Result<Bytes>> {
    Flat(pending, Seen)
  }

  /** A null with errno 0 is the end of the stream, so no fault carries it. */
  predicate TrueFaults(pending: seq<Answer>) {
    forall i :: 0 <= i < |pending| && pending[i].Fault? ==> pending[i].errno != 0
  }

  /** The errno an answer leaves behind. */
  function AfterRead(a: Answer): int {
    match a case Fault(e) => e case Entry(_, noise) => noise
  }

  /** One call of `next`, with errno as it finds it, and cleared or not before each readdir. */
  function NextResult(clear: bool, pending: seq<Answer>, errno: int): Option<Result<Bytes>> {
    if pending == [] then
      var left := if clear then 0 else errno;
      if left == 0 then None else Some(Err(Os(left)))
    else match pending[0]
      case Fault(e) => if e == 0 then None else Some(Err(Os(e)))
      case Entry(ent, noise) =>
        if IsDot(Name(ent)) then NextResult(clear, pending[1..], noise) else Some(Ok(Name(ent)))
  }

  class ReadDir {
    var pending: seq<Answer>  // what readdir will answer, null with errno untouched afterwards
    var errno: int            // the thread's errno

    constructor (pending: seq<Answer>, errno: int)
      ensures this.pending == pending && this.errno == errno
    {
      this.pending, this.errno := pending, errno;
    }

    /** readdir(3) */
    method ReadEntry() returns (ent: Option<Dirent>)
      requires TrueFaults(pending)
      modifies this
      ensures TrueFaults(pending)
      ensures old(pending) == [] ==> ent == None && pending == [] && errno == old(errno)
      ensures old(pending) != [] ==> pending == old(pending)[1..]
      ensures old(pending) != [] ==>
                match old(pending)[0]
                case Fault(e) => ent == None && errno == e
                case Entry(d, noise) => ent == Some(d) && errno == noise
    {
      if pending == [] {
        return None;
      }
      var a := pending[0];
      pending := pending[1..];
      match a
      case Fault(e) =>
        errno := e;
        return None;
      case Entry(d, noise) =>
        errno := noise;
        return Some(d);
    }

    /**
     The next name or error, `None` at the end; what it returns does not depend on the errno left
     by earlier calls. The inner loop ends because every entry skipped is consumed.
     */
    method Next() returns (r: Option<Result<Bytes>>)
      requires TrueFaults(pending)
      modifies this
      ensures TrueFaults(pending)
      ensures r == NextResult(true, old(pending), old(errno))
      ensures r.None? ==> AllSeen(old(pending)) == [] && pending == []
      ensures r.Some? ==> AllSeen(old(pending)) == [r.value] + AllSeen(pending) && |pending| < |old(pending)|
    {
      while true
        invariant TrueFaults(pending) && |pending| <= |old(pending)|
        invariant AllSeen(pending) == AllSeen(old(pending))
        invariant NextResult(true, pending, errno) == NextResult(true, old(pending), old(errno))
        decreases |pending|
      {
        errno := 0;
        ghost var before := pending;
        var ent := ReadEntry();
        if ent.None? {
          if errno == 0 {
            return None;
          }
          return Some(Err(Os(errno)));
        }
        var name := Name(ent.value);
        if IsDot(name) {
          assert Seen(before[0]) == [];
          continue;
        }
        return Some(Ok(name));
      }
    }

    /** Call `Next` until it returns `None`. */
    method Drain() returns (all: seq<Result<Bytes>>)
      requires TrueFaults(pending)
      modifies this
      ensures all == AllSeen(old(pending)) && pending == []
    {
      all := [];
      while true
        invariant TrueFaults(pending)
        invariant all + AllSeen(pending) == AllSeen(old(pending))
        decreases |pending|
      {
        var r := Next();
        if r.None? {
          return all;
        }
        all := all + [r.value];
      }
    }
  }

  /** The name an answer contributes, if it is an entry other than "." and "..". */
  function RealName(a: Answer): seq<Bytes> {
    if a.Fault? || IsDot(Name(a.ent)) then [] else [Name(a.ent)]
  }

  function Names(pending: seq<Answer>): seq<Bytes> {
    Flat(pending, RealName)
  }

  function Oks(names: seq<Bytes>): (r: seq<Result<Bytes>>)
    ensures |r| == |names| && forall i :: 0 <= i < |r| ==> r[i] == Ok(names[i])
  {
    if names == [] then [] else Oks(names[..|names| - 1]) + [Ok(names[|names| - 1])]
  }

  lemma SeenIsRealName(a: Answer)
    requires a.Entry?
    ensures Seen(a) == Oks(RealName(a))
  {
  }

  lemma OksConcat(a: seq<Bytes>, b: seq<Bytes>)
    ensures Oks(a + b) == Oks(a) + Oks(b)
  {
  }

  lemma {:induction false} FlatOks(pending: seq<Answer>, f: Answer -> seq<Result<Bytes>>, g: Answer -> seq<Bytes>)
    requires forall i :: 0 <= i < |pending| ==> f(pending[i]) == Oks(g(pending[i]))
    ensures Flat(pending, f) == Oks(Flat(pending, g))
  {
    if pending != [] {
      FlatOks(pending[1..], f, g);
      OksConcat(g(pending[0]), Flat(pending[1..], g));
    }
  }

  lemma {:induction false} FlatAll(pending: seq<Answer>, g: Answer -> seq<Bytes>, p: Bytes -> bool)
    requires forall i, n :: 0 <= i < |pending| && n in g(pending[i]) ==> p(n)
    ensures forall n :: n in Flat(pending, g) ==> p(n)
  {
    if pending != [] {
      FlatAll(pending[1..], g, p);
    }
  }

  /** On an error-free stream the iteration yields exactly the real entries, in order. */
  lemma ErrorFreeListing(pending: seq<Answer>)
    requires forall i :: 0 <= i < |pending| ==> pending[i].Entry?
    ensures AllSeen(pending) == Oks(Names(pending))
    ensures forall n :: n in Names(pending) ==> !IsDot(n)
  {
    forall i | 0 <= i < |pending|
      ensures Seen(pending[i]) == Oks(RealName(pending[i]))
    {
      SeenIsRealName(pending[i]);
    }
    FlatOks(pending, Seen, RealName);
    FlatAll(pending, RealName, n => !IsDot(n));
  }

  /** No error is reported unless readdir failed. */
  lemma {:induction false} ErrorsAreFaults(pending: seq<Answer>, e: int)
    ensures Err(Os(e)) in AllSeen(pending) <==> Fault(e) in pending
  {
    if pending != [] {
      ErrorsAreFaults(pending[1..], e);
      assert pending == [pending[0]] + pending[1..];
    }
  }

  /**
   Clearing errno before each readdir makes the result independent of what was left there: it is the
   next thing to be seen, or the end exactly when nothing is.
   */
  lemma {:induction false} NoStaleError(pending: seq<Answer>, errno: int)
    requires TrueFaults(pending)
    ensures NextResult(true, pending, errno)
            == if AllSeen(pending) == [] then None else Some(AllSeen(pending)[0])
  {
    if pending != [] {
      NoStaleError(pending[1..], AfterRead(pending[0]));
    }
  }

  /**
   Without clearing it, the end of a directory would be taken for an error exactly when errno is not
   0 by then: when the last answer skipped, or the call before, left something there.
   */
  lemma {:induction false} StaleErrorWithoutClearing(pending: seq<Answer>, errno: int)
    requires TrueFaults(pending) && AllSeen(pending) == []
    ensures var last := if pending == [] then errno else AfterRead(pending[|pending| - 1]);
            NextResult(false, pending, errno) == if last == 0 then None else Some(Err(Os(last)))
  {
    if pending != [] {
      StaleErrorWithoutClearing(pending[1..], AfterRead(pending[0]));
    }
  }
}
