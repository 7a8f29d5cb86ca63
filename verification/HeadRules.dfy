/** Exactly which request heads are accepted, line by line, and which error the others get. */
module HeadRules {
  import opened Errors
  import opened Octets
  import opened HttpMessage
  import opened HttpReader

  /** Every line after the request line is empty or has a colon. */
  predicate ColonInEach(lines: seq<Bytes>) {
    forall i :: 1 <= i < |lines| && lines[i] != [] ==> ':' in lines[i]
  }

  /** The line is a header with this name. */
  predicate Named(line: Bytes, f: Bytes -> Option<Header>, name: Bytes) {
    f(line).Some? && EqIgnoreCase(f(line).value.name, name)
  }

  /** Line `i` is the first header with this name. */
  predicate FirstNamed(lines: seq<Bytes>, f: Bytes -> Option<Header>, name: Bytes, i: int) {
    0 <= i < |lines| && Named(lines[i], f, name) && forall j :: 0 <= j < i ==> !Named(lines[j], f, name)
  }

  /** The first header of this name, if there is one, does not announce more than `max`. */
  predicate LengthAllowed(lines: seq<Bytes>, f: Bytes -> Option<Header>, name: Bytes, max: nat) {
    forall i :: 0 <= i < |lines| && FirstNamed(lines, f, name, i) ==> LengthIn(f(lines[i]).value.value) <= max
  }

  lemma ColonFound(line: Bytes)
    ensures HeaderOf(line).Some? <==> ':' in line
  {
    FindIsFirst(line, ":", Find(line, ":"));
    forall i: nat | i < |line|
      ensures At(line, ":", i) <==> line[i] == ':'
    {
      assert line[i..i + 1] == [line[i]];
    }
  }

  /** A header line is cut at its first colon, and both parts are trimmed; blanks around the colon are optional. */
  lemma HeaderCut(name: Bytes, value: Bytes)
    requires ':' !in name
    ensures HeaderOf(name + ":" + value) == Some(Header(Trim(name), Trim(value)))
  {
    var line := name + ":" + value;
    forall i: nat | i <= |name|
      ensures At(line, ":", i) <==> i == |name|
    {
      assert line[i..i + 1] == [line[i]];
    }
    FindIsFirst(line, ":", Some(|name|));
    assert line[..|name|] == name && line[|name| + 1..] == value;
  }

  /** A name is reserved exactly when it spells one of the two, in any mixture of cases. */
  lemma ReservedExact(name: Bytes, length: Bytes, close: Bytes)
    requires length == "Content-Length" && close == "Connection"
    ensures Reserved(name) <==> EqIgnoreCase(name, length) || EqIgnoreCase(name, close)
    ensures Reserved("CONTENT-LENGTH") && Reserved("connection")
  {
    LowerSpelling(length, "content-length");
    LowerSpelling(close, "connection");
    SameFold(name, length, "content-length");
    SameFold(name, close, "connection");
  }

  lemma LowerSpelling(name: Bytes, lower: Bytes)
    requires (name == "Content-Length" && lower == "content-length") || (name == "Connection" && lower == "connection")
    ensures EqIgnoreCase(name, lower)
  {
  }

  lemma SameFold(name: Bytes, a: Bytes, b: Bytes)
    requires EqIgnoreCase(a, b)
    ensures EqIgnoreCase(name, a) <==> EqIgnoreCase(name, b)
  {
  }

  lemma ColonsGather(lines: seq<Bytes>)
    requires lines != []
    ensures Gather(lines[1..], HeaderOf).Some? <==> ColonInEach(lines)
  {
    GatherAccepts(lines[1..], HeaderOf);
    forall line: Bytes {
      ColonFound(line);
    }
    if Gather(lines[1..], HeaderOf).Some? {
      assert forall i :: 1 <= i < |lines| ==> lines[i] == lines[1..][i - 1];
    }
  }

  /** `r` is the value of the first line with this name, or there is none. */
  ghost predicate LooksUp(lines: seq<Bytes>, f: Bytes -> Option<Header>, name: Bytes, r: Option<Bytes>) {
    && (r.None? ==> forall i :: 0 <= i < |lines| ==> !Named(lines[i], f, name))
    && (r.Some? ==> exists i :: FirstNamed(lines, f, name, i) && f(lines[i]).value.value == r.value)
  }

  lemma LooksUpSnoc(lines: seq<Bytes>, line: Bytes, f: Bytes -> Option<Header>, name: Bytes, r: Option<Bytes>)
    requires LooksUp(lines, f, name, r)
    ensures LooksUp(lines + [line], f, name,
                    if r.None? && Named(line, f, name) then Some(f(line).value.value) else r)
  {
    var all := lines + [line];
    assert all[|lines|] == line && forall i :: 0 <= i < |lines| ==> all[i] == lines[i];
    if r.Some? {
      var i :| FirstNamed(lines, f, name, i) && f(lines[i]).value.value == r.value;
      assert FirstNamed(all, f, name, i);
    } else if Named(line, f, name) {
      assert FirstNamed(all, f, name, |lines|);
    }
  }

  lemma LookupSnoc(headers: seq<Header>, h: Header, name: Bytes)
    ensures Lookup(headers + [h], name)
            == if Lookup(headers, name).Some? then Lookup(headers, name)
               else if EqIgnoreCase(h.name, name) then Some(h.value) else None
  {
    assert (headers + [h])[..|headers|] == headers;
  }

  /** Looking a name up in the parsed headers finds the first line that bears it. */
  lemma {:induction false} LookupIsFirst(
      lines: seq<Bytes>, f: Bytes -> Option<Header>, name: Bytes, headers: seq<Header>)
    requires Gather(lines, f) == Some(headers) && f([]).None?
    ensures LooksUp(lines, f, name, Lookup(headers, name))
  {
    if lines != [] {
      var front, line := lines[..|lines| - 1], lines[|lines| - 1];
      var done := Gather(front, f).value;
      LookupIsFirst(front, f, name, done);
      LooksUpSnoc(front, line, f, name, Lookup(done, name));
      assert lines == front + [line];
      if line != [] {
        LookupSnoc(done, f(line).value, name);
      }
    }
  }

  lemma LengthOfFirst(
      lines: seq<Bytes>, f: Bytes -> Option<Header>, name: Bytes, headers: seq<Header>, max: nat)
    requires Gather(lines, f) == Some(headers) && f([]).None?
    ensures LengthAllowed(lines, f, name, max)
            <==> (Lookup(headers, name).Some? ==> LengthIn(Lookup(headers, name).value) <= max)
  {
    LookupIsFirst(lines, f, name, headers);
    if Lookup(headers, name).Some? {
      var i :| FirstNamed(lines, f, name, i) && f(lines[i]).value.value == Lookup(headers, name).value;
      forall j | FirstNamed(lines, f, name, j)
        ensures j == i
      {
      }
    }
  }

  /** The announced length of a head's lines is within `max`. */
  predicate SaneLength(lines: seq<Bytes>, max: nat)
    requires lines != []
  {
    LengthAllowed(lines[1..], HeaderOf, "content-length", max)
  }

  lemma SaneLengthExact(lines: seq<Bytes>, headers: seq<Header>, max: nat)
    requires lines != [] && Gather(lines[1..], HeaderOf) == Some(headers)
    ensures SaneLength(lines, max) <==> ContentLength(headers) <= max
  {
    ColonFound([]);
    LengthOfFirst(lines[1..], HeaderOf, "content-length", headers, max);
  }

  /**
   A request head is accepted exactly when it is UTF-8, its first line has three words, every later
   non-empty line has a colon and the first Content-Length is within the limit; otherwise the first
   of these that fails is the error.
   */
  lemma HeadVerdict(head: Bytes, maxBody: nat)
    ensures var lines := Split(head, CRLF);
            var words := |Split(lines[0], " ")|;
            var v := Judge(head, maxBody);
            && (v.Ok? <==> ValidUtf8(head) && words >= 3 && ColonInEach(lines) && SaneLength(lines, maxBody))
            && (v.Err? ==> v.error == if !ValidUtf8(head) then BAD_UTF8
                                      else if words < 2 then NO_TARGET
                                      else if words < 3 then NO_VERSION
                                      else if !ColonInEach(lines) then BAD_HEADER
                                      else BODY_LIMIT)
  {
    var lines := Split(head, CRLF);
    ColonsGather(lines);
    if Gather(lines[1..], HeaderOf).Some? {
      SaneLengthExact(lines, Gather(lines[1..], HeaderOf).value, maxBody);
    }
  }
}
