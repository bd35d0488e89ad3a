/** Reading one request off a stream, however its bytes arrive. */
module HttpRead {
  import opened Basics
  import opened Bytes
  import opened HttpHeaders

  const MAX_HEAD_LEN: nat := 16 * 1024
  const READ_CHUNK_LEN: nat := 4096
  const HEAD_END_LEN: nat := 4

  /** How one read of the stream goes: at most so many bytes, a signal, a timeout, or a failure. */
  datatype Arrival = Delivers(most: pos) | Interrupted | TimedOut | Broken

  predicate Calm(plan: seq<Arrival>) {
    forall i :: 0 <= i < |plan| ==> plan[i].Delivers? || plan[i].Interrupted?
  }

  datatype Request<R> = Request(line: R, headers: seq<Header>, body: seq<byte>)

  datatype Head<R> = Head(line: R, headers: seq<Header>)

  /** The bytes a peer sends before it closes, and how the reads of them go. Past the plan every read
      delivers what was asked for. */
  class Stream {
    var unread: seq<byte>
    var plan: seq<Arrival>
    /** Whether a reply can be written. */
    const writable: bool

    constructor (sent: seq<byte>, plan: seq<Arrival>, writable: bool)
      ensures unread == sent && this.plan == plan && this.writable == writable
    {
      unread, this.plan, this.writable := sent, plan, writable;
    }

    /** One read: the next event of the schedule decides what it brings, never past `limit`. */
    method ReadSome(buf: seq<byte>, limit: nat) returns (refused: Option<Refusal>, more: seq<byte>)
      requires |buf| < limit
      modifies this
      ensures more + unread == buf + old(unread) && buf <= more && |more| <= limit
      ensures plan == if old(plan) == [] then [] else old(plan)[1..]
      ensures refused == Some(Closed) && Calm(old(plan)) ==> old(unread) == [] && more == buf
      ensures refused.Some? ==> refused.value == Closed || (refused.value == Status(408) && !Calm(old(plan)))
      ensures refused.None? ==> |unread| + |plan| < old(|unread| + |plan|)
    {
      var arrival := if plan == [] then Delivers(READ_CHUNK_LEN) else plan[0];
      plan := if plan == [] then [] else plan[1..];
      more := buf;
      match arrival {
        case TimedOut => refused := Some(Status(408));
        case Broken => refused := Some(Closed);
        case Interrupted => refused := None;
        case Delivers(most) =>
          var n := Min(Min(Min(limit - |buf|, READ_CHUNK_LEN), most), |unread|);
          if n == 0 {
            refused := Some(Closed);
          } else {
            refused, more, unread := None, buf + unread[..n], unread[n..];
          }
      }
    }
  }

  // ---- Finding the end of the head ----

  /** A blank line ends the headers at `i`. */
  predicate EndsAt(s: seq<byte>, i: nat) {
    i + HEAD_END_LEN <= |s| && s[i] == 13 && s[i + 1] == 10 && s[i + 2] == 13 && s[i + 3] == 10
  }

  lemma EndsAtIff(s: seq<byte>, i: nat)
    ensures EndsAt(s, i) <==> i + 4 <= |s| && s[i..i + 4] == [13, 10, 13, 10]
  {
  }

  function Find(s: seq<byte>, from: nat): (at: Option<nat>)
    ensures at.Some? ==> from <= at.value && EndsAt(s, at.value)
    ensures forall i :: from <= i && (at.Some? ==> i < at.value) ==> !EndsAt(s, i)
    decreases |s| - from
  {
    if from + HEAD_END_LEN > |s| then None else if EndsAt(s, from) then Some(from) else Find(s, from + 1)
  }

  ghost predicate NoEnd(s: seq<byte>) { forall i: nat :: !EndsAt(s, i) }

  /** A search that resumes three bytes before the end of what was searched misses nothing. */
  lemma ResumedSearchFindsTheFirst(searched: seq<byte>, s: seq<byte>)
    requires searched <= s && NoEnd(searched)
    ensures Find(s, Sub(|searched|, HEAD_END_LEN - 1)) == Find(s, 0)
  {
    var from := Sub(|searched|, HEAD_END_LEN - 1);
    forall i: nat | i < from
      ensures !EndsAt(s, i)
    {
      assert !EndsAt(searched, i);
    }
  }

  lemma FirstOfPrefix(prefix: seq<byte>, s: seq<byte>)
    requires prefix <= s && Find(prefix, 0).Some?
    ensures Find(s, 0) == Find(prefix, 0)
  {
    var at := Find(prefix, 0).value;
    assert EndsAt(s, at);
    forall i: nat | i < at
      ensures !EndsAt(s, i)
    {
      assert !EndsAt(prefix, i);
    }
  }

  // ---- The whole stream at once ----

  /** What a reader that had all of `input` at once would make of it. */
  ghost function OneShot<R>(input: seq<byte>, parse: seq<byte> -> Result<Head<R>>, maxBody: nat): Result<Request<R>> {
    var head := input[..Min(|input|, MAX_HEAD_LEN)];
    match Find(head, 0)
    case None => Err(if |input| >= MAX_HEAD_LEN then Status(431) else Closed)
    case Some(at) =>
      match parse(input[..at])
      case Err(refusal) => Err(refusal)
      case Ok(parsed) =>
        match BodyLength(parsed.headers, maxBody)
        case Err(refusal) => Err(refusal)
        case Ok(length) =>
          var rest := input[at + HEAD_END_LEN..];
          if |rest| < length then Err(Closed) else Ok(Request(parsed.line, parsed.headers, rest[..length]))
  }

  predicate ExpectsContinue(headers: seq<Header>) {
    exists i :: 0 <= i < |headers| && SameName(headers[i].name, "Expect") && SameName(headers[i].value, "100-continue")
  }

  /** Reads up to the end of the head. */
  method ReadHead(stream: Stream) returns (refused: Option<Refusal>, buf: seq<byte>, at: nat)
    modifies stream
    ensures refused.None? ==> buf + stream.unread == old(stream.unread) && |buf| <= MAX_HEAD_LEN
    ensures refused.None? ==> Find(buf, 0) == Some(at) && at + HEAD_END_LEN <= |buf|
    ensures refused.Some? ==>
              || (refused.value == (if old(|stream.unread|) >= MAX_HEAD_LEN then Status(431) else Closed)
                  && NoEnd(old(stream.unread)[..Min(old(|stream.unread|), MAX_HEAD_LEN)]))
              || (!Calm(old(stream.plan)) && refused.value in {Closed, Status(408)})
    ensures Calm(old(stream.plan)) ==> Calm(stream.plan)
  {
    ghost var input := stream.unread;
    buf, at := [], 0;
    while true
      invariant buf + stream.unread == input && |buf| <= MAX_HEAD_LEN && NoEnd(buf)
      invariant Calm(old(stream.plan)) ==> Calm(stream.plan)
      decreases |stream.unread| + |stream.plan|
    {
      var searchedTo := Sub(|buf|, HEAD_END_LEN - 1);
      if |buf| >= MAX_HEAD_LEN {
        assert input[..MAX_HEAD_LEN] == buf;
        return Some(Status(431)), buf, 0;
      }
      ghost var before, plan := buf, stream.plan;
      refused, buf := stream.ReadSome(buf, MAX_HEAD_LEN);
      if refused.Some? {
        if refused.value == Closed && Calm(plan) {
          assert input == buf;
          assert input[..|input|] == buf;
        }
        return refused, buf, 0;
      }
      ResumedSearchFindsTheFirst(before, buf);
      var found := Find(buf, searchedTo);
      if found.Some? {
        return None, buf, found.value;
      }
    }
  }

  lemma NoEndInNoHead(s: seq<byte>)
    requires NoEnd(s)
    ensures Find(s, 0).None?
  {
  }

  /** What is read once the head is known. */
  lemma HeadOfTheWhole(buf: seq<byte>, unread: seq<byte>, at: nat)
    requires |buf| <= MAX_HEAD_LEN && Find(buf, 0) == Some(at)
    ensures var input := buf + unread;
            && Find(input[..Min(|input|, MAX_HEAD_LEN)], 0) == Some(at)
            && input[..at] == buf[..at]
            && input[at + HEAD_END_LEN..] == buf[at + HEAD_END_LEN..] + unread
  {
    var input := buf + unread;
    FirstOfPrefix(buf, input[..Min(|input|, MAX_HEAD_LEN)]);
  }

  /** Reads the rest of a body of `length` bytes. */
  method ReadBody(stream: Stream, start: seq<byte>, length: nat) returns (refused: Option<Refusal>, body: seq<byte>)
    requires |start| <= length
    modifies stream
    ensures refused.None? ==>
              length <= |start + old(stream.unread)| && body == (start + old(stream.unread))[..length]
    ensures refused.Some? ==>
              || (refused.value == Closed && |start + old(stream.unread)| < length)
              || (!Calm(old(stream.plan)) && refused.value in {Closed, Status(408)})
  {
    ghost var whole := start + stream.unread;
    body, refused := start, None;
    while |body| < length
      invariant body + stream.unread == whole && |body| <= length
      invariant Calm(old(stream.plan)) ==> Calm(stream.plan)
      decreases |stream.unread| + |stream.plan|
    {
      refused, body := stream.ReadSome(body, length);
      if refused.Some? {
        return;
      }
    }
    return None, body;
  }

  /** One request. Reads that neither fail nor time out give exactly what the whole stream gives at
      once, whatever pieces it arrives in; and a failure or a timeout can only turn that into a
      closed connection or a 408, never into another request or another refusal. */
  method ReadRequest<R>(stream: Stream, parse: seq<byte> -> Result<Head<R>>, maxBody: nat) returns (r: Result<Request<R>>)
    modifies stream
    ensures r == OneShot(old(stream.unread), parse, maxBody)
            || ((!Calm(old(stream.plan)) || !stream.writable) && r in {Err(Closed), Err(Status(408))})
  {
    hide Find, EndsAt, BodyLength, NoEnd;
    ghost var input := stream.unread;
    var refused, buf, at := ReadHead(stream);
    if refused.Some? {
      if NoEnd(input[..Min(|input|, MAX_HEAD_LEN)]) {
        NoEndInNoHead(input[..Min(|input|, MAX_HEAD_LEN)]);
      }
      return Err(refused.value);
    }
    HeadOfTheWhole(buf, stream.unread, at);
    var head := parse(buf[..at]);
    if head.Err? {
      return Err(head.refusal);
    }
    var length := ContentLength(head.value.headers, maxBody);
    if length.Err? {
      return Err(length.refusal);
    }
    var body := buf[at + HEAD_END_LEN..];
    ghost var rest := body + stream.unread;
    assert rest == input[at + HEAD_END_LEN..];
    if |body| >= length.value {
      body := body[..length.value];
      assert body == rest[..length.value];
    } else {
      if ExpectsContinue(head.value.headers) && !stream.writable {
        return Err(Closed);
      }
      refused, body := ReadBody(stream, body, length.value);
      if refused.Some? {
        return Err(refused.value);
      }
    }
    return Ok(Request(head.value.line, head.value.headers, body));
  }
}
