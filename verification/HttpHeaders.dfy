/** What a request's headers say of its body. */
module HttpHeaders {
  import opened Basics
  import opened Decimals

  const U64_MAX: nat := 0xFFFF_FFFF_FFFF_FFFF

  /** What stands in place of a request: silence, or a status to answer with. */
  datatype Refusal = Closed | Status(code: nat)

  datatype Result<T> = Ok(value: T) | Err(refusal: Refusal)

  datatype Header = Header(name: string, value: string)

  function Lower(c: char): char {
    if 'A' <= c <= 'Z' then (c as int - 'A' as int + 'a' as int) as char else c
  }

  predicate SameName(a: string, b: string) {
    |a| == |b| && forall i :: 0 <= i < |a| ==> Lower(a[i]) == Lower(b[i])
  }

  /** The two cases of one letter. */
  predicate CasesOfOne(upper: char, lower: char) {
    'A' <= upper <= 'Z' && lower as int == upper as int + 32
  }

  /** Names are the same, character by character, but for the case of letters. */
  lemma SameNameIff(a: string, b: string)
    ensures SameName(a, b) <==>
      |a| == |b| && forall i :: 0 <= i < |a| ==> a[i] == b[i] || CasesOfOne(a[i], b[i]) || CasesOfOne(b[i], a[i])
  {
    if |a| == |b| {
      forall i | 0 <= i < |a|
        ensures Lower(a[i]) == Lower(b[i]) <==> a[i] == b[i] || CasesOfOne(a[i], b[i]) || CasesOfOne(b[i], a[i])
      {
        LowerAlike(a[i], b[i]);
      }
    }
  }

  lemma LowerAlike(c: char, d: char)
    ensures Lower(c) == Lower(d) <==> c == d || CasesOfOne(c, d) || CasesOfOne(d, c)
  {
  }

  predicate Named(headers: seq<Header>, name: string) {
    exists i :: 0 <= i < |headers| && SameName(headers[i].name, name)
  }

  predicate IsNumber(v: string) { v != "" && AreDigits(v) }

  /** As 64 bits hold it: a number too long for them is the largest there is. */
  function Parsed(v: string): nat
    requires IsNumber(v)
  {
    Min(Number(v), U64_MAX)
  }

  /** The Content-Length values are numbers, all the same one. */
  predicate AllGive(headers: seq<Header>, n: nat) {
    forall i :: 0 <= i < |headers| && SameName(headers[i].name, "Content-Length") ==>
      IsNumber(headers[i].value) && Parsed(headers[i].value) == n
  }

  /** The body length section 6.3 of RFC 9112 gives: that of Content-Length, however often the same
      one is repeated, and none without; no other framing is taken. */
  ghost function BodyLength(headers: seq<Header>, maxBody: nat): Result<nat> {
    if Named(headers, "Transfer-Encoding") then Err(Status(501))
    else if !Named(headers, "Content-Length") then Ok(0)
    else if exists n: nat :: AllGive(headers, n) then
      var n: nat :| AllGive(headers, n);
      if n <= maxBody then Ok(n) else Err(Status(413))
    else Err(Status(400))
  }

  /** A request is accepted with a body of `n` bytes exactly when no other framing is given, every
      Content-Length writes `n`, and `n` is allowed; limits below the largest 64-bit number only. */
  lemma AcceptedBodies(headers: seq<Header>, maxBody: nat, n: nat)
    requires maxBody < U64_MAX
    ensures BodyLength(headers, maxBody) == Ok(n) <==>
              && !Named(headers, "Transfer-Encoding") && n <= maxBody
              && (!Named(headers, "Content-Length") ==> n == 0)
              && forall i :: 0 <= i < |headers| && SameName(headers[i].name, "Content-Length") ==>
                   headers[i].value != "" && AreDigits(headers[i].value) && Number(headers[i].value) == n
  {
    hide Number, SameName, AreDigits;
    if Named(headers, "Content-Length") && AllGive(headers, n) {
      OnlyOneLength(headers, n);
    }
    if BodyLength(headers, maxBody) == Ok(n) && Named(headers, "Content-Length") {
      var m: nat :| AllGive(headers, m);
      OnlyOneLength(headers, m);
    }
  }

  method ContentLength(headers: seq<Header>, maxBody: nat) returns (r: Result<nat>)
    ensures r == BodyLength(headers, maxBody)
  {
    for i := 0 to |headers|
      invariant !Named(headers[..i], "Transfer-Encoding")
    {
      if SameName(headers[i].name, "Transfer-Encoding") {
        return Err(Status(501));
      }
      assert headers[..i + 1] == headers[..i] + [headers[i]];
    }
    assert headers[..|headers|] == headers;
    var length: Option<nat> := None;
    for i := 0 to |headers|
      invariant length.None? ==> !Named(headers[..i], "Content-Length")
      invariant length.Some? ==> Named(headers[..i], "Content-Length") && AllGive(headers[..i], length.value)
    {
      assert headers[..i + 1] == headers[..i] + [headers[i]];
      if SameName(headers[i].name, "Content-Length") {
        var value := headers[i].value;
        if !IsNumber(value) {
          return Err(Status(400));
        }
        if length.Some? && length.value != Parsed(value) {
          Conflict(headers, i, length.value);
          return Err(Status(400));
        }
        length := Some(Parsed(value));
      }
    }
    var n := if length.Some? then length.value else 0;
    if length.Some? {
      OnlyOneLength(headers, n);
    }
    return if n > maxBody then Err(Status(413)) else Ok(n);
  }

  lemma OnlyOneLength(headers: seq<Header>, n: nat)
    requires AllGive(headers, n) && Named(headers, "Content-Length")
    ensures forall m: nat :: AllGive(headers, m) ==> m == n
  {
  }

  lemma Conflict(headers: seq<Header>, i: nat, n: nat)
    requires i < |headers| && SameName(headers[i].name, "Content-Length") && IsNumber(headers[i].value)
    requires Named(headers[..i], "Content-Length") && AllGive(headers[..i], n) && Parsed(headers[i].value) != n
    ensures forall m: nat :: !AllGive(headers, m)
  {
    var k :| 0 <= k < i && SameName(headers[..i][k].name, "Content-Length");
    assert headers[..i][k] == headers[k];
  }
}
