/** Hiding the password of a URL, and putting it back. */
module UrlRedaction {
  import opened Basics

  const REDACTED_PASSWORD: string := "***"

  /** The first `c` of a part of `s`. */
  function First(s: string, c: char, lo: nat, hi: nat): (at: Option<nat>)
    requires lo <= hi <= |s|
    ensures at.Some? ==> lo <= at.value < hi && s[at.value] == c
    ensures forall i :: lo <= i < (if at.Some? then at.value else hi) ==> s[i] != c
    decreases hi - lo
  {
    if lo == hi then None else if s[lo] == c then Some(lo) else First(s, c, lo + 1, hi)
  }

  /** The last `c` of a part of `s`. */
  function Last(s: string, c: char, lo: nat, hi: nat): (at: Option<nat>)
    requires lo <= hi <= |s|
    ensures at.Some? ==> lo <= at.value < hi && s[at.value] == c
    ensures forall i :: (if at.Some? then at.value + 1 else lo) <= i < hi ==> s[i] != c
  {
    if lo == hi then None else if s[hi - 1] == c then Some(hi - 1) else Last(s, c, lo, hi - 1)
  }

  predicate SchemeAt(s: string, i: nat) { i + 3 <= |s| && s[i] == ':' && s[i + 1] == '/' && s[i + 2] == '/' }

  lemma SchemeAtIff(s: string, i: nat)
    ensures SchemeAt(s, i) <==> i + 3 <= |s| && s[i..i + 3] == "://"
  {
  }

  /** Where the authority starts: after the first "://", or at the front. */
  function AuthorityFrom(s: string, i: nat): (at: nat)
    requires i <= |s|
    ensures at <= |s|
    ensures at > 0 ==> at >= i + 3 && SchemeAt(s, at - 3) && forall j :: i <= j < at - 3 ==> !SchemeAt(s, j)
    ensures at == 0 ==> forall j :: i <= j ==> !SchemeAt(s, j)
    decreases |s| - i
  {
    if i == |s| then 0 else if SchemeAt(s, i) then i + 3 else AuthorityFrom(s, i + 1)
  }

  datatype Span = Span(start: nat, end: nat)

  /** Where the authority ends: before the first slash of it. */
  function AuthorityTo(url: string): (hi: nat)
    ensures AuthorityFrom(url, 0) <= hi <= |url|
  {
    var slash := First(url, '/', AuthorityFrom(url, 0), |url|);
    if slash.Some? then slash.value else |url|
  }

  /** The password of `user:password@`, if there is one and it is not empty: the credentials end at
      the last '@' of the authority, the user at their first ':'. */
  function PasswordSpan(url: string): (span: Option<Span>)
    ensures span.Some? ==> span.value.start < span.value.end < |url|
  {
    var lo := AuthorityFrom(url, 0);
    var at := Last(url, '@', lo, AuthorityTo(url));
    if at.None? then None
    else
      var colon := First(url, ':', lo, at.value);
      if colon.None? || colon.value + 1 == at.value then None
      else Some(Span(colon.value + 1, at.value))
  }

  function Password(url: string): string
    requires PasswordSpan(url).Some?
  {
    url[PasswordSpan(url).value.start..PasswordSpan(url).value.end]
  }

  /** `url` with another password. */
  function WithPassword(url: string, password: string): string
    requires PasswordSpan(url).Some?
  {
    url[..PasswordSpan(url).value.start] + password + url[PasswordSpan(url).value.end..]
  }

  function RedactUrl(url: string): string {
    if PasswordSpan(url).None? then url else WithPassword(url, REDACTED_PASSWORD)
  }

  function RestoreRedactedPassword(edited: string, original: string): string {
    if PasswordSpan(edited).None? || PasswordSpan(original).None? || Password(edited) != REDACTED_PASSWORD then edited
    else WithPassword(edited, Password(original))
  }

  // ---- Where the password is, whatever it is ----

  lemma FirstIs(s: string, c: char, lo: nat, hi: nat, at: nat)
    requires lo <= at < hi <= |s| && s[at] == c && forall i :: lo <= i < at ==> s[i] != c
    ensures First(s, c, lo, hi) == Some(at)
  {
    hide First;
  }

  lemma LastIs(s: string, c: char, lo: nat, hi: nat, at: nat)
    requires lo <= at < hi <= |s| && s[at] == c && forall i :: at < i < hi ==> s[i] != c
    ensures Last(s, c, lo, hi) == Some(at)
  {
    hide Last;
  }

  lemma AuthorityIs(s: string, at: nat)
    requires at <= |s|
    requires if at == 0 then forall j: nat :: !SchemeAt(s, j)
             else at >= 3 && SchemeAt(s, at - 3) && forall j: nat :: j < at - 3 ==> !SchemeAt(s, j)
    ensures AuthorityFrom(s, 0) == at
  {
    hide AuthorityFrom;
  }

  /** No password holds a slash. */
  lemma PasswordsHoldNoSlash(url: string)
    requires PasswordSpan(url).Some?
    ensures Password(url) != "" && '/' !in Password(url)
  {
    hide First, Last, AuthorityFrom;
  }

  /** `changed` is `url` with its characters from `start` to `end` replaced by `password`. */
  predicate IsReplaced(url: string, changed: string, start: nat, end: nat, password: string) {
    && start <= end <= |url| && |changed| == |url| - (end - start) + |password|
    && (forall i :: 0 <= i < start ==> changed[i] == url[i])
    && (forall i :: start <= i < start + |password| ==> changed[i] == password[i - start])
    && (forall i :: start + |password| <= i < |changed| ==> changed[i] == url[i - |password| + (end - start)])
  }

  lemma PasswordReplaced(url: string, password: string)
    requires PasswordSpan(url).Some?
    ensures IsReplaced(url, WithPassword(url, password), PasswordSpan(url).value.start, PasswordSpan(url).value.end, password)
  {
    hide PasswordSpan;
  }

  /** What `PasswordSpan` found. */
  predicate IsSpan(url: string, lo: nat, hi: nat, span: Span) {
    && lo < span.start < span.end < hi <= |url|
    && url[span.start - 1] == ':' && url[span.end] == '@'
    && (forall i :: lo <= i < span.start - 1 ==> url[i] != ':')
    && (forall i :: span.end < i < hi ==> url[i] != '@')
    && (forall i :: lo <= i < hi ==> url[i] != '/')
    && (hi < |url| ==> url[hi] == '/')
  }

  lemma SpanFound(url: string)
    requires PasswordSpan(url).Some?
    ensures IsSpan(url, AuthorityFrom(url, 0), AuthorityTo(url), PasswordSpan(url).value)
  {
    hide First, Last, AuthorityFrom;
  }

  lemma SpanIs(url: string, lo: nat, hi: nat, span: Span)
    requires AuthorityFrom(url, 0) == lo && IsSpan(url, lo, hi, span)
    ensures PasswordSpan(url) == Some(span)
  {
    hide First, Last, AuthorityFrom;
    if hi < |url| {
      FirstIs(url, '/', lo, |url|, hi);
    }
    LastIs(url, '@', lo, hi, span.end);
    FirstIs(url, ':', lo, span.end, span.start - 1);
  }

  lemma SameAuthority(url: string, changed: string, password: string, hi: nat, span: Span)
    requires IsSpan(url, AuthorityFrom(url, 0), hi, span) && '/' !in password
    requires IsReplaced(url, changed, span.start, span.end, password)
    ensures AuthorityFrom(changed, 0) == AuthorityFrom(url, 0)
  {
    hide AuthorityFrom;
    var lo := AuthorityFrom(url, 0);
    var shift := |password| - (span.end - span.start);
    assert changed[span.start + |password|] == '@';
    forall j: nat | j < (if lo == 0 then |changed| else lo - 3)
      ensures !SchemeAt(changed, j)
    {
      if j + 2 < span.start {
        assert !SchemeAt(url, j);
      } else if j >= span.start + |password| {
        assert !SchemeAt(url, j - shift);
      }
    }
    AuthorityIs(changed, lo);
  }

  lemma SpanMoves(url: string, changed: string, password: string, lo: nat, hi: nat, span: Span)
    requires IsSpan(url, lo, hi, span) && password != "" && '/' !in password
    requires IsReplaced(url, changed, span.start, span.end, password)
    ensures var shift := |password| - (span.end - span.start);
            hi + shift >= 0 && IsSpan(changed, lo, hi + shift, Span(span.start, span.start + |password|))
  {
    var shift := |password| - (span.end - span.start);
    forall i | lo <= i < hi + shift
      ensures changed[i] != '/'
    {
    }
    forall i | span.start + |password| < i < hi + shift
      ensures changed[i] != '@'
    {
      assert changed[i] == url[i - shift];
    }
  }

  /** Another password takes the place of the first, wherever its characters are. */
  lemma SpanOfReplaced(url: string, password: string)
    requires PasswordSpan(url).Some? && password != "" && '/' !in password
    ensures PasswordSpan(WithPassword(url, password)) ==
              Some(Span(PasswordSpan(url).value.start, PasswordSpan(url).value.start + |password|))
  {
    hide PasswordSpan, WithPassword, AuthorityFrom, AuthorityTo, IsSpan, IsReplaced;
    var span, changed := PasswordSpan(url).value, WithPassword(url, password);
    var lo, hi := AuthorityFrom(url, 0), AuthorityTo(url);
    SpanFound(url);
    PasswordReplaced(url, password);
    SameAuthority(url, changed, password, hi, span);
    SpanMoves(url, changed, password, lo, hi, span);
    SpanIs(changed, lo, hi + |password| - (span.end - span.start), Span(span.start, span.start + |password|));
  }

  lemma ReplacedTwice(url: string, password: string, again: string)
    requires PasswordSpan(url).Some? && password != "" && '/' !in password
    ensures PasswordSpan(WithPassword(url, password)).Some?
    ensures Password(WithPassword(url, password)) == password
    ensures WithPassword(WithPassword(url, password), again) == WithPassword(url, again)
  {
    hide PasswordSpan;
    SpanOfReplaced(url, password);
  }

  // ---- What is promised ----

  /** What is shown does not depend on the password. */
  lemma RedactionHidesThePassword(url: string, password: string)
    requires PasswordSpan(url).Some? && password != "" && '/' !in password
    ensures RedactUrl(WithPassword(url, password)) == RedactUrl(url)
  {
    hide PasswordSpan, WithPassword;
    ReplacedTwice(url, password, REDACTED_PASSWORD);
  }

  /** Restoring a redacted URL from the original gives the original back. */
  lemma RestoringGivesTheOriginal(url: string)
    ensures RestoreRedactedPassword(RedactUrl(url), url) == url
  {
    hide PasswordSpan;
    if PasswordSpan(url).Some? {
      ReplacedTwice(url, REDACTED_PASSWORD, Password(url));
      assert WithPassword(url, Password(url)) == url;
    }
  }

  /** An edit made to the redacted form, restored, carries the original's password, and redacted once
      more is the edit again. */
  lemma EditingKeepsThePassword(edited: string, original: string)
    requires PasswordSpan(edited).Some? && PasswordSpan(original).Some? && Password(edited) == REDACTED_PASSWORD
    ensures var restored := RestoreRedactedPassword(edited, original);
            PasswordSpan(restored).Some? && Password(restored) == Password(original) && RedactUrl(restored) == edited
  {
    hide PasswordSpan;
    PasswordsHoldNoSlash(original);
    ReplacedTwice(edited, Password(original), REDACTED_PASSWORD);
    assert WithPassword(edited, Password(edited)) == edited;
  }
}
