/** Redaction of credentials in connection strings. */
module Redact {
  import opened Wrappers
  import opened Chars

  const REDACTED: string := "***"

  // ---------------------------------------------------------------- searching

  /** The first `c`. */
  function Find(s: string, c: char): (r: Option<nat>)
    ensures r.Some? ==> r.value < |s| && s[r.value] == c && forall i | 0 <= i < r.value :: s[i] != c
    ensures r.None? ==> forall i | 0 <= i < |s| :: s[i] != c
  {
    if s == [] then None
    else if s[0] == c then Some(0)
    else match Find(s[1..], c) case None => None case Some(i) => Some(i + 1)
  }

  /** The last `c`. */
  function FindLast(s: string, c: char): (r: Option<nat>)
    ensures r.Some? ==> r.value < |s| && s[r.value] == c && forall i | r.value < i < |s| :: s[i] != c
    ensures r.None? ==> forall i | 0 <= i < |s| :: s[i] != c
  {
    if s == [] then None
    else if s[|s| - 1] == c then Some(|s| - 1)
    else FindLast(s[..|s| - 1], c)
  }

  /** `://` at position `i`. */
  predicate SepAt(s: string, i: int) {
    0 <= i && i + 3 <= |s| && s[i] == ':' && s[i + 1] == '/' && s[i + 2] == '/'
  }

  /** The first `://`. */
  function FindSep(s: string): (r: Option<nat>)
    ensures r.Some? ==> SepAt(s, r.value) && forall i | 0 <= i < r.value :: !SepAt(s, i)
    ensures r.None? ==> forall i :: !SepAt(s, i)
  {
    if |s| < 3 then None
    else if SepAt(s, 0) then Some(0)
    else
      assert forall i {:trigger SepAt(s, i)} :: SepAt(s, i) && i > 0 ==> SepAt(s[1..], i - 1);
      assert forall i {:trigger SepAt(s[1..], i)} :: SepAt(s[1..], i) ==> SepAt(s, i + 1);
      match FindSep(s[1..]) case None => None case Some(i) => Some(i + 1)
  }

  // ---------------------------------------------------------------- redaction

  function LowerChar(c: char): char { if 'A' <= c <= 'Z' then (c as int + 32) as char else c }

  /** The parameter's key is `password=`, in any case. */
  predicate IsPassword(param: string) {
    && |param| >= 9
    && forall i | 0 <= i < 9 :: LowerChar(param[i]) == "password="[i]
  }

  function RedactParam(param: string): string {
    if IsPassword(param) then param[..9] + REDACTED else param
  }

  /** Each `&`-separated parameter. */
  function RedactQuery(query: string): string {
    match Find(query, '&')
    case None => RedactParam(query)
    case Some(i) => RedactParam(query[..i]) + "&" + RedactQuery(query[i + 1..])
  }

  function RedactPasswordParams(uri: string): string {
    match Find(uri, '?')
    case None => uri
    case Some(q) => uri[..q + 1] + RedactQuery(uri[q + 1..])
  }

  /** The userinfo: from the first colon to the last `@`. */
  function RedactUserinfo(rest: string): string {
    match FindLast(rest, '@')
    case None => rest
    case Some(at) =>
      match Find(rest[..at], ':')
      case None => rest
      case Some(colon) => rest[..colon] + ":" + REDACTED + rest[at..]
  }

  function RedactUriPassword(uri: string): string {
    match FindSep(uri)
    case None => uri
    case Some(k) => RedactPasswordParams(uri[..k + 3] + RedactUserinfo(uri[k + 3..]))
  }

  // ---------------------------------------------------------------- the result does not depend on the password

  lemma FindAt(s: string, c: char, i: nat)
    requires i < |s| && s[i] == c && forall j | 0 <= j < i :: s[j] != c
    ensures Find(s, c) == Some(i)
  {
    hide Find;
  }

  lemma FindLastAt(s: string, c: char, i: nat)
    requires i < |s| && s[i] == c && forall j | i < j < |s| :: s[j] != c
    ensures FindLast(s, c) == Some(i)
  {
    hide FindLast;
  }

  lemma FindSepAt(s: string, k: nat)
    requires SepAt(s, k) && forall i | 0 <= i < k :: !SepAt(s, i)
    ensures FindSep(s) == Some(k)
  {
    hide FindSep;
  }

  /** The scheme has no `://` of its own, so the first is the one behind it. */
  lemma SchemeEnds(scheme: string, rest: string)
    requires FindSep(scheme).None?
    ensures FindSep(scheme + "://" + rest) == Some(|scheme|)
  {
    var uri := scheme + "://" + rest;
    forall i | 0 <= i < |scheme| ensures !SepAt(uri, i) {
      assert !SepAt(scheme, i);
      if i + 3 <= |scheme| {
        assert uri[i] == scheme[i] && uri[i + 1] == scheme[i + 1] && uri[i + 2] == scheme[i + 2];
      } else {
        assert uri[|scheme|] == ':';
      }
    }
    FindSepAt(uri, |scheme|);
  }

  predicate Lacks(s: string, c: char) { forall i | 0 <= i < |s| :: s[i] != c }

  lemma Grouped(a: string, b: string, c: string)
    ensures a + (b + c) == a + b + c
  {
  }

  /** Whatever the password holds, the redacted URI is the same. */
  lemma PasswordDoesNotShow(scheme: string, user: string, password: string, tail: string)
    requires FindSep(scheme).None? && Lacks(user, ':') && Lacks(tail, '@')
    ensures RedactUriPassword(scheme + "://" + user + ":" + password + "@" + tail) ==
            RedactPasswordParams(scheme + "://" + user + ":***@" + tail)
  {
    hide FindSep;
    hide RedactPasswordParams;
    hide RedactUserinfo;
    var front := scheme + "://";
    var rest := user + ":" + password + "@" + tail;
    var uri := front + rest;
    SchemeEnds(scheme, rest);
    UserinfoHidesPassword(user, password, tail);
    hide Lacks;
    assert uri[..|front|] == front && uri[|front|..] == rest;
    Grouped(front, user + ":" + password + "@", tail);
    Grouped(front, user + ":" + password, "@");
    Grouped(front, user + ":", password);
    Grouped(front, user, ":");
    Grouped(front, user + ":***@", tail);
    Grouped(front, user, ":***@");
  }

  lemma UserinfoHidesPassword(user: string, password: string, tail: string)
    requires Lacks(user, ':') && Lacks(tail, '@')
    ensures RedactUserinfo(user + ":" + password + "@" + tail) == user + ":***@" + tail
  {
    hide Find;
    hide RedactUserinfo;
    var a := user + ":" + password;
    UserinfoAround(a, tail);
    FindAt(a, ':', |user|);
    assert a[..|user|] == user;
  }

  // ---------------------------------------------------------------- searching a joined text

  lemma FirstIn(a: string, b: string, c: char)
    ensures Find(a + b, c) ==
            if Find(a, c).Some? then Find(a, c)
            else match Find(b, c) case None => None case Some(i) => Some(|a| + i)
  {
    var s := a + b;
    assert forall i | 0 <= i < |a| :: s[i] == a[i];
    assert forall i | |a| <= i < |s| :: s[i] == b[i - |a|];
    match Find(a, c) {
      case Some(i) => FindAt(s, c, i);
      case None =>
        match Find(b, c) {
          case Some(i) => FindAt(s, c, |a| + i);
          case None => assert Find(s, c).None?;
        }
    }
  }

  /** The userinfo step, around the last `@`. */
  lemma UserinfoAround(a: string, b: string)
    requires Lacks(b, '@')
    ensures RedactUserinfo(a + "@" + b) ==
            match Find(a, ':') case None => a + "@" + b case Some(c) => a[..c] + ":***@" + b
  {
    hide Find;
    hide FindLast;
    var rest := a + "@" + b;
    LastAt(a, b);
    assert rest[..|a|] == a && rest[|a|..] == "@" + b;
    assert ":" + REDACTED == ":***";
    match Find(a, ':') {
      case None =>
      case Some(c) =>
        assert rest[..c] == a[..c];
        assert a[..c] + ":" + REDACTED + ("@" + b) == a[..c] + ":***@" + b;
    }
  }

  lemma {:induction false} LastAt(a: string, b: string)
    requires Lacks(b, '@')
    ensures FindLast(a + "@" + b, '@') == Some(|a|)
  {
    hide FindLast;
    var rest := a + "@" + b;
    assert forall j | |a| < j < |rest| :: rest[j] == b[j - |a| - 1];
    FindLastAt(rest, '@', |a|);
  }

  lemma UserinfoWithoutAt(rest: string)
    requires Lacks(rest, '@')
    ensures RedactUserinfo(rest) == rest
  {
  }
}
