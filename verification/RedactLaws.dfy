/** Redacting twice changes nothing, in a URI or in free text. */
module RedactLaws {
  import opened Wrappers
  import opened Chars
  import opened Redact

  // ---------------------------------------------------------------- nothing left to redact

  /** Between any colon and any later `@` there is only the placeholder. */
  ghost predicate Clean(t: string) {
    forall j, i | 0 <= j < i < |t| && t[j] == ':' && t[i] == '@' :: t[j..i] == ":***"
  }

  lemma CleanSuffix(t: string, k: nat)
    requires Clean(t) && k <= |t|
    ensures Clean(t[k..])
  {
    var s := t[k..];
    forall j, i | 0 <= j < i < |s| && s[j] == ':' && s[i] == '@' ensures s[j..i] == ":***" {
      assert t[k + j] == ':' && t[k + i] == '@';
      assert s[j..i] == t[k + j..k + i];
    }
  }

  lemma CleanIsFixed(rest: string)
    requires Clean(rest)
    ensures RedactUserinfo(rest) == rest
  {
    hide Find;
    hide FindLast;
    var at := FindLast(rest, '@');
    if at.Some? && Find(rest[..at.value], ':').Some? {
      var n, colon := at.value, Find(rest[..at.value], ':').value;
      assert rest[colon] == ':' && rest[n] == '@';
      assert rest[colon..n] == ":***";
      assert rest == rest[..colon] + rest[colon..n] + rest[n..];
      assert rest[..colon] + ":" + REDACTED + rest[n..] == rest[..colon] + (":" + REDACTED) + rest[n..];
    }
  }

  lemma UserinfoIsClean(rest: string)
    ensures Clean(RedactUserinfo(rest))
  {
    hide Find;
    hide FindLast;
    var at := FindLast(rest, '@');
    if at.Some? {
      var n := at.value;
      match Find(rest[..n], ':') {
        case None =>
          assert forall j | 0 <= j < n :: rest[j] == rest[..n][j];
        case Some(colon) =>
          assert forall j | 0 <= j < colon :: rest[..n][j] == rest[j] != ':';
          assert forall j | n < j < |rest| :: rest[j] != '@';
          RedactedIsClean(rest[..colon], rest[n..]);
      }
    }
  }

  lemma RedactedIsClean(a: string, d: string)
    requires Lacks(a, ':') && forall i | 0 < i < |d| :: d[i] != '@'
    ensures Clean(a + ":" + REDACTED + d)
  {
    var r, n := a + ":" + REDACTED + d, |a|;
    assert r[n..n + 4] == ":***";
    assert forall x | 0 <= x < n :: r[x] == a[x];
    assert forall x | n <= x < n + 4 :: r[x] == ":***"[x - n];
    assert forall x | n + 4 <= x < |r| :: r[x] == d[x - n - 4];
  }

  // ---------------------------------------------------------------- parameters

  lemma KeyIsPlain(param: string)
    requires IsPassword(param)
    ensures forall i | 0 <= i < 9 :: param[i] != ':' && param[i] != '@' && param[i] != '&' && param[i] != '?' && param[i] != '/'
  {
    forall i | 0 <= i < 9
      ensures param[i] != ':' && param[i] != '@' && param[i] != '&' && param[i] != '?' && param[i] != '/'
    {
      assert LowerChar(param[i]) == "password="[i];
    }
  }

  lemma ParamIsPlain(param: string)
    requires IsPassword(param)
    ensures var r := RedactParam(param);
            |r| == 12 && forall i | 0 <= i < 12 :: r[i] != ':' && r[i] != '@' && r[i] != '&'
  {
    KeyIsPlain(param);
  }

  /** In clean text no colon and `@` stand on either side of five characters. */
  lemma NoPairAcross(s: string, j: nat, i: nat)
    requires Clean(s) && j + 4 < i < |s| && s[j] == ':'
    ensures s[i] != '@'
  {
    assert |s[j..i]| == i - j && |":***"| == 4;
  }

  lemma SameSlice(t: string, j: nat, i: nat, s: string, k: nat)
    requires j <= i <= |t| && k + (i - j) <= |s|
    requires forall x | j <= x < i :: t[x] == s[x - j + k]
    ensures t[j..i] == s[k..k + (i - j)]
  {
  }

  /** Replacing a password parameter keeps the text clean. */
  lemma ReplacingKeepsClean(h: string, p: string, y: string)
    requires Clean(h + p + y)
    ensures Clean(h + RedactParam(p) + y)
  {
    if IsPassword(p) {
      ParamIsPlain(p);
      var r := RedactParam(p);
      hide RedactParam;
      var s, t := h + p + y, h + r + y;
      var shift := |p| - 12;
      assert forall x | 0 <= x < |h| :: t[x] == h[x] == s[x];
      assert forall x | |h| <= x < |h| + 12 :: t[x] == r[x - |h|];
      assert forall x | |h| + 12 <= x < |t| :: t[x] == s[x + shift];
      forall j, i | 0 <= j < |h| && |h| + 12 <= i < |t| && t[j] == ':' ensures t[i] != '@' {
        NoPairAcross(s, j, i + shift);
      }
      forall j, i | 0 <= j < i < |t| && t[j] == ':' && t[i] == '@' ensures t[j..i] == ":***" {
        if i < |h| {
          SameSlice(t, j, i, s, j);
        } else {
          assert j >= |h| + 12;
          SameSlice(t, j, i, s, j + shift);
        }
      }
    }
  }

  lemma {:induction false} QueryKeepsClean(h: string, q: string)
    requires Clean(h + q)
    ensures Clean(h + RedactQuery(q))
    decreases |q|
  {
    hide Find;
    hide Clean;
    hide RedactParam;
    match Find(q, '&') {
      case None =>
        assert h + q + "" == h + q;
        ReplacingKeepsClean(h, q, "");
        assert h + RedactParam(q) + "" == h + RedactParam(q);
      case Some(i) =>
        var p, y := q[..i], q[i + 1..];
        var r, z := RedactParam(p), RedactQuery(y);
        assert q == p + ("&" + y);
        Grouped(h, p, "&" + y);
        ReplacingKeepsClean(h, p, "&" + y);
        Grouped(h + r, "&", y);
        QueryKeepsClean(h + r + "&", y);
        Grouped(h + r, "&", z);
        Grouped(h, r, "&" + z);
        Grouped(r, "&", z);
    }
  }

  // ---------------------------------------------------------------- separators

  /** What follows the first `://`, if there is one, is clean. */
  ghost predicate Done(w: string) {
    FindSep(w).Some? ==> Clean(w[FindSep(w).value + 3..])
  }

  /** A separator does not reach across a character it does not contain. */
  lemma SepAcross(a: string, c: char, b: string)
    requires c != ':' && c != '/'
    ensures FindSep(a + [c] + b) ==
            if FindSep(a).Some? then FindSep(a)
            else match FindSep(b) case None => None case Some(k) => Some(|a| + 1 + k)
  {
    hide FindSep;
    var s := a + [c] + b;
    assert forall i :: SepAt(s, i) <==> SepAt(a, i) || SepAt(b, i - |a| - 1) by {
      forall i ensures SepAt(s, i) <==> SepAt(a, i) || SepAt(b, i - |a| - 1) {
        SepSplit(a, c, b, i);
      }
    }
    if FindSep(a).Some? {
      FindSepAt(s, FindSep(a).value);
    } else if FindSep(b).Some? {
      FindSepAt(s, |a| + 1 + FindSep(b).value);
    }
  }

  lemma SepSplit(a: string, c: char, b: string, i: int)
    requires c != ':' && c != '/'
    ensures SepAt(a + [c] + b, i) <==> SepAt(a, i) || SepAt(b, i - |a| - 1)
  {
    var s, n := a + [c] + b, |a|;
    assert forall x | 0 <= x < n :: s[x] == a[x];
    assert s[n] == c;
    assert forall x | n < x < |s| :: s[x] == b[x - n - 1];
  }

  lemma PlainHasNoSep(s: string)
    requires Lacks(s, ':')
    ensures FindSep(s).None?
  {
    hide FindSep;
  }

  lemma RedactedParamSep(p: string)
    ensures IsPassword(p) ==> FindSep(RedactParam(p)).None?
    ensures FindSep(p).None? ==> FindSep(RedactParam(p)).None?
  {
    if IsPassword(p) {
      ParamIsPlain(p);
      PlainHasNoSep(RedactParam(p));
    }
  }

  /** Clean everywhere is clean behind the separator. */
  lemma CleanIsDone(w: string)
    requires Clean(w)
    ensures Done(w)
  {
    hide FindSep;
    hide Clean;
    if FindSep(w).Some? { CleanSuffix(w, FindSep(w).value + 3); }
  }

  lemma DoneBehind(a: string, c: char, b: string)
    requires c != ':' && c != '/' && FindSep(a).None?
    ensures Done(a + [c] + b) <==> Done(b)
  {
    hide FindSep;
    hide Clean;
    SepAcross(a, c, b);
    var s := a + [c] + b;
    if FindSep(b).Some? {
      var k := FindSep(b).value;
      assert s[|a| + 1 + k + 3..] == b[k + 3..];
    }
  }

  lemma DoneBefore(a: string, c: char, b: string)
    requires c != ':' && c != '/' && FindSep(a).Some?
    ensures Done(a + [c] + b) <==> Clean(a[FindSep(a).value + 3..] + [c] + b)
  {
    hide FindSep;
    hide Clean;
    SepAcross(a, c, b);
    var k := FindSep(a).value;
    assert (a + [c] + b)[k + 3..] == a[k + 3..] + [c] + b;
  }

  lemma {:induction false} QueryKeepsDone(q: string)
    requires Done(q)
    ensures Done(RedactQuery(q))
    decreases |q|
  {
    hide Find;
    hide FindSep;
    hide Clean;
    hide Done;
    match Find(q, '&') {
      case None =>
        RedactedParamSep(q);
        if IsPassword(q) { NoSepIsDone(RedactParam(q)); }
      case Some(i) =>
        var p, y := q[..i], q[i + 1..];
        assert q == p + ['&'] + y;
        RedactedParamSep(p);
        QueryStep(p, y);
        var r := RedactParam(p);
        if FindSep(r).None? {
          DoneBehind(r, '&', RedactQuery(y));
          if FindSep(p).None? {
            DoneBehind(p, '&', y);
            QueryKeepsDone(y);
          }
        }
    }
  }

  lemma NoSepIsDone(s: string)
    requires FindSep(s).None?
    ensures Done(s)
  {
  }

  /** A parameter with a separator of its own. */
  lemma QueryStep(p: string, y: string)
    requires Done(p + ['&'] + y)
    ensures FindSep(p).Some? && IsPassword(p) ==> Done(RedactQuery(y))
    ensures FindSep(p).Some? && !IsPassword(p) ==> Done(p + ['&'] + RedactQuery(y))
  {
    hide FindSep;
    hide Find;
    hide Clean;
    hide RedactQuery;
    if FindSep(p).Some? {
      DoneBefore(p, '&', y);
      var tail := p[FindSep(p).value + 3..];
      if IsPassword(p) {
        CleanSuffix(tail + ['&'] + y, |tail| + 1);
        assert (tail + ['&'] + y)[|tail| + 1..] == y;
        assert "" + y == y;
        QueryKeepsClean("", y);
        assert "" + RedactQuery(y) == RedactQuery(y);
        CleanIsDone(RedactQuery(y));
      } else {
        QueryKeepsClean(tail + ['&'], y);
        DoneBefore(p, '&', RedactQuery(y));
      }
    }
  }

  lemma ParamsKeepDone(w: string)
    requires Done(w)
    ensures Done(RedactPasswordParams(w))
  {
    hide Find;
    hide FindSep;
    hide Clean;
    hide Done;
    hide RedactQuery;
    match Find(w, '?') {
      case None =>
      case Some(n) =>
        var a, y := w[..n], w[n + 1..];
        assert w == a + ['?'] + y;
        assert w[..n + 1] + RedactQuery(y) == a + ['?'] + RedactQuery(y);
        if FindSep(a).None? {
          DoneBehind(a, '?', y);
          QueryKeepsDone(y);
          DoneBehind(a, '?', RedactQuery(y));
        } else {
          DoneBefore(a, '?', y);
          QueryKeepsClean(a[FindSep(a).value + 3..] + ['?'], y);
          DoneBefore(a, '?', RedactQuery(y));
        }
    }
  }

  // ---------------------------------------------------------------- idempotence

  lemma ParamIdempotent(p: string)
    ensures RedactParam(RedactParam(p)) == RedactParam(p)
    ensures Lacks(p, '&') ==> Lacks(RedactParam(p), '&')
  {
    if IsPassword(p) {
      ParamIsPlain(p);
      assert RedactParam(p)[..9] == p[..9];
      assert forall i | 0 <= i < 9 :: RedactParam(p)[i] == p[i];
    }
  }

  lemma {:induction false} QueryIdempotent(q: string)
    ensures RedactQuery(RedactQuery(q)) == RedactQuery(q)
    decreases |q|
  {
    hide Find;
    match Find(q, '&') {
      case None =>
        ParamIdempotent(q);
      case Some(i) =>
        var p, y := q[..i], q[i + 1..];
        var r, z := RedactParam(p), RedactQuery(y);
        ParamIdempotent(p);
        QueryIdempotent(y);
        QueryOfJoined(r, z);
    }
  }

  lemma QueryOfJoined(p: string, y: string)
    requires Lacks(p, '&')
    ensures RedactQuery(p + "&" + y) == RedactParam(p) + "&" + RedactQuery(y)
  {
    hide Find;
    var q := p + "&" + y;
    FindAt(q, '&', |p|);
    assert q[..|p|] == p && q[|p| + 1..] == y;
  }

  lemma ParamsIdempotent(w: string)
    ensures RedactPasswordParams(RedactPasswordParams(w)) == RedactPasswordParams(w)
  {
    hide Find;
    hide RedactQuery;
    match Find(w, '?') {
      case None =>
      case Some(n) =>
        var y := RedactQuery(w[n + 1..]);
        var r := w[..n + 1] + y;
        FindAt(r, '?', n);
        assert r[..n + 1] == w[..n + 1] && r[n + 1..] == y;
        QueryIdempotent(w[n + 1..]);
    }
  }

  lemma UserinfoKeepsSep(uri: string, k: nat)
    requires FindSep(uri) == Some(k)
    ensures FindSep(uri[..k + 3] + RedactUserinfo(uri[k + 3..])) == Some(k)
  {
    hide FindSep;
    hide RedactUserinfo;
    var u := uri[..k + 3] + RedactUserinfo(uri[k + 3..]);
    assert forall i | 0 <= i < k + 3 :: u[i] == uri[i];
    assert forall i | 0 <= i < k :: SepAt(u, i) <==> SepAt(uri, i);
    FindSepAt(u, k);
  }

  /** Redacting a URI twice is redacting it once. */
  lemma UriIdempotent(uri: string)
    ensures RedactUriPassword(RedactUriPassword(uri)) == RedactUriPassword(uri)
  {
    hide FindSep;
    hide RedactUserinfo;
    hide RedactPasswordParams;
    hide Clean;
    if FindSep(uri).Some? {
      var k := FindSep(uri).value;
      var u := uri[..k + 3] + RedactUserinfo(uri[k + 3..]);
      UserinfoKeepsSep(uri, k);
      UserinfoIsClean(uri[k + 3..]);
      assert u[k + 3..] == RedactUserinfo(uri[k + 3..]);
      ParamsKeepDone(u);
      var v := RedactPasswordParams(u);
      ParamsIdempotent(u);
      if FindSep(v).Some? {
        var m := FindSep(v).value;
        CleanIsFixed(v[m + 3..]);
        assert v[..m + 3] + v[m + 3..] == v;
      }
    }
  }

  // ---------------------------------------------------------------- free text

  /** A whitespace character, or a run of other characters. */
  datatype Piece = White(c: char) | Run(text: string)

  function RunLength(t: string): (n: nat)
    ensures n <= |t|
    ensures forall i | 0 <= i < n :: !IsWhite(t[i])
    ensures n < |t| ==> IsWhite(t[n])
  {
    if t == [] || IsWhite(t[0]) then 0 else 1 + RunLength(t[1..])
  }

  function Pieces(t: string): seq<Piece> {
    if t == [] then []
    else if IsWhite(t[0]) then [White(t[0])] + Pieces(t[1..])
    else var n := RunLength(t); [Run(t[..n])] + Pieces(t[n..])
  }

  function Text(p: Piece): string {
    match p case White(c) => [c] case Run(text) => text
  }

  function Joined(ps: seq<Piece>): string { if ps == [] then "" else Text(ps[0]) + Joined(ps[1..]) }

  /** Only a run that contains `://` is redacted. */
  function RedactPiece(p: Piece): Piece {
    if p.Run? && FindSep(p.text).Some? then Run(RedactUriPassword(p.text)) else p
  }

  function RedactPieces(ps: seq<Piece>): (r: seq<Piece>)
    ensures |r| == |ps| && forall i | 0 <= i < |ps| :: r[i] == RedactPiece(ps[i])
  {
    seq(|ps|, i requires 0 <= i < |ps| => RedactPiece(ps[i]))
  }

  function RedactedText(t: string): string { Joined(RedactPieces(Pieces(t))) }

  // ---------------------------------------------------------------- the pieces of the result

  predicate Solid(s: string) { |s| > 0 && forall i | 0 <= i < |s| :: !IsWhite(s[i]) }

  /** Runs are solid and never stand side by side. */
  predicate Proper(ps: seq<Piece>) {
    && (forall i | 0 <= i < |ps| :: if ps[i].Run? then Solid(ps[i].text) else IsWhite(ps[i].c))
    && (forall i | 0 <= i < |ps| - 1 :: ps[i].White? || ps[i + 1].White?)
  }

  lemma JoinedCons(p: Piece, rest: seq<Piece>)
    ensures Joined([p] + rest) == Text(p) + Joined(rest)
  {
    assert ([p] + rest)[1..] == rest;
  }

  lemma {:induction false} PiecesJoin(t: string)
    ensures Joined(Pieces(t)) == t
    decreases |t|
  {
    hide IsWhite;
    hide RunLength;
    hide Joined;
    if t != [] {
      var n := if IsWhite(t[0]) then 1 else RunLength(t);
      if !IsWhite(t[0]) { RunLengthPositive(t); }
      var p, rest := if IsWhite(t[0]) then White(t[0]) else Run(t[..n]), Pieces(t[n..]);
      PiecesJoin(t[n..]);
      JoinedCons(p, rest);
      assert t == t[..n] + t[n..];
      assert Text(p) == t[..n];
    } else {
      assert Joined([]) == "" by { JoinedNil(); }
    }
  }

  lemma JoinedNil()
    ensures Joined([]) == ""
  {
  }

  lemma RunLengthPositive(t: string)
    requires t != [] && !IsWhite(t[0])
    ensures RunLength(t) > 0
  {
  }

  lemma {:induction false} PiecesAreProper(t: string)
    ensures Proper(Pieces(t))
    ensures t != [] ==> |Pieces(t)| > 0 && (Pieces(t)[0].White? <==> IsWhite(t[0]))
    decreases |t|
  {
    hide IsWhite;
    if t != [] {
      var n := if IsWhite(t[0]) then 1 else RunLength(t);
      PiecesAreProper(t[n..]);
      ProperCons(Pieces(t)[0], Pieces(t[n..]));
      assert n < |t| ==> t[n..][0] == t[n];
    }
  }

  lemma ProperCons(p: Piece, rest: seq<Piece>)
    requires Proper(rest) && (if p.Run? then Solid(p.text) else IsWhite(p.c))
    requires rest != [] ==> p.White? || rest[0].White?
    ensures Proper([p] + rest)
  {
    hide IsWhite;
    hide Solid;
    var ps := [p] + rest;
    assert forall i | 0 < i < |ps| :: ps[i] == rest[i - 1];
  }

  lemma ProperTail(ps: seq<Piece>)
    requires Proper(ps) && ps != []
    ensures Proper(ps[1..])
  {
    assert forall i | 0 <= i < |ps| - 1 :: ps[1..][i] == ps[i + 1];
  }

  lemma RunEnds(s: string, rest: string)
    requires Solid(s) && (rest == [] || IsWhite(rest[0]))
    ensures RunLength(s + rest) == |s|
  {
    hide IsWhite;
    var t := s + rest;
    assert forall i | 0 <= i < |s| :: t[i] == s[i];
    if rest != [] { assert t[|s|] == rest[0]; }
    hide RunLength;
  }

  /** Proper pieces are found again in their text. */
  lemma {:induction false} PiecesOfJoined(ps: seq<Piece>)
    requires Proper(ps)
    ensures Pieces(Joined(ps)) == ps
    decreases |ps|
  {
    hide IsWhite;
    if ps != [] {
      ProperTail(ps);
      PiecesOfJoined(ps[1..]);
      var t, rest := Joined(ps), Joined(ps[1..]);
      match ps[0] {
        case White(c) =>
          assert t[1..] == rest;
        case Run(s) =>
          if |ps| > 1 { assert ps[1].White? && rest[0] == ps[1].c; }
          RunEnds(s, rest);
          assert t[..|s|] == s && t[|s|..] == rest;
          hide RunLength;
      }
    }
  }

  predicate Within(s: string, allowed: set<char>) { forall i | 0 <= i < |s| :: s[i] in allowed }

  lemma WithinJoined(a: string, b: string, allowed: set<char>)
    requires Within(a, allowed) && Within(b, allowed)
    ensures Within(a + b, allowed)
  {
  }

  lemma WithinSlice(s: string, lo: nat, hi: nat, allowed: set<char>)
    requires Within(s, allowed) && lo <= hi <= |s|
    ensures Within(s[lo..hi], allowed)
  {
  }

  /** Redaction writes nothing but the placeholder. */
  lemma {:induction false} QueryStaysWithin(q: string, allowed: set<char>)
    requires Within(q, allowed) && Within(":***&", allowed)
    ensures Within(RedactQuery(q), allowed)
    decreases |q|
  {
    hide Find;
    hide Within;
    match Find(q, '&') {
      case None =>
        ParamStaysWithin(q, allowed);
      case Some(i) =>
        WithinSlice(q, 0, i, allowed);
        WithinSlice(q, i + 1, |q|, allowed);
        assert q[0..i] == q[..i] && q[i + 1..|q|] == q[i + 1..];
        ParamStaysWithin(q[..i], allowed);
        QueryStaysWithin(q[i + 1..], allowed);
        WithinSlice(":***&", 4, 5, allowed);
        assert ":***&"[4..5] == "&";
        hide RedactParam;
        WithinJoined(RedactParam(q[..i]), "&", allowed);
        WithinJoined(RedactParam(q[..i]) + "&", RedactQuery(q[i + 1..]), allowed);
    }
  }

  lemma ParamStaysWithin(p: string, allowed: set<char>)
    requires Within(p, allowed) && Within(":***&", allowed)
    ensures Within(RedactParam(p), allowed)
  {
    hide Within;
    if IsPassword(p) {
      WithinSlice(p, 0, 9, allowed);
      WithinSlice(":***&", 1, 4, allowed);
      assert ":***&"[1..4] == REDACTED;
      assert p[0..9] == p[..9];
      WithinJoined(p[..9], REDACTED, allowed);
    }
  }

  lemma UserinfoStaysWithin(rest: string, allowed: set<char>)
    requires Within(rest, allowed) && Within(":***&", allowed)
    ensures Within(RedactUserinfo(rest), allowed)
  {
    hide Find;
    hide FindLast;
    hide Within;
    var at := FindLast(rest, '@');
    if at.Some? && Find(rest[..at.value], ':').Some? {
      var n, colon := at.value, Find(rest[..at.value], ':').value;
      WithinSlice(rest, 0, colon, allowed);
      WithinSlice(rest, n, |rest|, allowed);
      WithinSlice(":***&", 0, 1, allowed);
      WithinSlice(":***&", 1, 4, allowed);
      assert ":***&"[0..1] == ":" && ":***&"[1..4] == REDACTED;
      assert rest[0..colon] == rest[..colon] && rest[n..|rest|] == rest[n..];
      WithinJoined(rest[..colon], ":", allowed);
      WithinJoined(rest[..colon] + ":", REDACTED, allowed);
      WithinJoined(rest[..colon] + ":" + REDACTED, rest[n..], allowed);
    }
  }

  lemma UriStaysWithin(uri: string, allowed: set<char>)
    requires FindSep(uri).Some? && Within(uri, allowed) && Within(":***&", allowed)
    ensures |RedactUriPassword(uri)| > 0 && Within(RedactUriPassword(uri), allowed)
  {
    hide FindSep;
    hide Find;
    hide Within;
    hide RedactUserinfo;
    hide RedactQuery;
    var k := FindSep(uri).value;
    WithinSlice(uri, 0, k + 3, allowed);
    WithinSlice(uri, k + 3, |uri|, allowed);
    assert uri[0..k + 3] == uri[..k + 3] && uri[k + 3..|uri|] == uri[k + 3..];
    UserinfoStaysWithin(uri[k + 3..], allowed);
    var u := uri[..k + 3] + RedactUserinfo(uri[k + 3..]);
    WithinJoined(uri[..k + 3], RedactUserinfo(uri[k + 3..]), allowed);
    if Find(u, '?').Some? {
      var n := Find(u, '?').value;
      WithinSlice(u, 0, n + 1, allowed);
      WithinSlice(u, n + 1, |u|, allowed);
      assert u[0..n + 1] == u[..n + 1] && u[n + 1..|u|] == u[n + 1..];
      QueryStaysWithin(u[n + 1..], allowed);
      WithinJoined(u[..n + 1], RedactQuery(u[n + 1..]), allowed);
    }
  }

  lemma RedactionIsProper(ps: seq<Piece>)
    requires Proper(ps)
    ensures Proper(RedactPieces(ps))
  {
    hide RedactUriPassword;
    hide FindSep;
    hide Solid;
    hide IsWhite;
    forall i | 0 <= i < |ps| && ps[i].Run? && FindSep(ps[i].text).Some?
      ensures Solid(RedactUriPassword(ps[i].text))
    {
      UriStaysSolid(ps[i].text);
    }
  }

  lemma UriStaysSolid(uri: string)
    requires FindSep(uri).Some? && Solid(uri)
    ensures Solid(RedactUriPassword(uri))
  {
    hide RedactUriPassword;
    hide FindSep;
    var placeholder := ":***&";
    var allowed := (set c | c in uri) + (set c | c in placeholder);
    assert forall c | c in placeholder :: !IsWhite(c);
    hide IsWhite;
    assert forall c | c in allowed :: !IsWhite(c);
    UriStaysWithin(uri, allowed);
  }

  /** The text keeps every whitespace character and every run without `://`, in place;
      each other run is redacted on its own. */
  lemma TextKeepsItsPieces(t: string)
    ensures Pieces(RedactedText(t)) == RedactPieces(Pieces(t))
  {
    hide RedactPiece;
    hide Pieces;
    hide Joined;
    PiecesAreProper(t);
    RedactionIsProper(Pieces(t));
    PiecesOfJoined(RedactPieces(Pieces(t)));
  }

  lemma PieceIdempotent(p: Piece)
    ensures RedactPiece(RedactPiece(p)) == RedactPiece(p)
  {
    hide RedactUriPassword;
    if p.Run? { UriIdempotent(p.text); }
  }

  /** Redacting a text twice is redacting it once. */
  lemma TextIdempotent(t: string)
    ensures RedactedText(RedactedText(t)) == RedactedText(t)
  {
    hide RedactPiece;
    hide Pieces;
    hide Joined;
    TextKeepsItsPieces(t);
    var ps := RedactPieces(Pieces(t));
    forall i | 0 <= i < |ps| ensures RedactPieces(ps)[i] == ps[i] {
      PieceIdempotent(Pieces(t)[i]);
    }
    assert RedactPieces(ps) == ps;
  }

  // ---------------------------------------------------------------- the loop

  lemma NoSepNoChange(t: string)
    requires FindSep(t).None?
    ensures RedactedText(t) == t
  {
    hide FindSep;
    hide RedactUriPassword;
    PiecesJoin(t);
    RunsComeFromText(t);
    hide Pieces;
    assert RedactPieces(Pieces(t)) == Pieces(t);
  }

  lemma {:induction false} RunsComeFromText(t: string)
    requires FindSep(t).None?
    ensures forall i | 0 <= i < |Pieces(t)| :: Pieces(t)[i].Run? ==> FindSep(Pieces(t)[i].text).None?
    decreases |t|
  {
    hide FindSep;
    if t != [] {
      var n := if IsWhite(t[0]) then 1 else RunLength(t);
      hide IsWhite;
      SliceHasNoSep(t, 0, n);
      SliceHasNoSep(t, n, |t|);
      assert t[0..n] == t[..n] && t[n..|t|] == t[n..];
      RunsComeFromText(t[n..]);
    }
  }

  lemma SliceHasNoSep(t: string, lo: nat, hi: nat)
    requires FindSep(t).None? && lo <= hi <= |t|
    ensures FindSep(t[lo..hi]).None?
  {
    hide FindSep;
    var s := t[lo..hi];
    forall i ensures !SepAt(s, i) {
      assert !SepAt(t, lo + i);
    }
  }

  lemma TextOfWhite(t: string)
    requires t != [] && IsWhite(t[0])
    ensures RedactedText(t) == [t[0]] + RedactedText(t[1..])
  {
    hide RedactPiece;
    var ps := Pieces(t);
    assert RedactPieces(ps)[1..] == RedactPieces(ps[1..]);
    WhiteStays(t[0]);
  }

  lemma WhiteStays(c: char)
    ensures Text(RedactPiece(White(c))) == [c]
  {
  }

  lemma TextOfRun(t: string, n: nat)
    requires 0 < n <= |t| && RunLength(t) == n
    ensures RedactedText(t) == Text(RedactPiece(Run(t[..n]))) + RedactedText(t[n..])
  {
    hide RedactPiece;
    var ps := Pieces(t);
    assert RedactPieces(ps)[1..] == RedactPieces(ps[1..]);
  }

  method PushToken(out: string, token: string) returns (r: string)
    ensures r == out + Text(RedactPiece(Run(token)))
  {
    if FindSep(token).Some? {
      r := out + RedactUriPassword(token);
    } else {
      r := out + token;
    }
  }

  method RedactUrisInText(text: string) returns (out: string)
    ensures out == RedactedText(text)
  {
    hide RedactPiece;
    hide Pieces;
    hide Joined;
    hide RedactedText;
    hide RunLength;
    if FindSep(text).None? {
      NoSepNoChange(text);
      return text;
    }
    hide FindSep;
    out := "";
    var tokenStart: Option<nat> := None;
    assert text[0..] == text;
    for idx := 0 to |text|
      invariant tokenStart.Some? ==> tokenStart.value < idx && forall i | tokenStart.value <= i < idx :: !IsWhite(text[i])
      invariant RedactedText(text) ==
                out + RedactedText(text[if tokenStart.Some? then tokenStart.value else idx..])
    {
      var ch := text[idx];
      if IsWhite(ch) {
        if tokenStart.Some? {
          var start := tokenStart.value;
          tokenStart := None;
          RunOf(text, start, idx);
          Grouped(out, Text(RedactPiece(Run(text[start..idx]))), RedactedText(text[idx..]));
          out := PushToken(out, text[start..idx]);
        }
        TextOfWhite(text[idx..]);
        assert text[idx..][1..] == text[idx + 1..];
        Grouped(out, [ch], RedactedText(text[idx + 1..]));
        out := out + [ch];
      } else if tokenStart.None? {
        tokenStart := Some(idx);
      }
    }
    EmptyText();
    assert text[|text|..] == "";
    if tokenStart.Some? {
      var start := tokenStart.value;
      RunOf(text, start, |text|);
      assert text[start..|text|] == text[start..];
      out := PushToken(out, text[start..]);
    }
  }

  lemma EmptyText()
    ensures RedactedText("") == ""
  {
    assert Pieces("") == [];
    assert RedactPieces([]) == [];
  }

  lemma RunOf(text: string, start: nat, end: nat)
    requires start < end <= |text| && (forall i | start <= i < end :: !IsWhite(text[i]))
    requires end < |text| ==> IsWhite(text[end])
    ensures RedactedText(text[start..]) == Text(RedactPiece(Run(text[start..end]))) + RedactedText(text[end..])
  {
    hide IsWhite;
    hide RedactedText;
    var t, n := text[start..], end - start;
    assert t == text[start..end] + text[end..];
    RunEnds(text[start..end], text[end..]);
    TextOfRun(t, n);
    assert t[..n] == text[start..end] && t[n..] == text[end..];
  }
}
