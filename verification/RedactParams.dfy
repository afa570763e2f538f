/** What the redaction shows of a `password=` parameter: exactly when the two steps
    together hide it, and exactly what is left when they do not. */
module RedactParams {
  import opened Wrappers
  import opened Redact
  import opened RedactLaws

  // ---------------------------------------------------------------- queries in two parts

  /** The redacted parameters of `q` that an `&` ends. */
  function Closed(q: string): string {
    match Find(q, '&')
    case None => ""
    case Some(i) => RedactParam(q[..i]) + "&" + Closed(q[i + 1..])
  }

  /** The last parameter of `q`, which may go on behind it. */
  function Open(q: string): (r: string)
    ensures |r| <= |q|
  {
    match Find(q, '&')
    case None => q
    case Some(i) => Open(q[i + 1..])
  }

  lemma {:induction false} QueryAppend(q: string, x: string)
    ensures RedactQuery(q + x) == Closed(q) + RedactQuery(Open(q) + x)
    decreases |q|
  {
    hide Find;
    hide RedactParam;
    match Find(q, '&') {
      case None =>
        assert "" + RedactQuery(q + x) == RedactQuery(q + x);
      case Some(i) =>
        FirstIn(q, x, '&');
        assert (q + x)[..i] == q[..i] && (q + x)[i + 1..] == q[i + 1..] + x;
        QueryAppend(q[i + 1..], x);
        Grouped(RedactParam(q[..i]) + "&", Closed(q[i + 1..]), RedactQuery(Open(q[i + 1..]) + x));
    }
  }

  lemma {:induction false} OpenPart(q: string, i: nat)
    requires i <= |q| && (i == 0 || q[i - 1] == '&') && Lacks(q[i..], '&')
    ensures Open(q) == q[i..]
    decreases |q|
  {
    hide Find;
    if i == 0 {
      assert q[0..] == q;
    } else {
      var k := Find(q, '&').value;
      assert q[i - 1] == '&' && k <= i - 1;
      var r := q[k + 1..];
      assert r[i - k - 1..] == q[i..];
      assert i - k - 1 > 0 ==> r[i - k - 2] == q[i - 1];
      OpenPart(r, i - k - 1);
    }
  }

  lemma {:induction false} OpenLacksAmp(q: string)
    ensures Lacks(Open(q), '&')
    decreases |q|
  {
    hide Find;
    match Find(q, '&') {
      case None =>
      case Some(i) => OpenLacksAmp(q[i + 1..]);
    }
  }

  /** Cutting a joined text in its second part. */
  lemma CutInSecond(a: string, b: string, n: nat)
    requires n <= |b|
    ensures (a + b)[..|a| + n] == a + b[..n] && (a + b)[|a| + n..] == b[n..]
  {
  }

  /** From the first `&` on. */
  function Following(z: string): string {
    match Find(z, '&')
    case None => ""
    case Some(i) => "&" + RedactQuery(z[i + 1..])
  }

  /** Up to the first `&`. */
  function UpToAmp(z: string): string {
    match Find(z, '&')
    case None => z
    case Some(i) => z[..i]
  }

  lemma FollowingSkips(a: string, z: string)
    requires Lacks(a, '&')
    ensures Following(a + z) == Following(z)
  {
    hide Find;
    hide RedactQuery;
    FirstIn(a, z, '&');
    assert Find(a, '&').None?;
    match Find(z, '&') {
      case None =>
      case Some(i) => assert (a + z)[|a| + i + 1..] == z[i + 1..];
    }
  }

  lemma QueryCutAt(q: string, i: nat)
    requires Find(q, '&') == Some(i)
    ensures RedactQuery(q) == RedactParam(q[..i]) + ("&" + RedactQuery(q[i + 1..]))
  {
    hide Find;
    hide RedactParam;
    Grouped(RedactParam(q[..i]), "&", RedactQuery(q[i + 1..]));
  }

  lemma {:induction false} ParamThen(p: string, z: string)
    requires Lacks(p, '&')
    ensures RedactQuery(p + z) == RedactParam(p + UpToAmp(z)) + Following(z)
  {
    hide Find;
    hide RedactParam;
    FirstIn(p, z, '&');
    assert Find(p, '&').None?;
    hide Lacks;
    if Find(z, '&').Some? {
      hide RedactQuery;
      var i := Find(z, '&').value;
      QueryCutAt(p + z, |p| + i);
      CutInSecond(p, z, i);
      CutInSecond(p, z, i + 1);
    }
  }

  predicate IsKey(key: string) { |key| == 9 && IsPassword(key) }

  /** The key in any mix of upper and lower case, and no other text. */
  lemma KeySpellings(key: string)
    ensures IsKey(key) <==>
            && |key| == 9
            && key[0] in "pP" && key[1] in "aA" && key[2] in "sS" && key[3] in "sS" && key[4] in "wW"
            && key[5] in "oO" && key[6] in "rR" && key[7] in "dD" && key[8] == '='
  {
    if |key| == 9 {
      var k := "password=";
      assert IsPassword(key) <==>
             && LowerChar(key[0]) == k[0] && LowerChar(key[1]) == k[1] && LowerChar(key[2]) == k[2]
             && LowerChar(key[3]) == k[3] && LowerChar(key[4]) == k[4] && LowerChar(key[5]) == k[5]
             && LowerChar(key[6]) == k[6] && LowerChar(key[7]) == k[7] && LowerChar(key[8]) == k[8];
    }
  }

  lemma KeyLacksAmp(key: string)
    requires IsKey(key)
    ensures Lacks(key, '&') && Lacks(key, ':') && Lacks(key, '@') && Lacks(key, '?')
  {
    KeyIsPlain(key);
  }

  /** A password parameter is masked up to its `&`, whatever it holds. */
  lemma MaskedParam(key: string, z: string)
    requires IsKey(key)
    ensures RedactQuery(key + z) == key + "***" + Following(z)
  {
    hide RedactQuery;
    hide Following;
    hide UpToAmp;
    KeyLacksAmp(key);
    ParamThen(key, z);
    var p := key + UpToAmp(z);
    assert forall i | 0 <= i < 9 :: p[i] == key[i];
    assert p[..9] == key;
  }

  predicate Ends(after: string) { after == "" || after[0] == '&' }

  /** A parameter that is not a password stays. */
  lemma PlainParam(p: string, after: string)
    requires !IsPassword(p) && Lacks(p, '&') && Ends(after)
    ensures RedactQuery(p + after) == p + Following(after)
  {
    hide RedactQuery;
    hide Following;
    hide IsPassword;
    hide Find;
    ParamThen(p, after);
    if after != "" { FindAt(after, '&', 0); }
    assert UpToAmp(after) == "";
    assert p + "" == p;
  }

  // ---------------------------------------------------------------- URIs in two parts

  /** The redacted text of `f`, up to its last parameter. */
  function Head(f: string): string
    requires Find(f, '?').Some?
  {
    f[..Find(f, '?').value + 1] + Closed(f[Find(f, '?').value + 1..])
  }

  /** The last parameter of `f`. */
  function Pending(f: string): string
    requires Find(f, '?').Some?
  {
    Open(f[Find(f, '?').value + 1..])
  }

  lemma ParamsAppend(f: string, x: string)
    requires Find(f, '?').Some?
    ensures RedactPasswordParams(f + x) == Head(f) + RedactQuery(Pending(f) + x)
  {
    hide Find;
    hide RedactQuery;
    hide Closed;
    hide Open;
    FirstIn(f, x, '?');
    var q := Find(f, '?').value;
    assert (f + x)[..q + 1] == f[..q + 1] && (f + x)[q + 1..] == f[q + 1..] + x;
    QueryAppend(f[q + 1..], x);
    Grouped(f[..q + 1], Closed(f[q + 1..]), RedactQuery(Open(f[q + 1..]) + x));
  }

  lemma ParamsSkip(f: string, x: string)
    requires Lacks(f, '?')
    ensures RedactPasswordParams(f + x) == f + RedactPasswordParams(x)
  {
    hide Find;
    hide RedactQuery;
    FirstIn(f, x, '?');
    assert Find(f, '?').None?;
    match Find(x, '?') {
      case None =>
      case Some(i) =>
        assert (f + x)[..|f| + i + 1] == f + x[..i + 1];
        assert (f + x)[|f| + i + 1..] == x[i + 1..];
        Grouped(f, x[..i + 1], RedactQuery(x[i + 1..]));
    }
  }

  /** What stands behind `x` when its query, if any, began in `x`. */
  function Behind(x: string, after: string): string {
    if Find(x, '?').Some? then Following(after) else RedactPasswordParams(after)
  }

  lemma ParamsThen(x: string, after: string)
    requires Lacks(x, '&') && Ends(after)
    ensures RedactPasswordParams(x + after) == RedactPasswordParams(x) + Behind(x, after)
  {
    hide Find;
    hide RedactQuery;
    hide Following;
    if Find(x, '?').Some? {
      var q := Find(x, '?').value;
      var p := x[q + 1..];
      FirstIn(x, after, '?');
      assert (x + after)[..q + 1] == x[..q + 1] && (x + after)[q + 1..] == p + after;
      LastParam(p, after);
      LastParam(p, "");
      assert p + "" == p;
      Grouped(x[..q + 1], RedactParam(p), Following(after));
    } else {
      hide RedactPasswordParams;
      ParamsSkip(x, after);
      ParamsSkip(x, "");
      assert x + "" == x;
      EmptyParams();
    }
  }

  lemma EmptyParams()
    ensures RedactPasswordParams("") == "" && Following("") == ""
  {
  }

  lemma LastParam(p: string, after: string)
    requires Lacks(p, '&') && Ends(after)
    ensures RedactQuery(p + after) == RedactParam(p) + Following(after)
    ensures after == "" ==> RedactQuery(p + after) == RedactParam(p)
  {
    hide RedactQuery;
    hide RedactParam;
    hide Find;
    ParamThen(p, after);
    if after != "" { FindAt(after, '&', 0); }
    assert UpToAmp(after) == "";
    assert p + "" == p;
    if after == "" {
      EmptyParams();
      assert RedactParam(p) + "" == RedactParam(p);
    }
  }

  /** A parameter starts right behind `front`. */
  predicate StartsParam(front: string) {
    && Find(front, '?').Some?
    && (Find(front, '?').value == |front| - 1 || front[|front| - 1] == '&')
  }

  lemma NothingPends(front: string)
    requires StartsParam(front)
    ensures Pending(front) == ""
  {
    hide Find;
    hide Open;
    var query := front[Find(front, '?').value + 1..];
    assert |query| > 0 ==> query[|query| - 1] == front[|front| - 1];
    OpenPart(query, |query|);
  }

  /** A password parameter behind `front` is masked. */
  lemma MaskedBehind(front: string, key: string, z: string)
    requires StartsParam(front) && IsKey(key)
    ensures RedactPasswordParams(front + key + z) == Head(front) + key + "***" + Following(z)
  {
    hide RedactPasswordParams;
    hide RedactQuery;
    hide Head;
    hide Pending;
    hide Following;
    hide StartsParam;
    hide IsPassword;
    assert Find(front, '?').Some? by { MarkOf(front); }
    NothingPends(front);
    ParamsAppend(front, key + z);
    MaskedParam(key, z);
    Grouped(front, key, z);
    assert "" + (key + z) == key + z;
    Grouped(Head(front), key + "***", Following(z));
    Grouped(Head(front), key, "***");
  }

  lemma MarkOf(front: string)
    requires StartsParam(front)
    ensures Find(front, '?').Some?
  {
  }

  // ---------------------------------------------------------------- the userinfo step on two parts

  lemma LastIn(a: string, b: string, c: char)
    ensures FindLast(a + b, c) ==
            if FindLast(b, c).Some? then Some(|a| + FindLast(b, c).value) else FindLast(a, c)
  {
    hide FindLast;
    var s := a + b;
    assert forall i | 0 <= i < |a| :: s[i] == a[i];
    assert forall i | |a| <= i < |s| :: s[i] == b[i - |a|];
    if FindLast(b, c).Some? {
      FindLastAt(s, c, |a| + FindLast(b, c).value);
    } else if FindLast(a, c).Some? {
      FindLastAt(s, c, FindLast(a, c).value);
    }
  }

  lemma LacksParts(a: string, b: string, c: char)
    ensures Lacks(a + b, c) <==> Lacks(a, c) && Lacks(b, c)
  {
    assert forall i | 0 <= i < |a| :: (a + b)[i] == a[i];
    assert forall i | 0 <= i < |b| :: (a + b)[|a| + i] == b[i];
  }

  /** A text with an `@`, taken apart at its last one. */
  lemma AroundLastAt(s: string) returns (x: string, y: string)
    requires !Lacks(s, '@')
    ensures s == x + "@" + y && Lacks(y, '@') && FindLast(s, '@') == Some(|x|) && s[|x|..] == "@" + y
  {
    hide FindLast;
    var at := FindLast(s, '@').value;
    x, y := s[..at], s[at + 1..];
  }

  lemma UserinfoAppend(a: string, b: string)
    requires Lacks(b, '@')
    ensures RedactUserinfo(a + b) == RedactUserinfo(a) + b
  {
    hide RedactUserinfo;
    hide Find;
    if Lacks(a, '@') {
      LacksParts(a, b, '@');
      UserinfoWithoutAt(a);
      UserinfoWithoutAt(a + b);
    } else {
      var x, y := AroundLastAt(a);
      LacksParts(y, b, '@');
      UserinfoAround(x, y);
      UserinfoAround(x, y + b);
      Grouped(x + "@", y, b);
      if Find(x, ':').Some? {
        Grouped(x[..Find(x, ':').value] + ":***@", y, b);
      }
    }
  }

  lemma UserinfoPrepend(a: string, b: string)
    requires Lacks(a, ':') && !Lacks(b, '@')
    ensures RedactUserinfo(a + b) == a + RedactUserinfo(b)
  {
    hide RedactUserinfo;
    hide Find;
    assert Find(a, ':').None?;
    var x, y := AroundLastAt(b);
    UserinfoAround(x, y);
    UserinfoAround(a + x, y);
    FirstIn(a, x, ':');
    hide Lacks;
    Grouped(a, x + "@", y);
    Grouped(a, x, "@");
    if Find(x, ':').Some? {
      var c := Find(x, ':').value;
      CutInSecond(a, x, c);
      Grouped(a, x[..c] + ":***@", y);
      Grouped(a, x[..c], ":***@");
    }
  }

  /** The userinfo step cuts from the first colon of `a` to the last `@` of `b`. */
  lemma UserinfoCuts(a: string, b: string, c: nat, at: nat)
    requires Find(a, ':') == Some(c) && FindLast(b, '@') == Some(at)
    ensures RedactUserinfo(a + b) == a[..c] + ":***" + b[at..]
  {
    hide RedactUserinfo;
    hide Find;
    hide FindLast;
    var x, y := AroundLastAt(b);
    UserinfoAround(a + x, y);
    FirstIn(a, x, ':');
    hide Lacks;
    Grouped(a, x + "@", y);
    Grouped(a, x, "@");
    assert (a + x)[..c] == a[..c];
    AtBehindMask(a[..c], y);
    assert a[..c] + ":***@" + y + "" == a[..c] + ":***@" + y;
  }

  // ---------------------------------------------------------------- one password parameter

  /** Where a parameter stands: any text before it behind the scheme, any spelling of
      its key, and any parameters after it. */
  datatype Place = Place(scheme: string, before: string, key: string, after: string) {
    function Front(): string { scheme + "://" + before }

    predicate Valid() { FindSep(scheme).None? && StartsParam(Front()) && IsKey(key) && Ends(after) }

    function Rest(value: string): string { before + key + value + after }

    function Uri(value: string): string { scheme + "://" + Rest(value) }
  }

  /** What no `@` of the value's own stands in front of. */
  function Tail(value: string): string {
    match FindLast(value, '@')
    case None => value
    case Some(at) => value[at + 1..]
  }

  /** A redacted URI: what it shows of the value, between texts that do not come from it. */
  datatype Shown = Shown(ahead: string, exposed: string, behind: string) {
    function Text(): string { ahead + exposed + behind }
  }

  function Masked(front: string, key: string, rest: string): Shown
    requires StartsParam(front)
  {
    Shown(Head(front) + key + "***", "", Following(rest))
  }

  /** The whole effect of the two steps. */
  function Outcome(p: Place, value: string): Shown
    requires p.Valid()
  {
    if !Lacks(p.after, '@') then
      var at := FindLast(p.after, '@').value;
      match Find(p.before, ':')
      case Some(c) => Shown(RedactPasswordParams(p.scheme + "://" + (p.before[..c] + ":***" + p.after[at..])), "", "")
      case None => Masked(p.Front(), p.key, if Lacks(value, ':') then RedactUserinfo(p.after) else p.after[at..])
    else if Lacks(value, '@') then
      var front := p.scheme + "://" + RedactUserinfo(p.before);
      if Lacks(front, '?') then Shown(front + p.key, RedactPasswordParams(value), Behind(value, p.after))
      else UserinfoKeepsStart(p); Masked(front, p.key, p.after)
    else
      match Find(p.before, ':')
      case None => Masked(p.Front(), p.key, p.after)
      case Some(c) => Cut(p.scheme + "://" + p.before[..c] + ":***@", Tail(value), p.after)
  }

  /** A value whose tail has come to stand behind `front`. */
  function Cut(front: string, tail: string, after: string): Shown {
    if Find(front, '?').None? then Shown(front, RedactPasswordParams(tail), Behind(tail, after))
    else if IsPassword(Pending(front)) then Shown(Head(front) + Pending(front)[..9] + "***", "", Following(after))
    else Shown(Head(front) + Pending(front), tail, Following(after))
  }

  /** The userinfo step keeps what stands right before the parameter. */
  lemma UserinfoKeepsStart(p: Place)
    requires p.Valid() && !Lacks(p.scheme + "://" + RedactUserinfo(p.before), '?')
    ensures StartsParam(p.scheme + "://" + RedactUserinfo(p.before))
  {
    hide Find;
    hide FindLast;
    hide FindSep;
    hide IsPassword;
    hide StartsParam;
    FrontNeedsBefore(p);
    UserinfoKeepsLast(p.before);
    hide RedactUserinfo;
    SameLastStarts(p.scheme + "://", p.before, RedactUserinfo(p.before));
  }

  /** Another text with the same end, and no question mark before it where there was none. */
  lemma SameLastStarts(front: string, b: string, r: string)
    requires StartsParam(front + b) && b != "" && r != "" && b[|b| - 1] == r[|r| - 1]
    requires Lacks(b[..|b| - 1], '?') ==> Lacks(r[..|r| - 1], '?')
    requires !Lacks(front + r, '?')
    ensures StartsParam(front + r)
  {
    hide Find;
    var f, g := front + b, front + r;
    assert f[|f| - 1] == b[|b| - 1] && g[|g| - 1] == r[|r| - 1];
    if g[|g| - 1] != '&' {
      var m, n := |f| - 1, |g| - 1;
      assert f[..m] == front + b[..|b| - 1] && g[..n] == front + r[..|r| - 1];
      assert Lacks(f[..m], '?');
      LacksParts(front, b[..|b| - 1], '?');
      LacksParts(front, r[..|r| - 1], '?');
      assert forall i | 0 <= i < n :: g[i] == g[..n][i];
      FindAt(g, '?', n);
    }
  }

  lemma UserinfoKeepsLast(b: string)
    requires b != "" && b[|b| - 1] != '@'
    ensures var r := RedactUserinfo(b);
            && r != "" && r[|r| - 1] == b[|b| - 1]
            && (Lacks(b[..|b| - 1], '?') ==> Lacks(r[..|r| - 1], '?'))
  {
    hide Find;
    hide FindLast;
    var r := RedactUserinfo(b);
    if FindLast(b, '@').Some? && Find(b[..FindLast(b, '@').value], ':').Some? {
      var at, n := FindLast(b, '@').value, |b| - 1;
      var c := Find(b[..at], ':').value;
      assert r[..|r| - 1] == b[..c] + ":***" + b[at..n];
      if Lacks(b[..n], '?') {
        assert forall i | 0 <= i < c :: b[..c][i] == b[..n][i];
        assert forall i | 0 <= i < n - at :: b[at..n][i] == b[..n][at + i];
        LacksParts(b[..c], ":***", '?');
        LacksParts(b[..c] + ":***", b[at..n], '?');
      }
    }
  }

  lemma FrontNeedsBefore(p: Place)
    requires p.Valid()
    ensures p.before != "" && (p.before[|p.before| - 1] == '?' || p.before[|p.before| - 1] == '&')
  {
    hide Find;
    var front := p.Front();
    var last := front[|front| - 1];
    assert last == '?' || last == '&';
    assert |p.before| == 0 ==> last == '/';
  }

  // ---------------------------------------------------------------- the effect, case by case

  lemma {:induction false} OpenAppend(q: string, x: string)
    requires Lacks(x, '&')
    ensures Open(q + x) == Open(q) + x
    decreases |q|
  {
    hide Find;
    FirstIn(q, x, '&');
    assert Find(x, '&').None?;
    if Find(q, '&').Some? {
      var i := Find(q, '&').value;
      OpenAppend(q[i + 1..], x);
      hide Lacks;
      assert (q + x)[i + 1..] == q[i + 1..] + x;
    }
  }

  lemma PendingAppend(f: string, x: string)
    requires Find(f, '?').Some? && Lacks(x, '&')
    ensures Find(f + x, '?') == Find(f, '?') && Pending(f + x) == Pending(f) + x
  {
    hide Find;
    hide Open;
    FirstIn(f, x, '?');
    var q := Find(f, '?').value;
    assert (f + x)[q + 1..] == f[q + 1..] + x;
    OpenAppend(f[q + 1..], x);
  }

  /** A key is recognised or not before a colon or `@`. */
  lemma KeyEnds(open: string, x: string, tail: string)
    requires x != "" && (x[0] == ':' || x[0] == '@')
    ensures IsPassword(open + x + tail) <==> IsPassword(open)
  {
    var s := open + x + tail;
    assert forall i | 0 <= i < |open| :: s[i] == open[i];
    if |open| < 9 {
      assert s[|open|] == x[0];
      if |s| >= 9 { assert LowerChar(s[|open|]) != "password="[|open|]; }
    }
  }

  lemma CutText(u: string, tail: string, after: string)
    requires Lacks(tail, '&') && Ends(after)
    ensures RedactPasswordParams(u + ":***@" + (tail + after)) == Cut(u + ":***@", tail, after).Text()
    ensures Find(u, '?').Some? <==> Find(u + ":***@", '?').Some?
    ensures Find(u, '?').Some? ==> (IsPassword(Pending(u)) <==> IsPassword(Pending(u + ":***@")))
  {
    hide Find;
    hide RedactQuery;
    hide RedactPasswordParams;
    hide IsPassword;
    hide Following;
    hide Pending;
    hide Head;
    var x := ":***@";
    var front := u + x;
    FirstIn(u, x, '?');
    assert Lacks(x, '?') && Lacks(x, '&');
    assert Find(x, '?').None?;
    if Find(u, '?').Some? {
      PendingAppend(u, x);
      ParamsAppend(front, tail + after);
      var open := Pending(front);
      KeyEnds(Pending(u), x, "");
      assert open + "" == open;
      KeyEnds(Pending(u), x, tail);
      assert IsPassword(open + tail) == IsPassword(open);
      Grouped(open, tail, after);
      PendingLacksAmp(front);
      LacksParts(open, tail, '&');
      if IsPassword(open) {
        OpenPassword(open, tail, after);
        Grouped(Head(front), open[..9] + "***", Following(after));
        Grouped(Head(front), open[..9], "***");
        assert Head(front) + open[..9] + "***" + "" == Head(front) + open[..9] + "***";
      } else {
        PlainParam(open + tail, after);
        Grouped(Head(front), open + tail, Following(after));
        Grouped(Head(front), open, tail);
      }
    } else {
      ParamsSkip(front, tail + after);
      ParamsThen(tail, after);
      Grouped(front, RedactPasswordParams(tail), Behind(tail, after));
    }
  }

  lemma PendingLacksAmp(f: string)
    requires Find(f, '?').Some?
    ensures Lacks(Pending(f), '&')
  {
    hide Find;
    hide Open;
    OpenLacksAmp(f[Find(f, '?').value + 1..]);
  }

  lemma OpenPassword(open: string, tail: string, after: string)
    requires IsPassword(open) && Lacks(open, '&') && Lacks(tail, '&')
    ensures |open| >= 9 && RedactQuery(open + tail + after) == open[..9] + "***" + Following(after)
  {
    hide RedactQuery;
    hide Following;
    var key, more := open[..9], open[9..] + tail;
    assert open + tail + after == key + (more + after);
    MaskedParam(key, more + after);
    LacksParts(open[9..], tail, '&');
    FollowingSkips(more, after);
  }

  /** Nothing behind the key, up to the end of the parameter, is shown. */
  lemma MaskedText(scheme: string, before: string, key: string, x: string, rest: string)
    requires StartsParam(scheme + "://" + before) && IsKey(key) && Lacks(x, '&')
    ensures RedactPasswordParams(scheme + "://" + (before + key + x + rest)) ==
            Masked(scheme + "://" + before, key, rest).Text()
  {
    hide RedactPasswordParams;
    hide StartsParam;
    hide IsKey;
    hide Head;
    hide Following;
    var front := scheme + "://" + before;
    MarkOf(front);
    MaskedBehind(front, key, x + rest);
    FollowingSkips(x, rest);
    assert scheme + "://" + (before + key + x + rest) == front + key + (x + rest);
    assert Head(front) + key + "***" + "" == Head(front) + key + "***";
  }

  lemma OutcomeOfAfter(p: Place, value: string)
    requires p.Valid() && Lacks(value, '&') && !Lacks(p.after, '@')
    ensures RedactPasswordParams(p.scheme + "://" + RedactUserinfo(p.Rest(value))) == Outcome(p, value).Text()
  {
    hide RedactPasswordParams;
    hide RedactUserinfo;
    hide Find;
    hide FindLast;
    hide FindSep;
    hide StartsParam;
    hide IsPassword;
    hide Masked;
    var at := FindLast(p.after, '@').value;
    var a := p.before + p.key + value;
    KeyLacksAmp(p.key);
    FirstIn(p.before + p.key, value, ':');
    FirstIn(p.before, p.key, ':');
    assert Find(p.key, ':').None?;
    match Find(p.before, ':') {
      case Some(c) =>
        UserinfoCuts(a, p.after, c, at);
        assert a[..c] == p.before[..c];
        var shown := Outcome(p, value);
        assert shown.ahead + "" + "" == shown.ahead;
      case None =>
        if Lacks(value, ':') {
          LacksParts(p.before, p.key, ':');
          LacksParts(p.before + p.key, value, ':');
          UserinfoPrepend(a, p.after);
          MaskedText(p.scheme, p.before, p.key, value, RedactUserinfo(p.after));
        } else {
          var c := Find(value, ':').value;
          UserinfoCuts(a, p.after, |p.before| + 9 + c, at);
          assert a[..|p.before| + 9 + c] == p.before + p.key + value[..c];
          var x := value[..c] + ":***";
          LacksParts(value[..c], ":***", '&');
          MaskedText(p.scheme, p.before, p.key, x, p.after[at..]);
          assert p.before + p.key + value[..c] + ":***" + p.after[at..] == p.before + p.key + x + p.after[at..];
        }
    }
  }

  lemma OutcomeOfBefore(p: Place, value: string)
    requires p.Valid() && Lacks(value, '&') && Lacks(p.after, '@') && Lacks(value, '@')
    ensures RedactPasswordParams(p.scheme + "://" + RedactUserinfo(p.Rest(value))) == Outcome(p, value).Text()
  {
    hide RedactPasswordParams;
    hide RedactUserinfo;
    hide Find;
    hide FindLast;
    hide FindSep;
    hide StartsParam;
    hide IsPassword;
    hide Masked;
    var b := RedactUserinfo(p.before);
    var front := p.scheme + "://" + b;
    KeyLacksAmp(p.key);
    LacksParts(p.key, value, '@');
    LacksParts(p.key + value, p.after, '@');
    UserinfoAppend(p.before, p.key + value + p.after);
    assert p.Rest(value) == p.before + (p.key + value + p.after);
    if Lacks(front, '?') {
      var f := front + p.key;
      LacksParts(front, p.key, '?');
      ParamsSkip(f, value + p.after);
      ParamsThen(value, p.after);
      assert p.scheme + "://" + (b + (p.key + value + p.after)) == f + (value + p.after);
      Grouped(f, RedactPasswordParams(value), Behind(value, p.after));
    } else {
      UserinfoKeepsStart(p);
      MaskedText(p.scheme, b, p.key, value, p.after);
      assert b + (p.key + value + p.after) == b + p.key + value + p.after;
    }
  }

  /** The userinfo step when its last `@` is the value's. */
  lemma UserinfoOfValue(p: Place, value: string, v: string, tail: string)
    requires p.Valid() && Lacks(p.after, '@') && value == v + "@" + tail && Lacks(tail, '@')
    ensures RedactUserinfo(p.Rest(value)) ==
            match Find(p.before, ':')
            case Some(c) => p.before[..c] + ":***@" + (tail + p.after)
            case None =>
              p.before + p.key +
              (match Find(v, ':') case None => value case Some(c) => v[..c] + ":***@" + tail) + p.after
  {
    hide RedactUserinfo;
    hide Find;
    hide FindSep;
    hide StartsParam;
    hide IsPassword;
    var a, b := p.before + p.key + v, tail + p.after;
    assert p.Rest(value) == a + "@" + b;
    LacksParts(tail, p.after, '@');
    UserinfoAround(a, b);
    KeyLacksAmp(p.key);
    FirstIn(p.before + p.key, v, ':');
    FirstIn(p.before, p.key, ':');
    assert Find(p.key, ':').None?;
    if Find(p.before, ':').Some? {
      assert a[..Find(p.before, ':').value] == p.before[..Find(p.before, ':').value];
    } else if Find(v, ':').Some? {
      var c := Find(v, ':').value;
      CutInValue(p.before + p.key, v, c, tail, p.after);
    }
  }

  lemma CutInValue(front: string, v: string, c: nat, tail: string, after: string)
    requires c <= |v|
    ensures (front + v)[..|front| + c] + ":***@" + (tail + after) == front + (v[..c] + ":***@" + tail) + after
  {
    assert (front + v)[..|front| + c] == front + v[..c];
  }

  /** A colon before the parameter. */
  lemma OutcomeCutBefore(p: Place, value: string, v: string, tail: string, c: nat)
    requires p.Valid() && Lacks(p.after, '@') && value == v + "@" + tail && Lacks(tail, '@') && Lacks(tail, '&')
    requires Find(p.before, ':') == Some(c)
    ensures RedactPasswordParams(p.scheme + "://" + RedactUserinfo(p.Rest(value))) ==
            Cut(p.scheme + "://" + p.before[..c] + ":***@", tail, p.after).Text()
  {
    hide RedactPasswordParams;
    hide RedactUserinfo;
    hide Find;
    hide FindSep;
    hide StartsParam;
    hide IsPassword;
    hide Cut;
    UserinfoOfValue(p, value, v, tail);
    hide Lacks;
    var front := p.scheme + "://";
    CutText(front + p.before[..c], tail, p.after);
    Grouped(front, p.before[..c] + ":***@", tail + p.after);
    Grouped(front, p.before[..c], ":***@");
  }

  /** No colon before the parameter. */
  lemma OutcomeMasked(p: Place, value: string, v: string, tail: string)
    requires p.Valid() && Lacks(p.after, '@') && value == v + "@" + tail && Lacks(tail, '@') && Lacks(value, '&')
    requires Find(p.before, ':').None?
    ensures RedactPasswordParams(p.scheme + "://" + RedactUserinfo(p.Rest(value))) ==
            Masked(p.Front(), p.key, p.after).Text()
  {
    hide RedactPasswordParams;
    hide RedactUserinfo;
    hide Find;
    hide FindSep;
    hide StartsParam;
    hide IsPassword;
    hide Masked;
    UserinfoOfValue(p, value, v, tail);
    LacksParts(v, "@", '&');
    LacksParts(v + "@", tail, '&');
    var x := if Find(v, ':').Some? then v[..Find(v, ':').value] + ":***@" + tail else value;
    if Find(v, ':').Some? {
      LacksParts(v[..Find(v, ':').value], ":***@", '&');
      LacksParts(v[..Find(v, ':').value] + ":***@", tail, '&');
    }
    MaskedText(p.scheme, p.before, p.key, x, p.after);
  }

  lemma OutcomeOfValue(p: Place, value: string)
    requires p.Valid() && Lacks(value, '&') && Lacks(p.after, '@') && !Lacks(value, '@')
    ensures RedactPasswordParams(p.scheme + "://" + RedactUserinfo(p.Rest(value))) == Outcome(p, value).Text()
  {
    hide RedactPasswordParams;
    hide RedactUserinfo;
    hide Find;
    hide FindSep;
    hide StartsParam;
    hide IsPassword;
    hide Masked;
    hide Cut;
    var v, tail := AroundLastAt(value);
    assert Tail(value) == tail by { TailBehindAt(v, tail); }
    LacksParts(v + "@", tail, '&');
    match Find(p.before, ':') {
      case Some(c) => OutcomeCutBefore(p, value, v, tail, c);
      case None => OutcomeMasked(p, value, v, tail);
    }
  }

  lemma TailBehindAt(v: string, tail: string)
    requires Lacks(tail, '@')
    ensures Tail(v + "@" + tail) == tail
  {
    hide FindLast;
    LastAt(v, tail);
    assert (v + "@" + tail)[|v| + 1..] == tail;
  }

  /** The redacted URI, for every place and value of a password parameter. */
  lemma QueryPasswordOutcome(p: Place, value: string)
    requires p.Valid() && Lacks(value, '&')
    ensures RedactUriPassword(p.Uri(value)) == Outcome(p, value).Text()
  {
    hide RedactPasswordParams;
    hide RedactUserinfo;
    hide FindSep;
    hide StartsParam;
    hide IsPassword;
    hide Find;
    hide FindLast;
    hide Outcome;
    var rest, uri := p.Rest(value), p.Uri(value);
    SchemeEnds(p.scheme, rest);
    assert uri[..|p.scheme| + 3] == p.scheme + "://" && uri[|p.scheme| + 3..] == rest;
    if !Lacks(p.after, '@') {
      OutcomeOfAfter(p, value);
    } else if Lacks(value, '@') {
      OutcomeOfBefore(p, value);
    } else {
      OutcomeOfValue(p, value);
    }
  }

  // ---------------------------------------------------------------- when the value is hidden

  /** The userinfo step takes away every question mark before the parameter. */
  predicate MarkCutAway(p: Place) {
    match FindLast(p.before, '@')
    case None => false
    case Some(at) =>
      match Find(p.before[..at], ':')
      case None => false
      case Some(c) => Lacks(p.scheme, '?') && Lacks(p.before[..c], '?') && Lacks(p.before[at..], '?')
  }

  /** `u` ends inside a password parameter. */
  predicate InPassword(u: string) { Find(u, '?').Some? && IsPassword(Pending(u)) }

  /** Something of the value shows: no `@` follows it, and
      without an `@` of its own, the userinfo step has swallowed the start of the query;
      with one, the userinfo step started at a colon before the parameter that no other
      password parameter covers. */
  predicate Exposes(p: Place, value: string) {
    && Lacks(p.after, '@') && Tail(value) != ""
    && if Lacks(value, '@') then MarkCutAway(p)
       else
         match Find(p.before, ':')
         case None => false
         case Some(c) => !InPassword(p.scheme + "://" + p.before[..c])
  }

  lemma MarkCutAwayIff(p: Place)
    requires p.Valid()
    ensures MarkCutAway(p) <==> Lacks(p.scheme + "://" + RedactUserinfo(p.before), '?')
  {
    hide Find;
    hide FindLast;
    hide FindSep;
    hide IsPassword;
    var b, s := p.before, p.scheme + "://";
    LacksParts(s, RedactUserinfo(b), '?');
    LacksParts(p.scheme, "://", '?');
    if FindLast(b, '@').Some? && Find(b[..FindLast(b, '@').value], ':').Some? {
      var at := FindLast(b, '@').value;
      var c := Find(b[..at], ':').value;
      LacksParts(b[..c], ":" + REDACTED, '?');
      LacksParts(b[..c] + (":" + REDACTED), b[at..], '?');
      Grouped(b[..c], ":", REDACTED);
    } else {
      assert !Lacks(p.Front(), '?');
    }
  }

  lemma ParamsNotEmpty(x: string)
    ensures x != "" ==> RedactPasswordParams(x) != ""
    ensures Lacks(x, '?') ==> RedactPasswordParams(x) == x
  {
    hide Find;
    hide RedactQuery;
  }

  lemma ExposedIff(p: Place, value: string)
    requires p.Valid() && Lacks(value, '&')
    ensures Outcome(p, value).exposed != "" <==> Exposes(p, value)
    ensures Exposes(p, value) && Lacks(Tail(value), '?') ==> Outcome(p, value).exposed == Tail(value)
  {
    hide Find;
    hide FindSep;
    hide StartsParam;
    hide IsPassword;
    hide RedactPasswordParams;
    hide RedactUserinfo;
    hide MarkCutAway;
    hide Pending;
    hide Head;
    hide Behind;
    var tail := Tail(value);
    hide FindLast;
    EmptyParams();
    ParamsNotEmpty(tail);
    if Lacks(p.after, '@') {
      if Lacks(value, '@') {
        MarkCutAwayIff(p);
      } else if Find(p.before, ':').Some? {
        assert Lacks(tail, '&');
        CutText(p.scheme + "://" + p.before[..Find(p.before, ':').value], tail, p.after);
      }
    }
  }

  /** All that a redacted URI may tell about a hidden value. */
  predicate SameShape(v: string, w: string) {
    && Lacks(v, '@') == Lacks(w, '@')
    && Lacks(v, ':') == Lacks(w, ':')
    && (Tail(v) == "") == (Tail(w) == "")
    && Lacks(Tail(v), '?') == Lacks(Tail(w), '?')
  }

  lemma SameSurroundings(p: Place, v: string, w: string)
    requires p.Valid() && SameShape(v, w)
    ensures Outcome(p, v).ahead == Outcome(p, w).ahead && Outcome(p, v).behind == Outcome(p, w).behind
    ensures Exposes(p, v) == Exposes(p, w)
  {
    hide FindSep;
    hide StartsParam;
    hide IsPassword;
    hide RedactPasswordParams;
    hide RedactUserinfo;
    hide MarkCutAway;
    hide Pending;
    hide Head;
    hide Following;
    hide InPassword;
    MarkFound(Tail(v));
    MarkFound(Tail(w));
    TailWithoutAt(v);
    TailWithoutAt(w);
    hide Find;
    hide FindLast;
    hide Tail;
  }

  lemma MarkFound(x: string)
    ensures Find(x, '?').None? <==> Lacks(x, '?')
  {
    hide Find;
  }

  lemma TailWithoutAt(v: string)
    ensures Lacks(v, '@') ==> Tail(v) == v
  {
    hide FindLast;
  }

  /** Two values of the same shape give the same redacted URI exactly when the same of
      them is exposed. */
  lemma ToldApartByExposed(p: Place, v: string, w: string)
    requires p.Valid() && Lacks(v, '&') && Lacks(w, '&') && SameShape(v, w)
    ensures RedactUriPassword(p.Uri(v)) == RedactUriPassword(p.Uri(w)) <==>
            Outcome(p, v).exposed == Outcome(p, w).exposed
  {
    hide RedactUriPassword;
    hide FindSep;
    hide StartsParam;
    hide IsPassword;
    hide Outcome;
    hide Lacks;
    hide SameShape;
    QueryPasswordOutcome(p, v);
    QueryPasswordOutcome(p, w);
    SameSurroundings(p, v, w);
    Cancel(Outcome(p, v).ahead, Outcome(p, v).exposed, Outcome(p, w).exposed, Outcome(p, v).behind);
  }

  lemma Cancel(a: string, x: string, y: string, b: string)
    ensures a + x + b == a + y + b <==> x == y
  {
    if a + x + b == a + y + b {
      assert |x| == |y|;
      assert x == (a + x + b)[|a|..|a| + |x|];
      assert y == (a + y + b)[|a|..|a| + |y|];
    }
  }

  /** The value with one more character in front of its tail. */
  function Longer(value: string): string { value[..|value| - |Tail(value)|] + "x" + Tail(value) }

  lemma LongerHasSameShape(value: string)
    requires Tail(value) != "" && Lacks(value, '&')
    ensures Tail(Longer(value)) == "x" + Tail(value)
    ensures Lacks(Longer(value), '&') && SameShape(Longer(value), value)
  {
    hide FindLast;
    var n := |value| - |Tail(value)|;
    var front, tail := value[..n], Tail(value);
    var w := Longer(value);
    assert value == front + tail && w == front + ("x" + tail);
    LastIn(front, tail, '@');
    LastIn(front, "x" + tail, '@');
    LastIn("x", tail, '@');
    assert Lacks("x", '@') && Lacks("x", ':') && Lacks("x", '?') && Lacks("x", '&');
    assert FindLast("x", '@').None? && FindLast(tail, '@').None?;
    LacksParts(front, tail, '@');
    LacksParts(front, "x" + tail, '@');
    LacksParts("x", tail, '@');
    LacksParts(front, tail, ':');
    LacksParts(front, "x" + tail, ':');
    LacksParts("x", tail, ':');
    LacksParts(front, tail, '&');
    LacksParts(front, "x" + tail, '&');
    LacksParts("x", tail, '&');
    LacksParts("x", tail, '?');
  }

  lemma LongerShowsMore(p: Place, value: string)
    requires p.Valid() && Lacks(value, '&') && Exposes(p, value)
    ensures Lacks(Longer(value), '&') && SameShape(Longer(value), value)
    ensures Outcome(p, Longer(value)).exposed != Outcome(p, value).exposed
  {
    hide FindSep;
    hide StartsParam;
    hide IsPassword;
    hide RedactPasswordParams;
    hide RedactUserinfo;
    hide Pending;
    hide Head;
    hide Behind;
    hide Find;
    hide FindLast;
    hide Longer;
    var tail, w := Tail(value), Longer(value);
    LongerHasSameShape(value);
    TailWithoutAt(value);
    TailWithoutAt(w);
    hide Tail;
    ParamsSkip("x", tail);
    SameSurroundings(p, w, value);
    ExposedIff(p, w);
    ExposedIff(p, value);
    hide Exposes;
  }

  /** A query password is hidden, so that the redacted URI is the same for every value
      of its shape, exactly when the place and the value do not expose it. */
  lemma QueryPasswordHiddenIff(p: Place, value: string)
    requires p.Valid() && Lacks(value, '&')
    ensures (forall v | Lacks(v, '&') && SameShape(v, value) ::
               RedactUriPassword(p.Uri(v)) == RedactUriPassword(p.Uri(value)))
       <==> !Exposes(p, value)
  {
    hide RedactUriPassword;
    hide FindSep;
    hide StartsParam;
    hide IsPassword;
    hide Outcome;
    hide Lacks;
    hide SameShape;
    hide Exposes;
    hide Tail;
    if Exposes(p, value) {
      LongerShowsMore(p, value);
      ToldApartByExposed(p, Longer(value), value);
    } else {
      forall v | Lacks(v, '&') && SameShape(v, value)
        ensures RedactUriPassword(p.Uri(v)) == RedactUriPassword(p.Uri(value))
      {
        SameSurroundings(p, v, value);
        ExposedIff(p, v);
        ExposedIff(p, value);
        ToldApartByExposed(p, v, value);
      }
    }
  }

  /** A password parameter in front of the first `://` is always masked. */
  lemma EarlyPasswordIsMasked(front: string, key: string, z: string)
    requires StartsParam(front) && IsKey(key) && FindSep(front).None? && FindSep(z).Some?
    ensures var k := FindSep(z).value + 3;
            RedactUriPassword(front + key + z) ==
            Head(front) + key + "***" + Following(z[..k] + RedactUserinfo(z[k..]))
  {
    hide FindSep;
    hide RedactUserinfo;
    hide RedactPasswordParams;
    hide Head;
    hide Following;
    var uri, k := front + key + z, FindSep(z).value + 3;
    FindSepBehindKey(front, key, z);
    hide StartsParam;
    hide IsPassword;
    MarkOf(front);
    var n := |front| + 9;
    assert uri[..n + k] == front + key + z[..k] && uri[n + k..] == z[k..];
    MaskedBehind(front, key, z[..k] + RedactUserinfo(z[k..]));
    Grouped(front + key, z[..k], RedactUserinfo(z[k..]));
  }

  lemma FindSepBehindKey(front: string, key: string, z: string)
    requires StartsParam(front) && IsKey(key) && FindSep(front).None? && FindSep(z).Some?
    ensures FindSep(front + key + z) == Some(|front| + 9 + FindSep(z).value)
  {
    hide FindSep;
    hide Find;
    KeyIsPlain(key);
    var k, eq := key[..8], key[8];
    NoSepBeforeKey(front, k);
    SepAcross(front + k, eq, z);
    hide IsPassword;
    hide StartsParam;
    assert key == k + [eq];
    Grouped(front, k, [eq]);
  }

  lemma NoSepBeforeKey(front: string, k: string)
    requires StartsParam(front) && FindSep(front).None? && Lacks(k, ':')
    ensures FindSep(front + k).None?
  {
    hide FindSep;
    hide Find;
    var m := |front| - 1;
    var a, last := front[..m], front[m];
    assert last == '?' || last == '&';
    assert front[0..m] == a;
    SliceHasNoSep(front, 0, m);
    PlainHasNoSep(k);
    SepAcross(a, last, k);
    assert front == a + [last];
  }

  // ---------------------------------------------------------------- URIs that show their password

  lemma ExposedText(p: Place, value: string, c: nat, at: nat)
    requires p.Valid() && Lacks(value, '&') && Lacks(p.after, '@') && Lacks(p.scheme, '?')
    requires Find(p.before, ':') == Some(c) && Lacks(p.before[..c], '?')
    requires FindLast(value, '@') == Some(at) && Lacks(value[at + 1..], '?') && p.after == ""
    ensures RedactUriPassword(p.Uri(value)) == p.scheme + "://" + p.before[..c] + ":***" + value[at..]
  {
    hide RedactUriPassword;
    hide Find;
    hide FindLast;
    hide FindSep;
    hide StartsParam;
    hide IsPassword;
    hide RedactPasswordParams;
    QueryPasswordOutcome(p, value);
    var front, tail := p.scheme + "://" + p.before[..c] + ":***@", value[at + 1..];
    LacksParts(p.scheme, "://", '?');
    LacksParts(p.scheme + "://", p.before[..c], '?');
    LacksParts(p.scheme + "://" + p.before[..c], ":***@", '?');
    assert Find(front, '?').None? && Find(tail, '?').None?;
    ParamsNotEmpty(tail);
    ParamsNotEmpty("");
    hide Lacks;
    assert value[at..] == "@" + tail;
    AtBehindMask(p.scheme + "://" + p.before[..c], tail);
  }

  lemma AtBehindMask(u: string, tail: string)
    ensures u + ":***@" + tail + "" == u + ":***" + ("@" + tail)
  {
  }

  const WITH_USERINFO: Place := Place("pg", "u:p@h/d?", "password=", "")

  lemma WithUserinfoPlace()
    ensures WITH_USERINFO.Valid() && Find(WITH_USERINFO.before, ':') == Some(1) && Lacks(WITH_USERINFO.before[..1], '?')
  {
    hide FindSep;
    hide Find;
    FindAt(WITH_USERINFO.before, ':', 1);
    FindAt(WITH_USERINFO.Front(), '?', 12);
    NoSepInScheme();
  }

  /** Userinfo in front, an `@` in the query password. */
  lemma UserinfoExposesQueryPassword()
    ensures RedactUriPassword("pg://u:p@h/d?password=a@b") == "pg://u:***@b"
  {
    hide RedactUriPassword;
    hide Place.Valid;
    hide Find;
    hide FindLast;
    WithUserinfoPlace();
    FindLastAt("a@b", '@', 1);
    ExposedText(WITH_USERINFO, "a@b", 1, 1);
    assert WITH_USERINFO.Uri("a@b") == "pg://u:p@h/d?password=a@b";
    assert WITH_USERINFO.before[..1] == "u" && "a@b"[1..] == "@b";
    assert "pg" + "://" + "u" + ":***" + "@b" == "pg://u:***@b";
  }

  lemma NoSepInScheme()
    ensures FindSep("pg").None?
  {
  }

  lemma SwallowedText(p: Place, value: string)
    requires p.Valid() && Lacks(value, '&') && Lacks(value, '@') && Lacks(value, '?') && p.after == ""
    requires MarkCutAway(p)
    ensures RedactUriPassword(p.Uri(value)) == p.scheme + "://" + RedactUserinfo(p.before) + p.key + value
  {
    hide RedactUriPassword;
    hide RedactUserinfo;
    hide RedactPasswordParams;
    hide MarkCutAway;
    hide Find;
    hide FindLast;
    hide FindSep;
    hide StartsParam;
    hide IsPassword;
    QueryPasswordOutcome(p, value);
    MarkCutAwayIff(p);
    assert Find(value, '?').None?;
    ParamsNotEmpty(value);
    ParamsNotEmpty("");
    var shown := p.scheme + "://" + RedactUserinfo(p.before) + p.key + value;
    assert shown + "" == shown;
  }

  const SWALLOWED: Place := Place("pg", "h:1?e=a@b&", "password=", "")

  lemma SwallowedPlace()
    ensures SWALLOWED.Valid() && MarkCutAway(SWALLOWED)
  {
    hide FindSep;
    hide Find;
    hide FindLast;
    var b := SWALLOWED.before;
    assert b[..7] == "h:1?e=a" && b[..1] == "h" && b[7..] == "@b&";
    FindAt("h:1?e=a", ':', 1);
    FindLastAt(b, '@', 7);
    FindAt(SWALLOWED.Front(), '?', 8);
    NoSepInScheme();
  }

  lemma SwallowedMark()
    ensures RedactUserinfo(SWALLOWED.before) == "h:***@b&"
  {
    hide RedactUserinfo;
    hide Find;
    FindAt("h:1?e=a", ':', 1);
    UserinfoAround("h:1?e=a", "b&");
    assert SWALLOWED.before == "h:1?e=a" + "@" + "b&";
    assert "h:1?e=a"[..1] == "h";
  }

  /** No `@` in the password: an earlier parameter's takes the question mark away. */
  lemma EarlierParamExposesQueryPassword()
    ensures RedactUriPassword("pg://h:1?e=a@b&password=s") == "pg://h:***@b&password=s"
  {
    hide RedactUriPassword;
    hide RedactUserinfo;
    hide Place.Valid;
    hide MarkCutAway;
    SwallowedPlace();
    SwallowedMark();
    SwallowedText(SWALLOWED, "s");
    hide Lacks;
    assert SWALLOWED.Uri("s") == "pg" + "://" + ("h:1?e=a@b&" + "password=" + "s" + "");
    SwallowedLiterals();
  }

  lemma SwallowedLiterals()
    ensures "pg" + "://" + ("h:1?e=a@b&" + "password=" + "s" + "") == "pg://h:1?e=a@b&password=s"
    ensures "pg" + "://" + "h:***@b&" + "password=" + "s" == "pg://h:***@b&password=s"
  {
    assert "h:1?e=a@b&" + "password=" + "s" + "" == "h:1?e=a@b&password=s";
    assert "pg" + "://" == "pg://";
    assert "pg://" + "h:***@b&" == "pg://h:***@b&";
  }
}
