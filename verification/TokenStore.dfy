/** The service token store, one call at a time: the in-place store, the pure
    single-lock store it implements, and what whole runs of it can and cannot show. */
module ServiceTokens {

  type Token = string

  datatype Actor = User(userId: string, userRole: string) | Service(serviceId: string, serviceRole: string)

  datatype Request = Request(actor: Actor, tenantId: string, scopes: seq<string>)

  datatype Claims = Claims(tokenId: string, actor: Actor, tenantId: string, scopes: seq<string>,
                           issuedAt: int, expiresAt: int)

  /** One issued token; only `lastActivity` ever changes after `issue`. */
  datatype Entry = Entry(claims: Claims, lastActivity: int) {
    /** `fetch_max`: never moves backwards. */
    function Touch(now: int): Entry {
      this.(lastActivity := if lastActivity < now then now else lastActivity)
    }
  }

  /** Durations and instants are nanoseconds. */
  datatype Config = Config(lifetime: nat, idle: nat, grace: nat, cleanupInterval: nat)

  datatype Mode = Strict | Refresh

  datatype TokenVerdict = Valid | Expired | Idle

  datatype Reply =
    | Issued(token: Token, claims: Claims)
    | Revoked
    | Accepted(claims: Claims)
    | NotFound
    | RejectedExpired
    | RejectedIdle

  type Tokens = map<Token, Entry>

  const U64_MAX: nat := 0xFFFF_FFFF_FFFF_FFFF

  function Saturated(x: nat): nat {
    if x > U64_MAX then U64_MAX else x
  }

  /** The expiry grace of one kind of validation. */
  function ExpiryGrace(cfg: Config, mode: Mode): nat {
    if mode.Strict? then 0 else cfg.grace
  }

  /** The idle limit of one kind of validation. */
  function IdleLimit(cfg: Config, mode: Mode): nat {
    cfg.idle + ExpiryGrace(cfg, mode)
  }

  function Verdict(cfg: Config, entry: Entry, now: int, mode: Mode): TokenVerdict {
    if entry.claims.expiresAt + ExpiryGrace(cfg, mode) <= now then Expired
    else if now - entry.lastActivity > IdleLimit(cfg, mode) then Idle
    else Valid
  }

  function ClaimsFor(cfg: Config, tokenId: string, request: Request, now: int): Claims {
    Claims(tokenId, request.actor, request.tenantId, request.scopes, now, now + cfg.lifetime)
  }

  /** What the sweep keeps. */
  predicate Survives(cfg: Config, entry: Entry, now: int) {
    && now < entry.claims.expiresAt + cfg.grace
    && now - entry.lastActivity <= cfg.idle + cfg.grace
  }

  function Sweep(cfg: Config, tokens: Tokens, now: int): Tokens {
    map token | token in tokens && Survives(cfg, tokens[token], now) :: tokens[token]
  }

  /** A validation of the single-lock store: one look, one decision. */
  function Validated(cfg: Config, tokens: Tokens, token: Token, mode: Mode, now: int): (Tokens, Reply) {
    if token !in tokens then (tokens, NotFound)
    else
      match Verdict(cfg, tokens[token], now, mode)
      case Valid => (tokens[token := tokens[token].Touch(now)], Accepted(tokens[token].claims))
      case Expired => (tokens - {token}, RejectedExpired)
      case Idle => (tokens - {token}, RejectedIdle)
  }

  // ---------------------------------------------------------------- the store in place

  class ServiceTokenStore {
    const cfg: Config
    var tokens: Tokens
    /** When the next cleanup is due, in nanoseconds since the store was made. */
    var nextCleanup: nat

    constructor (cfg: Config)
      ensures this.cfg == cfg && tokens == map[] && nextCleanup == Saturated(cfg.cleanupInterval)
    {
      this.cfg := cfg;
      tokens := map[];
      nextCleanup := Saturated(cfg.cleanupInterval);
    }

    /** `token` and `tokenId` are the random strings drawn by the call. */
    method Issue(token: Token, tokenId: string, request: Request, now: int) returns (r: Reply)
      modifies this`tokens
      ensures (tokens, r) == Step(cfg, old(tokens), Event.Issue(token, tokenId, request, now))
    {
      var expiresAt := now + cfg.lifetime;
      var claims := Claims(tokenId, request.actor, request.tenantId, request.scopes, now, expiresAt);
      tokens := tokens[token := Entry(claims, now)];
      r := Issued(token, claims);
    }

    method Revoke(token: Token, now: int) returns (r: Reply)
      modifies this`tokens
      ensures (tokens, r) == Step(cfg, old(tokens), Event.Revoke(token, now))
    {
      tokens := tokens - {token};
      r := Revoked;
    }

    /** Sweeps at most once per interval; `elapsed` is the time since the store was made. */
    method CleanupIfNeeded(now: int, elapsed: nat)
      modifies this
      ensures old(nextCleanup) <= elapsed ==>
                && tokens == Sweep(cfg, old(tokens), now)
                && nextCleanup == Saturated(elapsed + cfg.cleanupInterval)
      ensures elapsed < old(nextCleanup) ==> tokens == old(tokens) && nextCleanup == old(nextCleanup)
    {
      var due := nextCleanup;
      if elapsed < due {
        return;
      }
      nextCleanup := Saturated(elapsed + cfg.cleanupInterval);
      tokens := map token | token in tokens
                            && !(tokens[token].claims.expiresAt + cfg.grace <= now)
                            && now - tokens[token].lastActivity <= cfg.idle + cfg.grace :: tokens[token];
    }

    /** The two-phase validation: the read-lock pass answers a valid token, anything
        else is looked at again before it is removed. */
    method ValidateWith(token: Token, mode: Mode, now: int, elapsed: nat) returns (r: Reply)
      modifies this
      ensures (tokens, r) ==
              Step(cfg, old(tokens), Event.Validate(token, mode, now, old(nextCleanup) <= elapsed))
      ensures nextCleanup == if old(nextCleanup) <= elapsed then Saturated(elapsed + cfg.cleanupInterval) else old(nextCleanup)
    {
      CleanupIfNeeded(now, elapsed);
      if token !in tokens {
        return NotFound;
      }
      var entry := tokens[token];
      if Verdict(cfg, entry, now, mode) == Valid {
        tokens := tokens[token := entry.Touch(now)];
        return Accepted(entry.claims);
      }
      r := Recheck(token, mode, now);
    }

    /** The write-lock pass. The entry may have changed since the first look, so
        it decides afresh. */
    method Recheck(token: Token, mode: Mode, now: int) returns (r: Reply)
      modifies this`tokens
      ensures (tokens, r) == Validated(cfg, old(tokens), token, mode, now)
    {
      if token !in tokens {
        return NotFound;
      }
      var entry := tokens[token];
      match Verdict(cfg, entry, now, mode)
      case Valid =>
        tokens := tokens[token := entry.Touch(now)];
        r := Accepted(entry.claims);
      case Expired =>
        tokens := tokens - {token};
        r := RejectedExpired;
      case Idle =>
        tokens := tokens - {token};
        r := RejectedIdle;
    }
  }

  // ---------------------------------------------------------------- runs

  /** One call of a sequential run. `sweep` says whether this validation is the one
      that cleans up, so a run may sweep at any set of calls. */
  datatype Event =
    | Issue(token: Token, tokenId: string, request: Request, now: int)
    | Revoke(token: Token, now: int)
    | Validate(token: Token, mode: Mode, now: int, sweep: bool)

  function Step(cfg: Config, tokens: Tokens, e: Event): (Tokens, Reply) {
    match e
    case Issue(token, tokenId, request, now) =>
      var claims := ClaimsFor(cfg, tokenId, request, now);
      (tokens[token := Entry(claims, now)], Issued(token, claims))
    case Revoke(token, _) => (tokens - {token}, Revoked)
    case Validate(token, mode, now, sweep) =>
      Validated(cfg, if sweep then Sweep(cfg, tokens, now) else tokens, token, mode, now)
  }

  /** The store after the first `n` calls. */
  function After(cfg: Config, es: seq<Event>, n: nat): Tokens
    requires n <= |es|
  {
    if n == 0 then map[] else Step(cfg, After(cfg, es, n - 1), es[n - 1]).0
  }

  function ReplyAt(cfg: Config, es: seq<Event>, i: nat): Reply
    requires i < |es|
  {
    Step(cfg, After(cfg, es, i), es[i]).1
  }

  /** The clock never runs backwards. */
  ghost predicate Ordered(es: seq<Event>) {
    forall i, j | 0 <= i < j < |es| :: es[i].now <= es[j].now
  }

  /** Past every grace: no validation from `now` on can accept the entry. */
  ghost predicate Dead(cfg: Config, entry: Entry, now: int) {
    !Survives(cfg, entry, now)
  }

  // ---------------------------------------------------------------- sweeping is unobservable

  /** The same calls on a store that never sweeps. */
  function Unswept(es: seq<Event>): (r: seq<Event>)
    ensures |r| == |es|
    ensures forall i | 0 <= i < |es| ::
              r[i] == if es[i].Validate? then es[i].(sweep := false) else es[i]
  {
    seq(|es|, i requires 0 <= i < |es| => if es[i].Validate? then es[i].(sweep := false) else es[i])
  }

  /** A swept store may say "not found" where the other still knows why it refuses. */
  ghost predicate SameAnswer(swept: Reply, unswept: Reply) {
    || swept == unswept
    || (swept.NotFound? && (unswept.RejectedExpired? || unswept.RejectedIdle?))
  }

  /** The swept store holds the same entries, less some that are dead. */
  ghost predicate Lagging(cfg: Config, swept: Tokens, unswept: Tokens, now: int) {
    && (forall t | t in swept :: t in unswept && swept[t] == unswept[t])
    && (forall t | t in unswept && t !in swept :: Dead(cfg, unswept[t], now))
  }

  lemma StepKeepsLagging(cfg: Config, swept: Tokens, unswept: Tokens, was: int, e: Event)
    requires Lagging(cfg, swept, unswept, was) && was <= e.now
    ensures var e' := if e.Validate? then e.(sweep := false) else e;
            && Lagging(cfg, Step(cfg, swept, e).0, Step(cfg, unswept, e').0, e.now)
            && SameAnswer(Step(cfg, swept, e).1, Step(cfg, unswept, e').1)
  {
    if e.Validate? {
      var looked := if e.sweep then Sweep(cfg, swept, e.now) else swept;
      assert Lagging(cfg, looked, unswept, e.now);
    }
  }

  lemma {:induction false} RunKeepsLagging(cfg: Config, es: seq<Event>, n: nat)
    requires Ordered(es) && n <= |es|
    ensures Lagging(cfg, After(cfg, es, n), After(cfg, Unswept(es), n), if n == 0 then 0 else es[n - 1].now)
  {
    if n > 0 {
      RunKeepsLagging(cfg, es, n - 1);
      StepKeepsLagging(cfg, After(cfg, es, n - 1), After(cfg, Unswept(es), n - 1),
                       if n == 1 then es[0].now else es[n - 2].now, es[n - 1]);
    }
  }

  /** Lazy sweeping is unobservable: whichever calls sweep, every validation is
      accepted or refused as if none did, with the same claims. */
  lemma SweepingIsUnobservable(cfg: Config, es: seq<Event>, i: nat)
    requires Ordered(es) && i < |es|
    ensures SameAnswer(ReplyAt(cfg, es, i), ReplyAt(cfg, Unswept(es), i))
    ensures ReplyAt(cfg, es, i).Accepted? || ReplyAt(cfg, Unswept(es), i).Accepted? ==>
              ReplyAt(cfg, es, i) == ReplyAt(cfg, Unswept(es), i)
  {
    RunKeepsLagging(cfg, es, i);
    StepKeepsLagging(cfg, After(cfg, es, i), After(cfg, Unswept(es), i),
                     if i == 0 then es[0].now else es[i - 1].now, es[i]);
  }

  // ---------------------------------------------------------------- acceptance from the history alone

  /** Call `k` is an accepted validation of `token`. */
  ghost predicate Used(cfg: Config, es: seq<Event>, token: Token, k: nat)
    requires k < |es|
  {
    es[k].Validate? && es[k].token == token && ReplyAt(cfg, es, k).Accepted?
  }

  /** Call `k` takes `token` away or replaces it: another issue, a revocation, a refusal. */
  ghost predicate Ended(cfg: Config, es: seq<Event>, token: Token, k: nat)
    requires k < |es|
  {
    es[k].token == token && !Used(cfg, es, token, k)
  }

  /** Before call `n`, `token` was last issued at `j` and not revoked or refused since. */
  ghost predicate LiveSince(cfg: Config, es: seq<Event>, n: nat, token: Token, j: nat)
    requires n <= |es|
  {
    && j < n && es[j].Issue? && es[j].token == token
    && forall k | j < k < n :: !Ended(cfg, es, token, k)
  }

  /** Before call `n`, `m` is the last use of the token issued at `j` (the issue counts). */
  ghost predicate LastUse(cfg: Config, es: seq<Event>, n: nat, token: Token, j: nat, m: nat)
    requires n <= |es|
  {
    && j <= m < n && (m == j || Used(cfg, es, token, m))
    && forall k | m < k < n :: !Used(cfg, es, token, k)
  }

  datatype Trail = Gone | Live(issue: nat, use: nat)

  /** The live issue and last use of `token`, read off one call after the other. */
  ghost function TrailOf(cfg: Config, es: seq<Event>, n: nat, token: Token): Trail
    requires n <= |es|
  {
    if n == 0 then Gone
    else
      var before := TrailOf(cfg, es, n - 1, token);
      if es[n - 1].token != token then before
      else if es[n - 1].Issue? then Live(n - 1, n - 1)
      else if Used(cfg, es, token, n - 1) && before.Live? then Live(before.issue, n - 1)
      else Gone
  }

  ghost predicate TrailAgrees(cfg: Config, es: seq<Event>, n: nat, token: Token)
    requires n <= |es|
  {
    match TrailOf(cfg, es, n, token)
    case Gone => token !in After(cfg, es, n)
    case Live(j, m) =>
      && m < n && j <= m && es[j].Issue?
      && var entry := Entry(ClaimsFor(cfg, es[j].tokenId, es[j].request, es[j].now), es[m].now);
      if token in After(cfg, es, n) then After(cfg, es, n)[token] == entry
      else Dead(cfg, entry, es[n - 1].now)
  }

  lemma {:induction false} StoreFollowsTrail(cfg: Config, es: seq<Event>, n: nat, token: Token)
    requires Ordered(es) && n <= |es|
    ensures TrailAgrees(cfg, es, n, token)
  {
    if n > 0 {
      StoreFollowsTrail(cfg, es, n - 1, token);
      var e := es[n - 1];
      if e.Validate? {
        var before := After(cfg, es, n - 1);
        var looked := if e.sweep then Sweep(cfg, before, e.now) else before;
        assert token in looked ==> token in before && looked[token] == before[token];
        assert token in before && token !in looked ==> Dead(cfg, before[token], e.now);
        hide Sweep;
      }
    }
  }

  /** The trail is exactly what the two quantified readings of the history say. */
  lemma {:induction false} TrailIsTheHistory(cfg: Config, es: seq<Event>, n: nat, token: Token, j: nat, m: nat)
    requires Ordered(es) && n <= |es|
    ensures TrailOf(cfg, es, n, token) == Live(j, m)
       <==> LiveSince(cfg, es, n, token, j) && LastUse(cfg, es, n, token, j, m)
  {
    if n > 0 {
      var k := n - 1;
      StoreFollowsTrail(cfg, es, k, token);
      TrailIsTheHistory(cfg, es, k, token, j, m);
      var before := TrailOf(cfg, es, k, token);
      if before.Live? {
        TrailIsTheHistory(cfg, es, k, token, before.issue, before.use);
      }
      if es[k].token == token && Used(cfg, es, token, k) && j < k && LiveSince(cfg, es, k, token, j) {
        var last := FindLastUse(cfg, es, k, token, j);
        TrailIsTheHistory(cfg, es, k, token, j, last);
      } else if es[k].token == token && !Used(cfg, es, token, k) {
        assert Ended(cfg, es, token, k);
      }
      if j < k && LiveSince(cfg, es, n, token, j) {
        assert LiveSince(cfg, es, k, token, j);
      }
    }
  }

  lemma {:induction false} FindLastUse(cfg: Config, es: seq<Event>, n: nat, token: Token, j: nat) returns (m: nat)
    requires j < n <= |es|
    ensures LastUse(cfg, es, n, token, j, m)
  {
    m := n - 1;
    if m > j && !Used(cfg, es, token, m) {
      m := FindLastUse(cfg, es, n - 1, token, j);
    }
  }

  /** What the history says about a validation: a live issue, before its expiry
      (plus grace), and used recently enough. */
  ghost predicate Admissible(cfg: Config, es: seq<Event>, i: nat, j: nat, m: nat)
    requires i < |es| && es[i].Validate?
  {
    var e := es[i];
    && LiveSince(cfg, es, i, e.token, j)
    && LastUse(cfg, es, i, e.token, j, m)
    && e.now < es[j].now + cfg.lifetime + ExpiryGrace(cfg, e.mode)
    && e.now - es[m].now <= IdleLimit(cfg, e.mode)
  }

  /** A validation is accepted if and only if the calls before it say so, and then
      it returns the claims of the live issue. Sweeps do not enter into it. */
  lemma AcceptedIffHistoryAdmits(cfg: Config, es: seq<Event>, i: nat)
    requires Ordered(es) && i < |es| && es[i].Validate?
    ensures ReplyAt(cfg, es, i).Accepted? <==> exists j: nat, m: nat :: Admissible(cfg, es, i, j, m)
    ensures forall j: nat, m: nat :: Admissible(cfg, es, i, j, m) ==>
              ReplyAt(cfg, es, i) == Accepted(ClaimsFor(cfg, es[j].tokenId, es[j].request, es[j].now))
  {
    var e := es[i];
    StoreFollowsTrail(cfg, es, i, e.token);
    var before := After(cfg, es, i);
    var looked := if e.sweep then Sweep(cfg, before, e.now) else before;
    assert e.token in looked ==> e.token in before && looked[e.token] == before[e.token];
    assert e.token in before && e.token !in looked ==> Dead(cfg, before[e.token], e.now);
    forall j: nat, m: nat
      ensures Admissible(cfg, es, i, j, m) ==>
                ReplyAt(cfg, es, i) == Accepted(ClaimsFor(cfg, es[j].tokenId, es[j].request, es[j].now))
    {
      TrailIsTheHistory(cfg, es, i, e.token, j, m);
    }
    if ReplyAt(cfg, es, i).Accepted? {
      var trail := TrailOf(cfg, es, i, e.token);
      TrailIsTheHistory(cfg, es, i, e.token, trail.issue, trail.use);
      assert Admissible(cfg, es, i, trail.issue, trail.use);
    }
  }

  // ---------------------------------------------------------------- which answer, from the history alone

  /** The extra time a validation allows: none, or the grace for a refresh. */
  function Allowance(cfg: Config, mode: Mode): nat { match mode case Strict => 0 case Refresh => cfg.grace }

  /** A sweep at call `k` finds the token issued at `j` and last used at `m` past every grace. */
  ghost predicate SweptAt(cfg: Config, es: seq<Event>, j: nat, m: nat, k: nat)
    requires j < |es| && m < |es| && k < |es|
  {
    && es[k].Validate? && es[k].sweep
    && (es[k].now >= es[j].now + cfg.lifetime + cfg.grace || es[k].now - es[m].now > cfg.idle + cfg.grace)
  }

  /** Some call after the last use and before call `n` swept the token away. */
  ghost predicate SweptAway(cfg: Config, es: seq<Event>, j: nat, m: nat, n: nat)
    requires j < |es| && m < |es| && n <= |es|
  {
    exists k | m < k < n :: SweptAt(cfg, es, j, m, k)
  }

  ghost predicate PresenceAgrees(cfg: Config, es: seq<Event>, n: nat, token: Token)
    requires n <= |es|
  {
    match TrailOf(cfg, es, n, token)
    case Gone => token !in After(cfg, es, n)
    case Live(j, m) => j < n && m < n && (token in After(cfg, es, n) <==> !SweptAway(cfg, es, j, m, n))
  }

  lemma SweepDecides(cfg: Config, es: seq<Event>, n: nat, token: Token, j: nat, m: nat)
    requires 0 < n <= |es| && TrailAgrees(cfg, es, n - 1, token) && TrailOf(cfg, es, n - 1, token) == Live(j, m)
    requires es[n - 1].Validate? && token in After(cfg, es, n - 1)
    ensures j < n && m < n
    ensures es[n - 1].sweep && token !in Sweep(cfg, After(cfg, es, n - 1), es[n - 1].now) <==>
            SweptAt(cfg, es, j, m, n - 1)
  {
    hide TrailOf;
    hide After;
  }

  lemma {:induction false} StorePresence(cfg: Config, es: seq<Event>, n: nat, token: Token)
    requires Ordered(es) && n <= |es|
    ensures PresenceAgrees(cfg, es, n, token)
  {
    if n > 0 {
      var e := es[n - 1];
      StorePresence(cfg, es, n - 1, token);
      StoreFollowsTrail(cfg, es, n - 1, token);
      StoreFollowsTrail(cfg, es, n, token);
      var before := TrailOf(cfg, es, n - 1, token);
      if before.Live? && e.Validate? && token in After(cfg, es, n - 1) {
        SweepDecides(cfg, es, n, token, before.issue, before.use);
      }
      hide SweptAt;
      hide TrailAgrees;
    }
  }

  /** The answer to a validation of a live token, by times alone: gone if a sweep took it,
      expired from issue + lifetime (+ grace) on, idle if the last use is more than the
      limit (+ grace) ago, and otherwise the claims of the issue. */
  lemma AnswerFromHistory(cfg: Config, es: seq<Event>, i: nat, j: nat, m: nat)
    requires Ordered(es) && i < |es| && es[i].Validate?
    requires LiveSince(cfg, es, i, es[i].token, j) && LastUse(cfg, es, i, es[i].token, j, m)
    ensures var e, r, g := es[i], ReplyAt(cfg, es, i), Allowance(cfg, es[i].mode);
            var swept := SweptAway(cfg, es, j, m, i + 1);
            var expired, idle := e.now >= es[j].now + cfg.lifetime + g, e.now - es[m].now > cfg.idle + g;
            && (r == NotFound <==> swept)
            && (r == RejectedExpired <==> !swept && expired)
            && (r == RejectedIdle <==> !swept && !expired && idle)
            && (r.Accepted? <==> !expired && !idle)
            && (r.Accepted? ==> r.claims == Claims(es[j].tokenId, es[j].request.actor, es[j].request.tenantId,
                                                   es[j].request.scopes, es[j].now, es[j].now + cfg.lifetime))
  {
    var e := es[i];
    TrailIsTheHistory(cfg, es, i, e.token, j, m);
    StoreFollowsTrail(cfg, es, i, e.token);
    StorePresence(cfg, es, i, e.token);
    hide TrailOf;
    var before := After(cfg, es, i);
    if e.token in before {
      SweepNow(cfg, es, i, j, m);
    }
    SweptNext(cfg, es, j, m, i);
    var g := Allowance(cfg, e.mode);
    assert SweptAt(cfg, es, j, m, i) ==> (e.now >= es[j].now + cfg.lifetime + g || e.now - es[m].now > cfg.idle + g);
    if SweptAway(cfg, es, j, m, i) { SweptIsLate(cfg, es, i, j, m); }
    hide SweptAway;
    hide After;
  }

  lemma SweepNow(cfg: Config, es: seq<Event>, i: nat, j: nat, m: nat)
    requires i < |es| && es[i].Validate? && es[i].token in After(cfg, es, i) && j < i && m < i && es[j].Issue?
    requires After(cfg, es, i)[es[i].token] ==
             Entry(ClaimsFor(cfg, es[j].tokenId, es[j].request, es[j].now), es[m].now)
    ensures es[i].sweep && es[i].token !in Sweep(cfg, After(cfg, es, i), es[i].now) <==> SweptAt(cfg, es, j, m, i)
  {
    hide After;
  }

  lemma SweptNext(cfg: Config, es: seq<Event>, j: nat, m: nat, i: nat)
    requires j < |es| && m < i < |es|
    ensures SweptAway(cfg, es, j, m, i + 1) <==> SweptAway(cfg, es, j, m, i) || SweptAt(cfg, es, j, m, i)
  {
    hide SweptAt;
  }

  /** What a sweep took is past both kinds of limit. */
  lemma SweptIsLate(cfg: Config, es: seq<Event>, i: nat, j: nat, m: nat)
    requires Ordered(es) && i < |es| && es[i].Validate? && j < i && m < i && SweptAway(cfg, es, j, m, i)
    ensures var e, g := es[i], Allowance(cfg, es[i].mode);
            e.now >= es[j].now + cfg.lifetime + g || e.now - es[m].now > cfg.idle + g
  {
    var k :| m < k < i && SweptAt(cfg, es, j, m, k);
    assert es[k].now <= es[i].now;
  }

  /** Without a live issue the token is not found, swept or not. */
  lemma UnknownWithoutIssue(cfg: Config, es: seq<Event>, i: nat)
    requires Ordered(es) && i < |es| && es[i].Validate?
    requires forall j: nat :: !LiveSince(cfg, es, i, es[i].token, j)
    ensures ReplyAt(cfg, es, i) == NotFound
  {
    StoreFollowsTrail(cfg, es, i, es[i].token);
    var trail := TrailOf(cfg, es, i, es[i].token);
    if trail.Live? {
      TrailIsTheHistory(cfg, es, i, es[i].token, trail.issue, trail.use);
    }
  }

  /** `lastActivity` is the largest of the times of the live issue and its uses. */
  lemma LastActivityIsLatestUse(cfg: Config, es: seq<Event>, n: nat, token: Token) returns (j: nat)
    requires Ordered(es) && n <= |es| && token in After(cfg, es, n)
    ensures LiveSince(cfg, es, n, token, j)
    ensures es[j].now <= After(cfg, es, n)[token].lastActivity
    ensures forall k | j < k < n && Used(cfg, es, token, k) :: es[k].now <= After(cfg, es, n)[token].lastActivity
    ensures exists m | j <= m < n :: (m == j || Used(cfg, es, token, m)) && After(cfg, es, n)[token].lastActivity == es[m].now
  {
    StoreFollowsTrail(cfg, es, n, token);
    var trail := TrailOf(cfg, es, n, token);
    TrailIsTheHistory(cfg, es, n, token, trail.issue, trail.use);
    j := trail.issue;
  }

  /** A token that was revoked or refused stays unknown until it is issued again.
      In particular a strict refusal also ends the refresh grace. */
  lemma {:induction false} GoneUntilReissued(cfg: Config, es: seq<Event>, i: nat, k: nat, token: Token)
    requires i < k < |es|
    requires Ended(cfg, es, token, i) && !es[i].Issue?
    requires forall x | i < x < k :: !(es[x].Issue? && es[x].token == token)
    ensures token !in After(cfg, es, k)
    ensures es[k].Validate? && es[k].token == token ==> ReplyAt(cfg, es, k) == NotFound
  {
    if k > i + 1 {
      GoneUntilReissued(cfg, es, i, k - 1, token);
    }
    assert After(cfg, es, k) == Step(cfg, After(cfg, es, k - 1), es[k - 1]).0;
  }

  /** Under every configuration with a refresh grace there is a moment when a refresh
      alone is accepted, but a strict validation right before it makes it "not found". */
  lemma StrictRefusalEndsGrace(cfg: Config, token: Token, tokenId: string, request: Request, issued: int)
      returns (now: int)
    requires cfg.grace > 0
    ensures issued <= now
    ensures var issue := Issue(token, tokenId, request, issued);
            var strict, refresh := Validate(token, Strict, now, false), Validate(token, Refresh, now, false);
            && ReplyAt(cfg, [issue, refresh], 1).Accepted?
            && !ReplyAt(cfg, [issue, strict, refresh], 1).Accepted?
            && ReplyAt(cfg, [issue, strict, refresh], 2) == NotFound
  {
    now := issued + if cfg.lifetime <= cfg.idle then cfg.lifetime else cfg.idle + 1;
    var issue := Issue(token, tokenId, request, issued);
    var strict, refresh := Validate(token, Strict, now, false), Validate(token, Refresh, now, false);
    var short, long := [issue, refresh], [issue, strict, refresh];
    var store := Step(cfg, map[], issue).0;
    assert After(cfg, short, 0) == After(cfg, long, 0) == map[];
    assert After(cfg, short, 1) == After(cfg, long, 1) == store;
    assert After(cfg, long, 2) == Step(cfg, store, strict).0;
  }
}
