/** The two fixed-window rate limiters, and what they admit and refuse over whole runs. */
module RateLimit {
  import opened Wrappers

  /** The clock readings of one call, in the order the call takes them. */
  datatype Readings = Readings(created: int, checked: int, restarted: int) {
    predicate Ordered() { created <= checked <= restarted }
  }

  datatype Bucket = Bucket(start: int, count: nat)

  type Buckets = map<string, Bucket>

  /** How long a window lasts, and whether a bucket exactly that old is still current. */
  datatype Window = Window(length: nat, inclusive: bool) {
    predicate Over(elapsed: int) { if inclusive then elapsed > length else elapsed >= length }
  }

  /** A request, where a limit of zero means no limit, or a forced restart of the key's bucket. */
  datatype Event = Request(key: string, limit: nat, at: Readings) | Restart(key: string, at: Readings) {
    /** A call happens at its last reading. */
    function Time(): int { at.restarted }
  }

  /** The bucket a request is counted in. */
  function Current(w: Window, buckets: Buckets, e: Event): Bucket {
    var b := if e.key in buckets then buckets[e.key] else Bucket(e.at.created, 0);
    if w.Over(e.at.checked - b.start) then Bucket(e.at.restarted, 0) else b
  }

  predicate Admits(w: Window, buckets: Buckets, e: Event) {
    e.Request? && (e.limit == 0 || Current(w, buckets, e).count < e.limit)
  }

  function Step(w: Window, buckets: Buckets, e: Event): Buckets {
    match e
    case Request(key, limit, _) =>
      if limit == 0 then buckets
      else
      var b := Current(w, buckets, e);
      buckets[key := if Admits(w, buckets, e) then b.(count := b.count + 1) else b]
    case Restart(key, at) =>
      if key in buckets then buckets[key := Bucket(at.restarted, 0)] else buckets
  }

  // ---------------------------------------------------------------- the limiters in place

  class GatewayRateLimiter {
    const window: nat
    const limit: nat
    var entries: Buckets

    constructor (limit: nat, window: nat)
      ensures this.limit == limit && this.window == window && entries == map[]
    {
      this.limit, this.window, entries := limit, window, map[];
    }

    method TryAcquireWithLimit(key: string, limitOverride: Option<nat>, at: Readings) returns (admitted: bool)
      modifies this
      ensures var w, l := Window(window, false), if limitOverride.Some? then limitOverride.value else limit;
              && admitted == Admits(w, old(entries), Request(key, l, at))
              && entries == Step(w, old(entries), Request(key, l, at))
    {
      var l := if limitOverride.Some? then limitOverride.value else limit;
      if l == 0 {
        return true;
      }
      if key !in entries {
        entries := entries[key := Bucket(at.created, 0)];
      }
      if at.checked - entries[key].start >= window {
        entries := entries[key := Bucket(at.restarted, 0)];
      }
      if entries[key].count >= l {
        return false;
      }
      entries := entries[key := Bucket(entries[key].start, entries[key].count + 1)];
      return true;
    }
  }

  const EXCHANGE_WINDOW: nat := 30_000_000_000
  const EXCHANGE_MAX_REQUESTS: nat := 60

  class TokenExchange {
    var windows: Buckets

    constructor ()
      ensures windows == map[]
    {
      windows := map[];
    }

    method CheckRateLimit(moduleId: string, at: Readings) returns (ok: bool)
      modifies this
      ensures var w, e := Window(30_000_000_000, true), Request(moduleId, 60, at);
              ok == Admits(w, old(windows), e) && windows == Step(w, old(windows), e)
    {
      if moduleId !in windows {
        windows := windows[moduleId := Bucket(at.created, 0)];
      }
      if at.checked - windows[moduleId].start > EXCHANGE_WINDOW {
        windows := windows[moduleId := Bucket(at.restarted, 0)];
      }
      if windows[moduleId].count >= EXCHANGE_MAX_REQUESTS {
        return false;
      }
      windows := windows[moduleId := Bucket(windows[moduleId].start, windows[moduleId].count + 1)];
      return true;
    }

    /** The bucket reset after a successful refresh. */
    method ForceRefresh(moduleId: string, refreshed: bool, at: Readings)
      modifies this
      ensures windows ==
              if refreshed then Step(Window(30_000_000_000, true), old(windows), Restart(moduleId, at)) else old(windows)
    {
      if !refreshed {
        return;
      }
      if moduleId in windows {
        windows := windows[moduleId := Bucket(at.restarted, 0)];
      }
    }
  }

  // ---------------------------------------------------------------- runs

  ghost predicate Run(es: seq<Event>) {
    && (forall i | 0 <= i < |es| :: es[i].at.Ordered())
    && (forall i, j | 0 <= i < j < |es| :: es[i].at.restarted <= es[j].at.created)
  }

  ghost function After(w: Window, es: seq<Event>, n: nat): Buckets
    requires n <= |es|
  {
    if n == 0 then map[] else Step(w, After(w, es, n - 1), es[n - 1])
  }

  ghost predicate AdmittedAt(w: Window, es: seq<Event>, i: nat)
    requires i < |es|
  {
    Admits(w, After(w, es, i), es[i])
  }

  ghost predicate Within(e: Event, key: string, lo: int, hi: int) {
    e.key == key && lo <= e.Time() < hi
  }

  /** Call `i` is admitted under a limit. */
  ghost predicate CountedAt(w: Window, es: seq<Event>, i: nat)
    requires i < |es|
  {
    AdmittedAt(w, es, i) && es[i].limit > 0
  }

  /** Admissions of `key` under a limit, among the first `n` calls with a time in [lo, hi). */
  ghost function Admitted(w: Window, es: seq<Event>, n: nat, key: string, lo: int, hi: int): nat
    requires n <= |es|
  {
    if n == 0 then 0
    else Admitted(w, es, n - 1, key, lo, hi) +
         if Within(es[n - 1], key, lo, hi) && CountedAt(w, es, n - 1) then 1 else 0
  }

  /** Forced restarts of `key` in the same span. */
  ghost function Restarts(es: seq<Event>, n: nat, key: string, lo: int, hi: int): nat
    requires n <= |es|
  {
    if n == 0 then 0
    else Restarts(es, n - 1, key, lo, hi) + if es[n - 1].Restart? && Within(es[n - 1], key, lo, hi) then 1 else 0
  }

  // ---------------------------------------------------------------- at most (windows + 1 + restarts) * limit

  ghost predicate LimitsUpTo(es: seq<Event>, key: string, limit: nat) {
    forall i | 0 <= i < |es| && es[i].Request? && es[i].key == key :: es[i].limit <= limit
  }

  /** Whole windows in `x`. */
  ghost function Windows(x: nat, length: nat): nat
    requires length > 0
  {
    if x < length then 0 else 1 + Windows(x - length, length)
  }

  lemma {:induction false} WindowsGrow(x: nat, y: nat, length: nat)
    requires x <= y && length > 0
    ensures Windows(x, length) <= Windows(y, length)
    ensures x + length <= y ==> Windows(x, length) + 1 <= Windows(y, length)
  {
    if x < length <= y {
      WindowsGrow(0, y - length, length);
    } else if length <= x {
      WindowsGrow(x - length, y - length, length);
    }
  }

  lemma {:induction false} WindowsInSpan(x: nat, spans: nat, length: nat)
    requires length > 0 && x < spans * length
    ensures Windows(x, length) + 1 <= spans
  {
    if length <= x {
      assert spans * length == (spans - 1) * length + length;
      WindowsInSpan(x - length, spans - 1, length);
    } else {
      assert spans != 0;
    }
  }

  /** What `rounds` full buckets hold. */
  ghost function Full(rounds: nat, limit: nat): nat { rounds * limit }

  lemma FullGrows(a: nat, b: nat, limit: nat)
    requires a <= b
    ensures Full(a, limit) <= Full(b, limit)
  {
  }

  lemma FullNext(a: nat, limit: nat)
    ensures Full(a + 1, limit) == Full(a, limit) + limit
  {
  }

  /** The epochs before the current one that can have admitted something since `lo`. */
  ghost function Rounds(w: Window, start: int, lo: int, restarts: nat): nat
    requires w.length > 0
  {
    if start < lo then 0 else 1 + Windows(start - lo, w.length) + restarts
  }

  /** A new epoch leaves room for one more full bucket. */
  lemma LaterEpoch(w: Window, start: int, later: int, lo: int, restarts: nat, limit: nat)
    requires w.length > 0 && start + w.length <= later && lo <= later
    ensures Full(Rounds(w, start, lo, restarts), limit) + limit <= Full(Rounds(w, later, lo, restarts), limit)
  {
    hide Full;
    hide Windows;
    if lo <= start {
      WindowsGrow(start - lo, later - lo, w.length);
    }
    var rounds := Rounds(w, start, lo, restarts);
    FullNext(rounds, limit);
    FullGrows(rounds + 1, Rounds(w, later, lo, restarts), limit);
  }

  /** So does a forced restart. */
  lemma ForcedEpoch(w: Window, start: int, later: int, lo: int, restarts: nat, limit: nat)
    requires w.length > 0 && start <= later && lo <= later
    ensures Full(Rounds(w, start, lo, restarts), limit) + limit <= Full(Rounds(w, later, lo, restarts + 1), limit)
  {
    hide Full;
    hide Windows;
    if lo <= start {
      WindowsGrow(start - lo, later - lo, w.length);
    }
    var rounds := Rounds(w, start, lo, restarts);
    FullNext(rounds, limit);
    FullGrows(rounds + 1, Rounds(w, later, lo, restarts + 1), limit);
  }

  /** While the span lasts: admissions so far fit in the current bucket and the rounds
      before it. */
  ghost predicate Accounted(w: Window, es: seq<Event>, n: nat, key: string, lo: int, hi: int, limit: nat)
    requires n <= |es| && w.length > 0
  {
    var admitted, restarts := Admitted(w, es, n, key, lo, hi), Restarts(es, n, key, lo, hi);
    var buckets := After(w, es, n);
    if key in buckets then
      && buckets[key].count <= limit
      && (n > 0 ==> buckets[key].start <= es[n - 1].Time())
      && admitted <= buckets[key].count + Full(Rounds(w, buckets[key].start, lo, restarts), limit)
      && (n > 0 && es[n - 1].Time() < lo ==> admitted == 0)
    else admitted == 0
  }

  lemma RequestAccounted(w: Window, es: seq<Event>, n: nat, key: string, lo: int, hi: int, limit: nat)
    requires n < |es| && w.length > 0 && Run(es) && LimitsUpTo(es, key, limit)
    requires es[n].Request? && es[n].limit > 0 && es[n].key == key && es[n].Time() < hi
    requires Accounted(w, es, n, key, lo, hi, limit)
    ensures Accounted(w, es, n + 1, key, lo, hi, limit)
  {
    hide Rounds;
    hide Full;
    var e, before := es[n], After(w, es, n);
    var admitted, restarts := Admitted(w, es, n, key, lo, hi), Restarts(es, n, key, lo, hi);
    assert n > 0 ==> es[n - 1].Time() <= e.at.created;
    assert Restarts(es, n + 1, key, lo, hi) == restarts;
    var b := Current(w, before, e);
    if key in before && w.Over(e.at.checked - before[key].start) && lo <= b.start {
      LaterEpoch(w, before[key].start, b.start, lo, restarts, limit);
    }
    assert admitted <= b.count + Full(Rounds(w, b.start, lo, restarts), limit) && b.count <= limit;
  }

  lemma RestartAccounted(w: Window, es: seq<Event>, n: nat, key: string, lo: int, hi: int, limit: nat)
    requires n < |es| && w.length > 0 && Run(es)
    requires es[n].Restart? && es[n].key == key && es[n].Time() < hi
    requires Accounted(w, es, n, key, lo, hi, limit)
    ensures Accounted(w, es, n + 1, key, lo, hi, limit)
  {
    hide Rounds;
    hide Full;
    var e, before := es[n], After(w, es, n);
    var restarts := Restarts(es, n, key, lo, hi);
    assert n > 0 ==> es[n - 1].Time() <= e.at.created;
    if key in before && lo <= e.Time() {
      assert Restarts(es, n + 1, key, lo, hi) == restarts + 1;
      ForcedEpoch(w, before[key].start, e.Time(), lo, restarts, limit);
    }
  }

  /** A request with a limit of zero is always admitted and leaves no trace. */
  lemma ZeroLimitIsUnlimited(w: Window, es: seq<Event>, i: nat)
    requires i < |es| && es[i].Request? && es[i].limit == 0
    ensures AdmittedAt(w, es, i) && After(w, es, i + 1) == After(w, es, i)
  {
  }

  /** Another key, or a request without a limit. */
  lemma UntouchedAccounted(w: Window, es: seq<Event>, n: nat, key: string, lo: int, hi: int, limit: nat)
    requires n < |es| && w.length > 0 && Run(es)
    requires es[n].key != key || (es[n].Request? && es[n].limit == 0)
    requires Accounted(w, es, n, key, lo, hi, limit)
    ensures Accounted(w, es, n + 1, key, lo, hi, limit)
  {
    hide Rounds;
    hide Full;
    assert n > 0 ==> es[n - 1].Time() <= es[n].at.created;
    if es[n].key == key { ZeroLimitIsUnlimited(w, es, n); }
  }

  /** Over any half-open span of `spans` windows: under limits up to `limit`, at most one
      limit per window, one more for the window running at the start, and one more per
      forced restart. Requests without a limit do not change that. */
  lemma {:induction false} RateIsBounded(w: Window, es: seq<Event>, n: nat, key: string, lo: int, hi: int, spans: nat, limit: nat)
    requires n <= |es| && w.length > 0 && spans > 0 && hi == lo + spans * w.length
    requires Run(es) && LimitsUpTo(es, key, limit)
    ensures Admitted(w, es, n, key, lo, hi) <= Full(spans + 1 + Restarts(es, n, key, lo, hi), limit)
    ensures (n > 0 ==> es[n - 1].Time() < hi) ==> Accounted(w, es, n, key, lo, hi, limit)
  {
    hide Full;
    hide Rounds;
    if n > 0 {
      var e := es[n - 1];
      RateIsBounded(w, es, n - 1, key, lo, hi, spans, limit);
      FullGrows(spans + 1 + Restarts(es, n - 1, key, lo, hi), spans + 1 + Restarts(es, n, key, lo, hi), limit);
      if e.Time() < hi {
        assert n > 1 ==> es[n - 2].Time() <= e.at.created;
        if e.key != key || (e.Request? && e.limit == 0) {
          UntouchedAccounted(w, es, n - 1, key, lo, hi, limit);
        } else if e.Request? {
          RequestAccounted(w, es, n - 1, key, lo, hi, limit);
        } else {
          RestartAccounted(w, es, n - 1, key, lo, hi, limit);
        }
        AccountedIsBounded(w, es, n, key, lo, hi, spans, limit);
      }
    }
  }

  lemma AccountedIsBounded(w: Window, es: seq<Event>, n: nat, key: string, lo: int, hi: int, spans: nat, limit: nat)
    requires 0 < n <= |es| && w.length > 0 && spans > 0 && hi == lo + spans * w.length && es[n - 1].Time() < hi
    requires Accounted(w, es, n, key, lo, hi, limit)
    ensures Admitted(w, es, n, key, lo, hi) <= Full(spans + 1 + Restarts(es, n, key, lo, hi), limit)
  {
    hide Full;
    hide Windows;
    var buckets, restarts := After(w, es, n), Restarts(es, n, key, lo, hi);
    if key in buckets {
      var start := buckets[key].start;
      var rounds := Rounds(w, start, lo, restarts);
      if lo <= start { WindowsInSpan(start - lo, spans, w.length); }
      FullNext(rounds, limit);
      FullGrows(rounds + 1, spans + 1 + restarts, limit);
    }
  }

  /** The gateway: no forced restarts, so at most (n + 1) * L in n windows. */
  lemma GatewayRateIsBounded(length: nat, es: seq<Event>, key: string, lo: int, spans: nat, limit: nat)
    requires length > 0 && spans > 0 && Run(es) && LimitsUpTo(es, key, limit)
    requires forall i | 0 <= i < |es| :: es[i].Request?
    ensures Admitted(Window(length, false), es, |es|, key, lo, lo + spans * length) <= (spans + 1) * limit
  {
    RateIsBounded(Window(length, false), es, |es|, key, lo, lo + spans * length, spans, limit);
    NoRestarts(es, |es|, key, lo, lo + spans * length);
  }

  lemma {:induction false} NoRestarts(es: seq<Event>, n: nat, key: string, lo: int, hi: int)
    requires n <= |es| && forall i | 0 <= i < |es| :: es[i].Request?
    ensures Restarts(es, n, key, lo, hi) == 0
  {
    if n > 0 { NoRestarts(es, n - 1, key, lo, hi); }
  }

  /** The token exchange: at most 60 * (n + 1 + r) in n windows with r forced refreshes. */
  lemma ExchangeRateIsBounded(es: seq<Event>, moduleId: string, lo: int, spans: nat)
    requires spans > 0 && Run(es)
    requires forall i | 0 <= i < |es| && es[i].Request? :: es[i].limit == 60
    ensures var w, hi := Window(30_000_000_000, true), lo + spans * 30_000_000_000;
            Admitted(w, es, |es|, moduleId, lo, hi) <= 60 * (spans + 1 + Restarts(es, |es|, moduleId, lo, hi))
  {
    RateIsBounded(Window(EXCHANGE_WINDOW, true), es, |es|, moduleId, lo, lo + spans * EXCHANGE_WINDOW, spans,
                  EXCHANGE_MAX_REQUESTS);
  }

  // ---------------------------------------------------------------- refusals are deserved

  /** The bucket's count is backed by that many admissions since its start. */
  lemma {:induction false} CountsAreAdmissions(w: Window, es: seq<Event>, n: nat, key: string, lo: int, hi: int)
    requires n <= |es| && Run(es) && key in After(w, es, n)
    requires forall i | 0 <= i < n :: es[i].Time() < hi
    requires lo <= After(w, es, n)[key].start
    ensures After(w, es, n)[key].count <= Admitted(w, es, n, key, lo, hi)
    ensures n > 0 && After(w, es, n)[key].start <= es[n - 1].Time()
  {
    var e := es[n - 1];
    assert n > 1 ==> es[n - 2].Time() <= e.at.created;
    if key in After(w, es, n - 1) && lo <= After(w, es, n - 1)[key].start {
      CountsAreAdmissions(w, es, n - 1, key, lo, hi);
    } else if key in After(w, es, n - 1) {
      CountsAreAdmissions(w, es, n - 1, key, After(w, es, n - 1)[key].start, hi);
    }
  }

  /** A call is refused only if as many admissions as its limit lie within one window
      before it (less than a window ago for the gateway, at most one for the exchange). */
  lemma RefusalsAreDeserved(w: Window, es: seq<Event>, i: nat)
    requires i < |es| && Run(es) && es[i].Request? && w.length > 0
    requires !AdmittedAt(w, es, i)
    ensures var e := es[i];
            var oldest := e.at.checked - w.length + if w.inclusive then 0 else 1;
            Admitted(w, es, i, e.key, oldest, e.at.created + 1) >= e.limit
  {
    var e, before := es[i], After(w, es, i);
    assert e.key in before;
    assert !w.Over(e.at.checked - before[e.key].start);
    var oldest := e.at.checked - w.length + if w.inclusive then 0 else 1;
    CountsAreAdmissions(w, es, i, e.key, oldest, e.at.created + 1);
  }

  // ---------------------------------------------------------------- a restart empties the bucket

  /** Admissions of `key` under a limit among the calls from `lo` up to `hi`. */
  ghost function AdmittedBetween(w: Window, es: seq<Event>, lo: nat, hi: nat, key: string): nat
    requires lo <= hi <= |es|
    decreases hi
  {
    if lo == hi then 0
    else AdmittedBetween(w, es, lo, hi - 1, key) +
         if es[hi - 1].key == key && CountedAt(w, es, hi - 1) then 1 else 0
  }

  lemma {:induction false} CountSinceRestart(w: Window, es: seq<Event>, r: nat, n: nat, key: string)
    requires r < n <= |es| && es[r] == Restart(key, es[r].at)
    ensures key in After(w, es, n) ==> After(w, es, n)[key].count <= AdmittedBetween(w, es, r + 1, n, key)
  {
    if r + 1 < n {
      CountSinceRestart(w, es, r, n - 1, key);
    }
  }

  /** A forced restart forgets what came before: a later request of the key is refused only
      if as many admissions as its limit lie between the two. */
  lemma RestartForgets(w: Window, es: seq<Event>, r: nat, i: nat)
    requires r < i < |es| && es[r].Restart? && es[i].Request? && es[r].key == es[i].key
    requires !AdmittedAt(w, es, i)
    ensures AdmittedBetween(w, es, r + 1, i, es[i].key) >= es[i].limit
  {
    CountSinceRestart(w, es, r, i, es[i].key);
  }
}
