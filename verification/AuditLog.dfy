/** The audit log: a bounded, time-pruned ring that agrees with the full history and
    survives restarts. */
module AuditLog {
  import opened Wrappers

  /** Everything but the time is payload here. */
  datatype AuditEvent = AuditEvent(timestamp: int, payload: string)

  /** Without persistence there is no retention. */
  datatype Config = Config(capacity: nat, retention: Option<nat>)

  type Events = seq<AuditEvent>

  predicate Expired(cfg: Config, e: AuditEvent, now: int) {
    cfg.retention.Some? && e.timestamp < now - cfg.retention.value
  }

  function Newest(s: Events, n: nat): Events { if |s| > n then s[|s| - n..] else s }

  /** Pops expired events off the front, up to the first that is not. */
  function DropExpired(cfg: Config, s: Events, now: int): Events {
    if s != [] && Expired(cfg, s[0], now) then DropExpired(cfg, s[1..], now) else s
  }

  function Pruned(cfg: Config, s: Events, now: int): Events { Newest(DropExpired(cfg, s, now), cfg.capacity) }

  function Appended(cfg: Config, s: Events, e: AuditEvent, now: int): Events {
    if cfg.capacity == 0 then s else Pruned(cfg, s + [e], now)
  }

  /** All events that have not expired, wherever they stand. */
  function Fresh(cfg: Config, s: Events, now: int): Events {
    if s == [] then []
    else
      var n := |s| - 1;
      Fresh(cfg, s[..n], now) + if Expired(cfg, s[n], now) then [] else [s[n]]
  }

  /** The specification: the newest `capacity` unexpired events of the whole history. */
  function Kept(cfg: Config, history: Events, now: int): Events { Newest(Fresh(cfg, history, now), cfg.capacity) }

  // ---------------------------------------------------------------- loading a snapshot

  /** The sort key: time since the epoch, nothing before it. */
  function Key(e: AuditEvent): nat { if e.timestamp < 0 then 0 else e.timestamp }

  function InsertByKey(s: Events, e: AuditEvent): Events {
    if s == [] || Key(s[|s| - 1]) <= Key(e) then s + [e]
    else InsertByKey(s[..|s| - 1], e) + [s[|s| - 1]]
  }

  /** The stable sort of the library. */
  function SortByKey(s: Events): Events {
    if s == [] then [] else InsertByKey(SortByKey(s[..|s| - 1]), s[|s| - 1])
  }

  function Loaded(cfg: Config, file: Option<Events>, now: int): Events {
    if cfg.capacity == 0 || file.None? then []
    else Newest(SortByKey(Fresh(cfg, file.value, now)), cfg.capacity)
  }

  predicate SortedByKey(s: Events) { forall i, j | 0 <= i < j < |s| :: Key(s[i]) <= Key(s[j]) }

  lemma {:induction false} InsertSorts(s: Events, e: AuditEvent)
    requires SortedByKey(s)
    ensures SortedByKey(InsertByKey(s, e)) && multiset(InsertByKey(s, e)) == multiset(s) + multiset{e}
  {
    hide Key;
    if s != [] && Key(s[|s| - 1]) > Key(e) {
      var init, last := s[..|s| - 1], s[|s| - 1];
      assert s == init + [last];
      InsertSorts(init, e);
      InsertStaysBelow(init, e, last);
    }
  }

  lemma InsertStaysBelow(init: Events, e: AuditEvent, last: AuditEvent)
    requires Key(e) <= Key(last) && forall i | 0 <= i < |init| :: Key(init[i]) <= Key(last)
    requires multiset(InsertByKey(init, e)) == multiset(init) + multiset{e}
    ensures forall i | 0 <= i < |InsertByKey(init, e)| :: Key(InsertByKey(init, e)[i]) <= Key(last)
  {
    hide Key;
    var r := InsertByKey(init, e);
    hide InsertByKey;
    forall i | 0 <= i < |r| ensures Key(r[i]) <= Key(last) {
      assert r[i] in multiset(r);
      assert r[i] == e || r[i] in init;
    }
  }

  /** Whatever a file holds, loading orders it by time and loses nothing. */
  lemma {:induction false} SortSorts(s: Events)
    ensures SortedByKey(SortByKey(s)) && multiset(SortByKey(s)) == multiset(s)
  {
    hide InsertByKey;
    hide SortedByKey;
    if s != [] {
      SortSorts(s[..|s| - 1]);
      InsertSorts(SortByKey(s[..|s| - 1]), s[|s| - 1]);
      assert s == s[..|s| - 1] + [s[|s| - 1]];
    } else {
      NothingIsSorted();
    }
  }

  lemma NothingIsSorted()
    ensures SortedByKey([])
  {
  }

  predicate InOrder(s: Events) { forall i, j | 0 <= i < j < |s| :: s[i].timestamp <= s[j].timestamp }

  lemma {:induction false} SortKeepsOrder(s: Events)
    requires InOrder(s)
    ensures SortByKey(s) == s
  {
    if s != [] {
      var init, last := s[..|s| - 1], s[|s| - 1];
      SortKeepsOrder(init);
      assert init + [last] == s;
      assert init != [] ==> init[|init| - 1] == s[|s| - 2];
    }
  }

  /** The events with sort key `k`, in order. */
  function WithKey(s: Events, k: nat): Events {
    if s == [] then []
    else WithKey(s[..|s| - 1], k) + if Key(s[|s| - 1]) == k then [s[|s| - 1]] else []
  }

  lemma WithKeyLast(s: Events, e: AuditEvent, k: nat)
    ensures WithKey(s + [e], k) == WithKey(s, k) + if Key(e) == k then [e] else []
  {
    assert (s + [e])[..|s|] == s;
  }

  lemma {:induction false} InsertIsStable(s: Events, e: AuditEvent, k: nat)
    ensures WithKey(InsertByKey(s, e), k) == WithKey(s, k) + if Key(e) == k then [e] else []
  {
    hide Key;
    hide WithKey;
    if s == [] || Key(s[|s| - 1]) <= Key(e) {
      WithKeyLast(s, e, k);
    } else {
      var init, last := s[..|s| - 1], s[|s| - 1];
      assert s == init + [last];
      InsertIsStable(init, e, k);
      WithKeyLast(InsertByKey(init, e), last, k);
      WithKeyLast(init, last, k);
    }
  }

  /** The sort is stable, and from the epoch on it is by time. */
  lemma {:induction false} SortIsStableByTime(s: Events, k: nat)
    ensures WithKey(SortByKey(s), k) == WithKey(s, k)
    ensures (forall i | 0 <= i < |s| :: s[i].timestamp >= 0) ==> InOrder(SortByKey(s))
  {
    hide InsertByKey;
    if s != [] {
      SortIsStableByTime(s[..|s| - 1], k);
      InsertIsStable(SortByKey(s[..|s| - 1]), s[|s| - 1], k);
    }
    if forall i | 0 <= i < |s| :: s[i].timestamp >= 0 {
      SortSorts(s);
      SameTimes(s, SortByKey(s));
    }
  }

  lemma SameTimes(s: Events, r: Events)
    requires (forall i | 0 <= i < |s| :: s[i].timestamp >= 0) && multiset(r) == multiset(s) && SortedByKey(r)
    ensures InOrder(r)
  {
    forall i | 0 <= i < |r| ensures r[i].timestamp >= 0 {
      assert r[i] in multiset(r) && r[i] in multiset(s) && r[i] in s;
    }
  }

  // ---------------------------------------------------------------- the log in place

  class InMemoryAuditLog {
    const cfg: Config
    /** The least time between two writes that the configuration asks for. */
    const persistInterval: nat
    var events: Events
    /** The history file, when there is one. */
    var file: Option<Events>
    /** The monotonic clock when the interval last ran out. */
    var lastPersist: int

    constructor New(capacity: nat)
      ensures cfg == Config(capacity, None) && events == [] && file == None
    {
      cfg := Config(capacity, None);
      persistInterval := 0;
      events := [];
      file := None;
      lastPersist := 0;
    }

    constructor WithPersistence(capacity: nat, file: Option<Events>, retention: nat, interval: nat, now: int, tick: nat)
      ensures cfg == Config(capacity, Some(retention)) && this.file == file && persistInterval == interval
      ensures events == Loaded(cfg, file, now)
      ensures lastPersist == if interval <= tick then tick - interval else tick
    {
      cfg := Config(capacity, Some(retention));
      persistInterval := interval;
      this.file := file;
      lastPersist := if interval <= tick then tick - interval else tick;
      new;
      events := LoadPersistedEvents(cfg, file, now);
    }

    method PruneRetention(now: int)
      modifies this`events
      ensures events == Pruned(cfg, old(events), now)
    {
      if cfg.retention.Some? {
        var cutoff := now - cfg.retention.value;
        while |events| > 0
          invariant DropExpired(cfg, events, now) == DropExpired(cfg, old(events), now)
          decreases |events|
        {
          if events[0].timestamp < cutoff {
            events := events[1..];
          } else {
            break;
          }
        }
      }
      ghost var kept := events;
      assert kept == DropExpired(cfg, old(events), now);
      while |events| > cfg.capacity
        invariant |events| <= |kept| && events == kept[|kept| - |events|..]
        invariant |kept| > cfg.capacity ==> |events| >= cfg.capacity
        invariant |kept| <= cfg.capacity ==> events == kept
      {
        events := events[1..];
      }
    }

    /** Whether the interval has run out; if so it starts again. */
    method ShouldPersist(tick: nat) returns (due: bool)
      modifies this`lastPersist
      ensures due <==> tick - old(lastPersist) >= persistInterval
      ensures lastPersist == if due then tick else old(lastPersist)
    {
      if tick - lastPersist >= persistInterval {
        lastPersist := tick;
        return true;
      }
      return false;
    }

    /** Every append writes the file, whether or not the persist interval has run out:
        the guard also lets a snapshot through when there is none yet, and there is none. */
    method Append(event: AuditEvent, now: int, tick: nat)
      modifies this
      ensures events == Appended(cfg, old(events), event, now)
      ensures file == if cfg.capacity > 0 && cfg.retention.Some? then Some(events) else old(file)
    {
      if cfg.capacity == 0 {
        return;
      }
      var snapshotToPersist: Option<Events> := None;
      events := events + [event];
      PruneRetention(now);
      if cfg.retention.Some? {
        var shouldFlush := ShouldPersist(tick);
        if shouldFlush || snapshotToPersist.None? {
          snapshotToPersist := Some(events);
        }
      }
      if cfg.retention.Some? && snapshotToPersist.Some? {
        file := snapshotToPersist;
      }
    }

    /** The newest first. */
    method Recent(limit: nat) returns (r: Events)
      ensures |r| == if |events| < limit then |events| else limit
      ensures forall i | 0 <= i < |r| :: r[i] == events[|events| - 1 - i]
    {
      var all := events;
      var count := if |all| < limit then |all| else limit;
      r := seq(count, i requires 0 <= i < count => all[|all| - 1 - i]);
    }

    /** The destructor writes once more. */
    method Drop()
      modifies this`file
      ensures file == if cfg.retention.Some? then Some(events) else old(file)
    {
      if cfg.retention.Some? {
        file := Some(events);
      }
    }
  }

  method LoadPersistedEvents(cfg: Config, file: Option<Events>, now: int) returns (events: Events)
    ensures events == Loaded(cfg, file, now)
  {
    if cfg.capacity == 0 {
      return [];
    }
    if file.None? {
      return [];
    }
    events := [];
    for i := 0 to |file.value|
      invariant events == Fresh(cfg, file.value[..i], now)
    {
      assert file.value[..i + 1][..i] == file.value[..i];
      if !Expired(cfg, file.value[i], now) {
        events := events + [file.value[i]];
      }
    }
    assert file.value[..|file.value|] == file.value;
    events := SortByKey(events);
    if |events| > cfg.capacity {
      events := events[|events| - cfg.capacity..];
    }
  }

  // ---------------------------------------------------------------- pruning and the history

  /** Exactly the first `k` events have expired. */
  predicate ExpiredUpTo(cfg: Config, s: Events, now: int, k: nat) {
    k <= |s| && forall i | 0 <= i < |s| :: Expired(cfg, s[i], now) <==> i < k
  }

  function Cut(cfg: Config, s: Events, now: int): nat {
    if s != [] && Expired(cfg, s[0], now) then 1 + Cut(cfg, s[1..], now) else 0
  }

  /** Events in time order expire from the front. */
  lemma {:induction false} ExpiryIsAPrefix(cfg: Config, s: Events, now: int)
    requires InOrder(s)
    ensures ExpiredUpTo(cfg, s, now, Cut(cfg, s, now))
    decreases |s|
  {
    if s != [] {
      if Expired(cfg, s[0], now) {
        ExpiryIsAPrefix(cfg, s[1..], now);
        assert forall i | 0 < i < |s| :: s[i] == s[1..][i - 1];
      }
    }
  }

  lemma {:induction false} DropExpiredIsSuffix(cfg: Config, s: Events, now: int, k: nat)
    requires ExpiredUpTo(cfg, s, now, k)
    ensures DropExpired(cfg, s, now) == s[k..]
    decreases |s|
  {
    if k > 0 {
      assert forall i | 0 <= i < |s| - 1 :: s[1..][i] == s[i + 1];
      DropExpiredIsSuffix(cfg, s[1..], now, k - 1);
      assert s[1..][k - 1..] == s[k..];
    } else {
      assert s[0..] == s;
    }
  }

  lemma ExpiredInit(cfg: Config, s: Events, now: int, k: nat)
    requires ExpiredUpTo(cfg, s, now, k) && s != []
    ensures var n := |s| - 1;
            ExpiredUpTo(cfg, s[..n], now, if k <= n then k else n) && (Expired(cfg, s[n], now) <==> n < k)
  {
    hide Expired;
  }

  lemma SuffixOfInit(s: Events, k: nat)
    requires s != [] && k < |s|
    ensures s[..|s| - 1][k..] + [s[|s| - 1]] == s[k..]
  {
  }

  lemma {:induction false} FreshIsSuffix(cfg: Config, s: Events, now: int, k: nat)
    requires ExpiredUpTo(cfg, s, now, k)
    ensures k <= |s| && Fresh(cfg, s, now) == s[k..]
    decreases |s|
  {
    hide Expired;
    if s != [] {
      ExpiredInit(cfg, s, now, k);
      assert k <= |s|;
      hide ExpiredUpTo;
      var n := |s| - 1;
      FreshIsSuffix(cfg, s[..n], now, if k <= n then k else n);
      if k <= n {
        SuffixOfInit(s, k);
      } else {
        assert s[..n][n..] == [];
      }
    }
  }

  /** The first event of `s` that is kept at `now`. */
  function KeptFrom(cfg: Config, s: Events, now: int): int {
    var k, m := Cut(cfg, s, now), |s| - cfg.capacity;
    if k < m then m else k
  }

  lemma NewestOfSuffix(s: Events, k: nat, n: nat)
    requires k <= |s|
    ensures Newest(s[k..], n) == if |s| - k > n then s[|s| - n..] else s[k..]
  {
  }

  lemma CutBound(cfg: Config, s: Events, now: int)
    requires InOrder(s)
    ensures 0 <= KeptFrom(cfg, s, now) <= |s|
  {
    ExpiryIsAPrefix(cfg, s, now);
    hide Cut;
  }

  lemma KeptIsSuffix(cfg: Config, s: Events, now: int)
    requires InOrder(s)
    ensures 0 <= KeptFrom(cfg, s, now) <= |s| && Kept(cfg, s, now) == s[KeptFrom(cfg, s, now)..]
  {
    var k := Cut(cfg, s, now);
    ExpiryIsAPrefix(cfg, s, now);
    FreshIsSuffix(cfg, s, now, k);
    hide Fresh;
    hide Cut;
    NewestOfSuffix(s, k, cfg.capacity);
  }

  /** What is kept, by times and numbers alone: the longest end of the history with at most
      `capacity` events and none older than the retention. */
  lemma KeptByTimes(cfg: Config, s: Events, now: int) returns (from: nat)
    requires InOrder(s)
    ensures from <= |s| && Kept(cfg, s, now) == s[from..] && |s| - from <= cfg.capacity
    ensures cfg.retention.Some? ==> forall i | from <= i < |s| :: now - s[i].timestamp <= cfg.retention.value
    ensures from > 0 ==>
              (|s| - from == cfg.capacity || (cfg.retention.Some? && now - s[from - 1].timestamp > cfg.retention.value))
  {
    KeptIsSuffix(cfg, s, now);
    ExpiryIsAPrefix(cfg, s, now);
    hide Kept;
    hide Cut;
    from := KeptFrom(cfg, s, now);
  }

  lemma ExpiredSuffix(cfg: Config, s: Events, now: int, k: nat, a: nat)
    requires ExpiredUpTo(cfg, s, now, k) && a <= |s|
    ensures ExpiredUpTo(cfg, s[a..], now, if a < k then k - a else 0)
  {
    hide Expired;
    assert forall i | 0 <= i < |s| - a :: s[a..][i] == s[a + i];
  }

  function Later(a: nat, b: nat): nat { if a < b then b else a }

  lemma SuffixDrops(cfg: Config, s: Events, a: nat, now: int, k: nat)
    requires ExpiredUpTo(cfg, s, now, k) && a <= |s|
    ensures DropExpired(cfg, s[a..], now) == Fresh(cfg, s[a..], now) == s[Later(a, k)..]
  {
    var t, j := s[a..], if a < k then k - a else 0;
    ExpiredSuffix(cfg, s, now, k, a);
    DropExpiredIsSuffix(cfg, t, now, j);
    FreshIsSuffix(cfg, t, now, j);
    hide Fresh;
    hide DropExpired;
    assert t[j..] == s[a + j..];
  }

  /** Pruning a suffix of the history at `now` only moves its start. */
  lemma SuffixKept(cfg: Config, s: Events, a: nat, now: int)
    requires InOrder(s) && a <= |s|
    ensures 0 <= KeptFrom(cfg, s, now) <= |s|
    ensures Pruned(cfg, s[a..], now) == Kept(cfg, s[a..], now) == s[Later(a, KeptFrom(cfg, s, now))..]
  {
    hide Cut;
    hide Fresh;
    hide DropExpired;
    var k := Cut(cfg, s, now);
    ExpiryIsAPrefix(cfg, s, now);
    SuffixDrops(cfg, s, a, now, k);
    hide InOrder;
    NewestOfSuffix(s, Later(a, k), cfg.capacity);
    hide Newest;
  }

  /** Time and new events only move the kept part to the right. */
  lemma KeptMovesRight(cfg: Config, history: Events, was: int, later: Events, now: int)
    requires InOrder(later) && history <= later && was <= now
    ensures InOrder(history) && KeptFrom(cfg, history, was) <= KeptFrom(cfg, later, now)
  {
    assert forall i | 0 <= i < |history| :: history[i] == later[i];
    ExpiryIsAPrefix(cfg, history, was);
    ExpiryIsAPrefix(cfg, later, now);
    var k := Cut(cfg, history, was);
    hide Cut;
    if k > 0 {
      assert Expired(cfg, history[k - 1], was);
      assert Expired(cfg, later[k - 1], now);
    }
  }

  /** Appending to the log is appending to the history. */
  lemma AppendedIsKept(cfg: Config, history: Events, was: int, e: AuditEvent, now: int)
    requires InOrder(history + [e]) && was <= now
    ensures Appended(cfg, Kept(cfg, history, was), e, now) == Kept(cfg, history + [e], now)
  {
    var h := history + [e];
    KeptMovesRight(cfg, history, was, h, now);
    KeptIsSuffix(cfg, history, was);
    KeptIsSuffix(cfg, h, now);
    hide Kept;
    hide Pruned;
    if cfg.capacity == 0 {
      assert KeptFrom(cfg, history, was) == |history| by { CutBound(cfg, history, was); }
      assert KeptFrom(cfg, h, now) == |h| by { CutBound(cfg, h, now); }
    } else {
      var a := KeptFrom(cfg, history, was);
      hide KeptFrom;
      assert history[a..] + [e] == h[a..];
      SuffixKept(cfg, h, a, now);
    }
  }

  lemma SuffixInOrder(s: Events, k: nat)
    requires InOrder(s) && k <= |s|
    ensures InOrder(s[k..])
  {
    assert forall i | 0 <= i < |s| - k :: s[k..][i] == s[k + i];
  }

  lemma NewestNone(s: Events)
    ensures Newest(s, 0) == []
  {
  }

  /** Loading a snapshot equals pruning it at the same instant. */
  lemma LoadingIsPruning(cfg: Config, snapshot: Events, now: int)
    requires InOrder(snapshot)
    ensures Loaded(cfg, Some(snapshot), now) == Pruned(cfg, snapshot, now) == Kept(cfg, snapshot, now)
  {
    hide Cut;
    hide Fresh;
    hide DropExpired;
    hide SortByKey;
    hide Newest;
    hide InOrder;
    var k := Cut(cfg, snapshot, now);
    ExpiryIsAPrefix(cfg, snapshot, now);
    DropExpiredIsSuffix(cfg, snapshot, now, k);
    FreshIsSuffix(cfg, snapshot, now, k);
    SuffixInOrder(snapshot, k);
    SortKeepsOrder(snapshot[k..]);
    NewestNone(snapshot[k..]);
  }

  /** Loading what an earlier instant kept gives what this instant keeps. */
  lemma LoadedIsKept(cfg: Config, history: Events, was: int, now: int)
    requires InOrder(history) && was <= now
    ensures Loaded(cfg, Some(Kept(cfg, history, was)), now) == Kept(cfg, history, now)
  {
    KeptMovesRight(cfg, history, was, history, now);
    KeptIsSuffix(cfg, history, was);
    KeptIsSuffix(cfg, history, now);
    hide Kept;
    hide Loaded;
    hide Pruned;
    var a := KeptFrom(cfg, history, was);
    hide KeptFrom;
    SuffixKept(cfg, history, a, now);
    assert InOrder(history[a..]);
    LoadingIsPruning(cfg, history[a..], now);
  }

  // ---------------------------------------------------------------- runs with restarts

  /** A clean restart runs the destructor first; a crash leaves the file as it was. */
  datatype Op = Append(event: AuditEvent, now: int) | Restart(clean: bool, now: int)

  datatype State = State(events: Events, file: Option<Events>)

  function Step(cfg: Config, s: State, op: Op): State {
    match op
    case Append(e, now) =>
      var events := Appended(cfg, s.events, e, now);
      State(events, if cfg.capacity > 0 && cfg.retention.Some? then Some(events) else s.file)
    case Restart(clean, now) =>
      var file := if clean && cfg.retention.Some? then Some(s.events) else s.file;
      State(Loaded(cfg, file, now), file)
  }

  function After(cfg: Config, ops: seq<Op>): State {
    if ops == [] then State([], None) else Step(cfg, After(cfg, ops[..|ops| - 1]), ops[|ops| - 1])
  }

  /** All events ever appended. */
  function History(ops: seq<Op>): Events {
    if ops == [] then []
    else
      var before, op := History(ops[..|ops| - 1]), ops[|ops| - 1];
      if op.Append? then before + [op.event] else before
  }

  function WithoutRestarts(ops: seq<Op>): seq<Op> {
    if ops == [] then []
    else
      var before, op := WithoutRestarts(ops[..|ops| - 1]), ops[|ops| - 1];
      if op.Append? then before + [op] else before
  }

  ghost predicate ClockRuns(ops: seq<Op>) { forall i, j | 0 <= i < j < |ops| :: ops[i].now <= ops[j].now }

  /** Without persistence there is nothing to restart from. */
  predicate Restartable(cfg: Config, ops: seq<Op>) {
    cfg.retention.Some? || forall i | 0 <= i < |ops| :: ops[i].Append?
  }

  ghost predicate FileFits(cfg: Config, s: State, history: Events, now: int) {
    cfg.retention.Some? ==>
      && (s.file.None? ==> s.events == [] && (cfg.capacity == 0 || history == []))
      && (s.file.Some? ==> exists t | t <= now :: s.file.value == Kept(cfg, history, t))
  }

  lemma NothingKept(cfg: Config, history: Events, now: int)
    requires cfg.capacity == 0 || history == []
    ensures Kept(cfg, history, now) == []
  {
  }

  /** The log after any run with restarts is what the specification keeps of the full
      history at the time of the last step. */
  lemma {:induction false} LogIsNewestHistory(cfg: Config, ops: seq<Op>)
    requires Restartable(cfg, ops) && ops != [] && ClockRuns(ops) && InOrder(History(ops))
    ensures var last := ops[|ops| - 1];
            && After(cfg, ops).events == Kept(cfg, History(ops), last.now)
            && FileFits(cfg, After(cfg, ops), History(ops), last.now)
    decreases |ops|
  {
    var init, op := ops[..|ops| - 1], ops[|ops| - 1];
    var s, history := After(cfg, init), History(init);
    var was := if init == [] then op.now else init[|init| - 1].now;
    assert InOrder(history) by {
      assert forall i | 0 <= i < |history| :: history[i] == History(ops)[i];
    }
    if init == [] {
      NothingKept(cfg, history, was);
    } else {
      LogIsNewestHistory(cfg, init);
    }
    assert was <= op.now && s.events == Kept(cfg, history, was) && FileFits(cfg, s, history, was);
    StepFits(cfg, s, history, was, op);
  }

  lemma StepFits(cfg: Config, s: State, history: Events, was: int, op: Op)
    requires (cfg.retention.Some? || op.Append?) && was <= op.now
    requires InOrder(if op.Append? then history + [op.event] else history)
    requires s.events == Kept(cfg, history, was) && FileFits(cfg, s, history, was)
    ensures var r, h := Step(cfg, s, op), if op.Append? then history + [op.event] else history;
            r.events == Kept(cfg, h, op.now) && FileFits(cfg, r, h, op.now)
  {
    match op
    case Append(e, now) =>
      AppendedIsKept(cfg, history, was, e, now);
      if cfg.capacity == 0 {
        NothingKept(cfg, history + [e], now);
        NothingKept(cfg, history, was);
        FileStaysEmpty(cfg, s, history, was, history + [e], now);
      }
    case Restart(clean, now) =>
      var file := Step(cfg, s, op).file;
      if file.Some? {
        var t := if clean then was else FileTime(cfg, s, history, was);
        LoadedIsKept(cfg, history, t, now);
      } else {
        NothingKept(cfg, history, now);
      }
  }

  lemma FileStaysEmpty(cfg: Config, s: State, history: Events, was: int, h: Events, now: int)
    requires cfg.capacity == 0 && FileFits(cfg, s, history, was)
    ensures FileFits(cfg, State([], s.file), h, now)
  {
    NothingKept(cfg, h, now);
    if cfg.retention.Some? && s.file.Some? {
      var t :| t <= was && s.file.value == Kept(cfg, history, t);
      NothingKept(cfg, history, t);
    }
  }

  ghost function FileTime(cfg: Config, s: State, history: Events, was: int): (t: int)
    requires cfg.retention.Some? && s.file.Some? && FileFits(cfg, s, history, was)
    ensures t <= was && s.file.value == Kept(cfg, history, t)
  {
    var t :| t <= was && s.file.value == Kept(cfg, history, t);
    t
  }

  lemma {:induction false} HistoryWithoutRestarts(ops: seq<Op>)
    ensures History(WithoutRestarts(ops)) == History(ops)
  {
    if ops != [] {
      var init, op := ops[..|ops| - 1], ops[|ops| - 1];
      HistoryWithoutRestarts(init);
      var before := WithoutRestarts(init);
      if op.Append? {
        assert (before + [op])[..|before|] == before;
      }
    }
  }

  lemma {:induction false} ClockWithoutRestarts(ops: seq<Op>)
    requires ClockRuns(ops)
    ensures ClockRuns(WithoutRestarts(ops))
    ensures ops != [] ==> forall i | 0 <= i < |WithoutRestarts(ops)| :: WithoutRestarts(ops)[i].now <= ops[|ops| - 1].now
  {
    if ops != [] {
      var init, op := ops[..|ops| - 1], ops[|ops| - 1];
      ClockWithoutRestarts(init);
      assert init != [] ==> init[|init| - 1] == ops[|ops| - 2];
    }
  }

  /** Restarts, clean or not, at any points, do not show: after every append the log is
      the same as in the run without them. */
  lemma RestartsDoNotShow(cfg: Config, ops: seq<Op>)
    requires cfg.retention.Some? && ops != [] && ClockRuns(ops) && InOrder(History(ops))
    requires ops[|ops| - 1].Append?
    ensures After(cfg, ops).events == After(cfg, WithoutRestarts(ops)).events
  {
    var rest := WithoutRestarts(ops);
    HistoryWithoutRestarts(ops);
    ClockWithoutRestarts(ops);
    LogIsNewestHistory(cfg, ops);
    LogIsNewestHistory(cfg, rest);
    assert rest[|rest| - 1] == ops[|ops| - 1];
  }
}
