/** Appends from several threads: each takes its snapshot under the lock and writes it
    to the file outside. */
module AuditWrites {
  import opened Wrappers
  import opened AuditLog

  type Tid = nat

  /** The part of an append under the lock, and its write. */
  datatype Act = Locked(tid: Tid, event: AuditEvent, now: int) | Write(tid: Tid)

  /** `file` is what this run has written. */
  datatype Shared = Shared(events: Events, snapshots: map<Tid, Events>, file: Option<Events>)

  /** Nothing if the thread is not at that point of an append, or the log keeps no file. */
  function Next(cfg: Config, s: Shared, a: Act): Option<Shared> {
    match a
    case Locked(t, e, now) =>
      if t in s.snapshots || cfg.capacity == 0 || cfg.retention.None? then None
      else
        var events := Appended(cfg, s.events, e, now);
        Some(Shared(events, s.snapshots[t := events], s.file))
    case Write(t) =>
      if t !in s.snapshots then None
      else Some(Shared(s.events, s.snapshots - {t}, Some(s.snapshots[t])))
  }

  ghost predicate Run(cfg: Config, ss: seq<Shared>, acts: seq<Act>) {
    && |ss| == |acts| + 1
    && ss[0].snapshots == map[] && ss[0].file.None?
    && forall i | 0 <= i < |acts| :: Next(cfg, ss[i], acts[i]) == Some(ss[i + 1])
  }

  /** Act `i` is the locked part whose snapshot thread `t` holds before act `n`. */
  ghost predicate Holds(acts: seq<Act>, i: nat, n: nat, t: Tid)
    requires n <= |acts|
  {
    && i < n && acts[i].Locked? && acts[i].tid == t
    && forall j | i < j < n :: acts[j].tid != t
  }

  /** Act `j` writes what act `i` took, and no write follows before act `n`. */
  ghost predicate LastWrite(acts: seq<Act>, i: nat, j: nat, n: nat)
    requires n <= |acts|
  {
    && j < n && acts[j].Write? && Holds(acts, i, j, acts[j].tid)
    && forall k | j < k < n :: !acts[k].Write?
  }

  lemma {:induction false} SnapshotIsLog(cfg: Config, ss: seq<Shared>, acts: seq<Act>, n: nat, t: Tid) returns (i: nat)
    requires Run(cfg, ss, acts) && n <= |acts| && t in ss[n].snapshots
    ensures Holds(acts, i, n, t) && ss[n].snapshots[t] == ss[i + 1].events
  {
    hide Appended;
    var m := n - 1;
    assert Next(cfg, ss[m], acts[m]) == Some(ss[m + 1]);
    if acts[m].tid == t {
      i := m;
    } else {
      i := SnapshotIsLog(cfg, ss, acts, m, t);
    }
  }

  /** In every interleaving the file is the log as the last writer's append left it. */
  lemma {:induction false} FileIsLastWritten(cfg: Config, ss: seq<Shared>, acts: seq<Act>, n: nat) returns (i: nat, j: nat)
    requires Run(cfg, ss, acts) && n <= |acts| && ss[n].file.Some?
    ensures LastWrite(acts, i, j, n) && ss[n].file == Some(ss[i + 1].events)
  {
    hide Appended;
    var m := n - 1;
    assert Next(cfg, ss[m], acts[m]) == Some(ss[m + 1]);
    if acts[m].Write? {
      i := SnapshotIsLog(cfg, ss, acts, m, acts[m].tid);
      j := m;
    } else {
      i, j := FileIsLastWritten(cfg, ss, acts, m);
    }
  }

  lemma {:induction false} LogStays(cfg: Config, ss: seq<Shared>, acts: seq<Act>, i: nat, n: nat)
    requires Run(cfg, ss, acts) && i <= n <= |acts| && forall k | i <= k < n :: acts[k].Write?
    ensures ss[n].events == ss[i].events
  {
    hide Appended;
    if i < n {
      LogStays(cfg, ss, acts, i, n - 1);
      assert Next(cfg, ss[n - 1], acts[n - 1]) == Some(ss[n - 1 + 1]);
    }
  }

  /** When the last write is that of the last append, the file is the log. */
  lemma FileIsLog(cfg: Config, ss: seq<Shared>, acts: seq<Act>, n: nat, i: nat, j: nat)
    requires Run(cfg, ss, acts) && n <= |acts| && LastWrite(acts, i, j, n)
    requires forall k | i < k < n :: acts[k].Write?
    ensures ss[n].file == Some(ss[n].events)
  {
    hide Next;
    FileIs(cfg, ss, acts, n, i, j);
    LogStays(cfg, ss, acts, i + 1, n);
  }

  lemma {:induction false} WriteShows(cfg: Config, ss: seq<Shared>, acts: seq<Act>, j: nat, n: nat)
    requires Run(cfg, ss, acts) && j < n <= |acts| && acts[j].Write?
    ensures ss[n].file.Some?
  {
    hide Appended;
    assert Next(cfg, ss[n - 1], acts[n - 1]) == Some(ss[n - 1 + 1]);
    if j < n - 1 { WriteShows(cfg, ss, acts, j, n - 1); }
  }

  lemma {:induction false} DropEnds(cfg: Config, s: Events, e: AuditEvent, now: int)
    requires !Expired(cfg, e, now)
    ensures var r := DropExpired(cfg, s + [e], now); r != [] && r[|r| - 1] == e
    decreases |s|
  {
    hide Expired;
    if s != [] {
      assert (s + [e])[1..] == s[1..] + [e];
      DropEnds(cfg, s[1..], e, now);
    }
  }

  /** An event that has not expired is the newest in the log after its append. */
  lemma AppendEnds(cfg: Config, s: Events, e: AuditEvent, now: int)
    requires cfg.capacity > 0 && !Expired(cfg, e, now)
    ensures var r := Appended(cfg, s, e, now); r != [] && r[|r| - 1] == e
  {
    DropEnds(cfg, s, e, now);
    hide DropExpired;
  }

  lemma {:induction false} LastLocked(acts: seq<Act>, i: nat, n: nat) returns (m: nat)
    requires i < n <= |acts| && acts[i].Locked?
    ensures i <= m < n && acts[m].Locked? && forall k | m < k < n :: acts[k].Write?
  {
    m := n - 1;
    if acts[m].Write? {
      m := LastLocked(acts, i, n - 1);
    }
  }

  lemma LockedEnds(cfg: Config, ss: seq<Shared>, acts: seq<Act>, m: nat)
    requires Run(cfg, ss, acts) && m < |acts| && acts[m].Locked? && !Expired(cfg, acts[m].event, acts[m].now)
    ensures var r := ss[m + 1].events; r != [] && r[|r| - 1] == acts[m].event
  {
    hide Appended;
    assert Next(cfg, ss[m], acts[m]) == Some(ss[m + 1]);
    AppendEnds(cfg, ss[m].events, acts[m].event, acts[m].now);
  }

  /** For events that have not expired when they are appended and differ from the one
      written last, the file is the log exactly when no append came after that one. */
  lemma FileIsLogIff(cfg: Config, ss: seq<Shared>, acts: seq<Act>, n: nat, i: nat, j: nat)
    requires Run(cfg, ss, acts) && n <= |acts| && LastWrite(acts, i, j, n)
    requires forall k | i <= k < n && acts[k].Locked? :: !Expired(cfg, acts[k].event, acts[k].now)
    requires forall k | i < k < n && acts[k].Locked? :: acts[k].event != acts[i].event
    ensures ss[n].file == Some(ss[n].events) <==> forall k | i < k < n :: acts[k].Write?
  {
    hide Expired;
    var m := LastLocked(acts, i, n);
    if m == i {
      FileIsLog(cfg, ss, acts, n, i, j);
    } else {
      assert acts[m].Locked? && acts[m].event != acts[i].event;
      FileIs(cfg, ss, acts, n, i, j);
      LogStays(cfg, ss, acts, m + 1, n);
      LockedEnds(cfg, ss, acts, i);
      LockedEnds(cfg, ss, acts, m);
    }
  }

  lemma FileIs(cfg: Config, ss: seq<Shared>, acts: seq<Act>, n: nat, i: nat, j: nat)
    requires Run(cfg, ss, acts) && n <= |acts| && LastWrite(acts, i, j, n)
    ensures ss[n].file == Some(ss[i + 1].events)
  {
    WriteShows(cfg, ss, acts, j, n);
    var i', j' := FileIsLastWritten(cfg, ss, acts, n);
    assert j' == j;
    assert i' == i;
  }

  /** One thread at a time: every append writes before anything else happens. */
  ghost predicate OneAtATime(acts: seq<Act>) {
    forall k | 0 <= k < |acts| - 1 && acts[k].Locked? :: acts[k + 1] == Write(acts[k].tid)
  }

  /** Then the file is the log after every write. */
  lemma SequentialFileIsLog(cfg: Config, ss: seq<Shared>, acts: seq<Act>, n: nat)
    requires Run(cfg, ss, acts) && OneAtATime(acts) && 0 < n <= |acts| && acts[n - 1].Write?
    ensures ss[n].file == Some(ss[n].events)
  {
    WriteShows(cfg, ss, acts, n - 1, n);
    var i, j := FileIsLastWritten(cfg, ss, acts, n);
    assert j == n - 1;
    assert acts[i + 1] == Write(acts[i].tid);
    assert i + 1 == j;
    FileIsLog(cfg, ss, acts, n, i, j);
  }

  /** Two appends at once can leave the file one event behind the log. */
  lemma StaleFile(e: AuditEvent, f: AuditEvent) returns (ss: seq<Shared>, acts: seq<Act>)
    ensures var cfg := Config(2, Some(0));
            && Run(cfg, ss, acts) && ss[|acts|].snapshots == map[]
            && ss[|acts|].events == [e, f] && ss[|acts|].file == Some([e])
  {
    var cfg := Config(2, Some(0));
    acts := [Locked(1, e, e.timestamp), Locked(2, f, e.timestamp), Write(2), Write(1)];
    var s0 := Shared([], map[], None);
    var s1 := Shared([e], map[1 := [e]], None);
    var s2 := Shared([e, f], map[1 := [e], 2 := [e, f]], None);
    var s3 := Shared([e, f], map[1 := [e]], Some([e, f]));
    var s4 := Shared([e, f], map[], Some([e]));
    ss := [s0, s1, s2, s3, s4];
    assert [] + [e] == [e] && [e] + [f] == [e, f];
    assert Appended(cfg, [], e, e.timestamp) == [e];
    assert Appended(cfg, [e], f, e.timestamp) == [e, f];
    assert map[1 := [e], 2 := [e, f]] - {2} == map[1 := [e]];
    assert map[1 := [e]] - {1} == map[];
  }

  // ---------------------------------------------------------------- crashes and restarts

  /** The events appended by the first `n` acts, in the order of the lock. */
  ghost function Appends(acts: seq<Act>, n: nat): Events
    requires n <= |acts|
  {
    if n == 0 then []
    else Appends(acts, n - 1) + if acts[n - 1].Locked? then [acts[n - 1].event] else []
  }

  /** The time of the last append among the first `n` acts. */
  ghost function LastTime(acts: seq<Act>, n: nat, start: int): int
    requires n <= |acts|
  {
    if n == 0 then start else if acts[n - 1].Locked? then acts[n - 1].now else LastTime(acts, n - 1, start)
  }

  /** Events are appended in time order, under a clock that does not run backwards. */
  ghost predicate Timely(acts: seq<Act>, start: int) {
    && InOrder(Appends(acts, |acts|))
    && forall i | 0 <= i < |acts| && acts[i].Locked? :: LastTime(acts, i, start) <= acts[i].now
  }

  lemma {:induction false} AppendsGrow(acts: seq<Act>, n: nat, m: nat)
    requires n <= m <= |acts|
    ensures Appends(acts, n) <= Appends(acts, m)
  {
    if n < m { AppendsGrow(acts, n, m - 1); }
  }

  lemma OrderOfPrefix(acts: seq<Act>, start: int, n: nat)
    requires Timely(acts, start) && n <= |acts|
    ensures InOrder(Appends(acts, n))
  {
    AppendsGrow(acts, n, |acts|);
    assert forall k | 0 <= k < |Appends(acts, n)| :: Appends(acts, n)[k] == Appends(acts, |acts|)[k];
    hide Appends;
  }

  lemma LogMoves(cfg: Config, ss: seq<Shared>, acts: seq<Act>, m: nat)
    requires Run(cfg, ss, acts) && m < |acts|
    ensures ss[m + 1].events ==
            if acts[m].Locked? then Appended(cfg, ss[m].events, acts[m].event, acts[m].now) else ss[m].events
  {
    hide Appended;
    assert Next(cfg, ss[m], acts[m]) == Some(ss[m + 1]);
  }

  /** In every interleaving the log is what the specification keeps of all appends. */
  lemma {:induction false} LogIsKept(cfg: Config, ss: seq<Shared>, acts: seq<Act>, start: int, n: nat)
    requires Run(cfg, ss, acts) && ss[0].events == [] && Timely(acts, start) && n <= |acts|
    ensures ss[n].events == Kept(cfg, Appends(acts, n), LastTime(acts, n, start))
  {
    hide Appended;
    if n == 0 {
      NothingKept(cfg, [], start);
    } else {
      hide Kept;
      hide Next;
      hide InOrder;
      var m := n - 1;
      LogIsKept(cfg, ss, acts, start, m);
      LogMoves(cfg, ss, acts, m);
      if acts[m].Locked? {
        OrderOfPrefix(acts, start, n);
        AppendedIsKept(cfg, Appends(acts, m), LastTime(acts, m, start), acts[m].event, acts[m].now);
      } else {
        assert Appends(acts, m) + [] == Appends(acts, m);
      }
    }
  }

  lemma {:induction false} TimeMovesOn(acts: seq<Act>, start: int, n: nat, m: nat)
    requires Timely(acts, start) && n <= m <= |acts|
    ensures LastTime(acts, n, start) <= LastTime(acts, m, start)
  {
    if n < m { TimeMovesOn(acts, start, n, m - 1); }
  }

  lemma {:induction false} PendingStays(cfg: Config, ss: seq<Shared>, acts: seq<Act>, k: nat, n: nat)
    requires Run(cfg, ss, acts) && k < n <= |acts| && acts[k].Locked? && forall x | k < x < n :: !acts[x].Write?
    ensures acts[k].tid in ss[n].snapshots
  {
    hide Appended;
    var m := n - 1;
    assert Next(cfg, ss[m], acts[m]) == Some(ss[m + 1]);
    if k < m { PendingStays(cfg, ss, acts, k, m); }
  }

  /** A crash at any point loses only appends that were still under way, or that overlapped
      the append whose write came last: the log loaded afterwards is what the
      specification keeps of all appends up to that one. */
  lemma CrashLosesOnlyOverlapping(cfg: Config, ss: seq<Shared>, acts: seq<Act>, start: int, n: nat, now: int)
      returns (i: nat, j: nat)
    requires Run(cfg, ss, acts) && ss[0].events == [] && Timely(acts, start) && n <= |acts| && ss[n].file.Some?
    requires LastTime(acts, n, start) <= now
    ensures LastWrite(acts, i, j, n)
    ensures Loaded(cfg, ss[n].file, now) == Kept(cfg, Appends(acts, i + 1), now)
    ensures forall k | i < k < n && acts[k].Locked? :: k < j || acts[k].tid in ss[n].snapshots
  {
    hide Appends;
    hide LastTime;
    hide Kept;
    hide Loaded;
    hide Next;
    hide InOrder;
    i, j := FileIsLastWritten(cfg, ss, acts, n);
    LogIsKept(cfg, ss, acts, start, i + 1);
    OrderOfPrefix(acts, start, i + 1);
    TimeMovesOn(acts, start, i + 1, n);
    LoadedIsKept(cfg, Appends(acts, i + 1), LastTime(acts, i + 1, start), now);
    forall k | i < k < n && acts[k].Locked? && k >= j ensures acts[k].tid in ss[n].snapshots {
      PendingStays(cfg, ss, acts, k, n);
    }
  }

  /** A clean restart writes the log first and loses nothing. */
  lemma CleanRestartLosesNothing(cfg: Config, ss: seq<Shared>, acts: seq<Act>, start: int, n: nat, now: int)
    requires Run(cfg, ss, acts) && ss[0].events == [] && Timely(acts, start) && n <= |acts|
    requires LastTime(acts, n, start) <= now
    ensures Loaded(cfg, Some(ss[n].events), now) == Kept(cfg, Appends(acts, n), now)
  {
    hide Appends;
    hide LastTime;
    hide Kept;
    hide Loaded;
    hide InOrder;
    LogIsKept(cfg, ss, acts, start, n);
    OrderOfPrefix(acts, start, n);
    LoadedIsKept(cfg, Appends(acts, n), LastTime(acts, n, start), now);
  }
}
