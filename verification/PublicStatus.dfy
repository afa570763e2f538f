/** The public status tracker: cached component levels and the incidents they open
    and resolve. */
module PublicStatus {
  import opened Wrappers
  import opened Decimal

  datatype Component = Website | Account | Api | Notifications

  datatype Level = Unknown | Up | Degraded | Down {
    function Rank(): nat {
      match this case Unknown => 0 case Up => 1 case Degraded => 2 case Down => 3
    }

    predicate IsIncident() { Degraded? || Down? }

    function Severity(): Severity { if Down? then Major else Minor }
  }

  datatype Severity = Minor | Major

  datatype ServiceStatus = Active | DegradedService | Starting | Failed | Stopped | Standby

  datatype Snapshot = Snapshot(id: string, status: ServiceStatus)

  datatype Incident = Incident(id: string, component: Component, title: string, severity: Severity,
                               startedAt: int, resolvedAt: Option<int>)

  const U64_MAX: nat := 0xFFFF_FFFF_FFFF_FFFF

  function Max(a: Level, b: Level): Level { if a.Rank() < b.Rank() then b else a }

  function ComponentOf(id: string): Option<Component> {
    if "module:athenos-web::" <= id then Some(Website)
    else if "module:athenos-api::" <= id then Some(Api)
    else if "module:auth-service::" <= id || id == "identity-service" then Some(Account)
    else if "module:notification-service::" <= id then Some(Notifications)
    else None
  }

  function LevelOf(status: ServiceStatus): Level {
    match status
    case Failed | Stopped => Down
    case DegradedService | Starting => Degraded
    case Active => Up
    case Standby => Unknown
  }

  function DisplayName(c: Component): string {
    match c
    case Website => "Website"
    case Account => "Account & Login"
    case Api => "API"
    case Notifications => "Notifications"
  }

  function Title(c: Component, level: Level): string {
    DisplayName(c) + (match level case Down => " outage" case Degraded => " degraded" case _ => " recovered")
  }

  // ---------------------------------------------------------------- incident ids

  function Zeros(n: nat): (s: string)
    ensures |s| == n && forall i | 0 <= i < n :: s[i] == '0'
  {
    seq(n, _ => '0')
  }

  /** `inc-` and at least six digits. */
  function IncidentId(n: nat): string {
    var digits := Render(n);
    "inc-" + Zeros(if |digits| < 6 then 6 - |digits| else 0) + digits
  }

  /** The number an id was made from. */
  ghost function NumberOf(id: string): nat {
    if |id| >= 4 && AllDigits(id[4..]) then Value(id[4..]) else 0
  }

  lemma IdsAreUnique(n: nat)
    ensures NumberOf(IncidentId(n)) == n
  {
    var digits := Render(n);
    var zeros := Zeros(if |digits| < 6 then 6 - |digits| else 0);
    assert IncidentId(n)[4..] == zeros + digits;
    PaddingKeepsValue(zeros, digits);
  }

  // ---------------------------------------------------------------- component levels

  type Levels = map<string, Level>

  predicate Has(c: Component, services: Levels, level: Level) {
    exists id | id in services :: ComponentOf(id) == Some(c) && services[id] == level
  }

  /** The worst level among the component's services. */
  function Recomputed(c: Component, services: Levels): Level {
    if Has(c, services, Down) then Down
    else if Has(c, services, Degraded) then Degraded
    else if Has(c, services, Up) then Up
    else Unknown
  }

  lemma RecomputedIsMax(c: Component, services: Levels)
    ensures forall id | id in services && ComponentOf(id) == Some(c) ::
              services[id].Rank() <= Recomputed(c, services).Rank()
    ensures Recomputed(c, services) == Unknown || Has(c, services, Recomputed(c, services))
  {
    hide ComponentOf;
    forall id | id in services && ComponentOf(id) == Some(c)
      ensures services[id].Rank() <= Recomputed(c, services).Rank()
    {
      assert Has(c, services, services[id]);
    }
  }

  lemma HasAfterInsert(c: Component, services: Levels, id: string, level: Level, l: Level)
    requires id !in services
    ensures Has(c, services[id := level], l) <==> Has(c, services, l) || (ComponentOf(id) == Some(c) && level == l)
  {
    hide ComponentOf;
    var after := services[id := level];
    if Has(c, services, l) {
      var x :| x in services && ComponentOf(x) == Some(c) && services[x] == l;
      assert after[x] == l;
    }
    assert after[id] == level;
  }

  lemma InsertRaises(c: Component, services: Levels, id: string, level: Level)
    requires id !in services
    ensures Recomputed(c, services[id := level]) ==
            if ComponentOf(id) == Some(c) then Max(Recomputed(c, services), level) else Recomputed(c, services)
  {
    hide ComponentOf;
    HasAfterInsert(c, services, id, level, Up);
    HasAfterInsert(c, services, id, level, Degraded);
    HasAfterInsert(c, services, id, level, Down);
    hide Has;
  }

  // ---------------------------------------------------------------- the tracker as a value

  datatype State = State(sequence: nat, open: map<Component, Incident>, resolved: seq<Incident>,
                         components: map<Component, Level>, services: Levels)
  {
    function Level(c: Component): Level { if c in components then components[c] else Unknown }
  }

  const Empty: State := State(0, map[], [], map[], map[])

  function Opened(c: Component, level: Level, sequence: nat, now: int): Incident {
    Incident(IncidentId(sequence), c, Title(c, level), level.Severity(), now, None)
  }

  function Truncated(s: seq<Incident>, n: nat): seq<Incident> { if |s| > n then s[..n] else s }

  function Next(n: nat): nat { if n < U64_MAX then n + 1 else n }

  /** The incident bookkeeping when a component goes from `was` to `next`. */
  function Moved(s: State, c: Component, was: Level, next: Level, keep: nat, now: int): State {
    if !was.IsIncident() && next.IsIncident() then
      s.(sequence := Next(s.sequence), open := s.open[c := Opened(c, next, Next(s.sequence), now)])
    else if was.IsIncident() && next.IsIncident() && c in s.open then
      s.(open := s.open[c := s.open[c].(severity := next.Severity(), title := Title(c, next))])
    else if was.IsIncident() && !next.IsIncident() && c in s.open then
      s.(open := s.open - {c},
         resolved := Truncated([s.open[c].(resolvedAt := Some(now))] + s.resolved, keep))
    else s
  }

  function Applied(s: State, event: Snapshot, keep: nat, now: int): State {
    match ComponentOf(event.id)
    case None => s
    case Some(c) =>
      var services := s.services[event.id := LevelOf(event.status)];
      var next := Recomputed(c, services);
      Moved(s.(services := services, components := s.components[c := next]), c, s.Level(c), next, keep, now)
  }

  function Seeded(s: State, snapshot: seq<Snapshot>): State
    decreases |snapshot|
  {
    if snapshot == [] then s.(services := map[], components := map[])
    else
      var before, last := Seeded(s, snapshot[..|snapshot| - 1]), snapshot[|snapshot| - 1];
      match ComponentOf(last.id)
      case None => before
      case Some(c) =>
        var level := LevelOf(last.status);
        before.(services := before.services[last.id := level],
                components := before.components[c := if c in before.components then Max(before.components[c], level) else level])
  }

  // ---------------------------------------------------------------- the tracker in place

  class PublicStatusTracker {
    const maxRecentIncidents: nat
    var sequence: nat
    var openIncidents: map<Component, Incident>
    var resolvedIncidents: seq<Incident>
    var componentLevels: map<Component, Level>
    var serviceLevels: Levels

    ghost function Now(): State
      reads this
    {
      State(sequence, openIncidents, resolvedIncidents, componentLevels, serviceLevels)
    }

    constructor (maxRecentIncidents: nat)
      ensures Now() == Empty && this.maxRecentIncidents == maxRecentIncidents
    {
      this.maxRecentIncidents := maxRecentIncidents;
      sequence, openIncidents, resolvedIncidents := 0, map[], [];
      componentLevels, serviceLevels := map[], map[];
    }

    method SeedLevelsFromSnapshot(snapshot: seq<Snapshot>)
      modifies this
      ensures Now() == Seeded(old(Now()), snapshot)
    {
      hide ComponentOf;
      serviceLevels, componentLevels := map[], map[];
      for i := 0 to |snapshot|
        invariant Now() == Seeded(old(Now()), snapshot[..i])
      {
        var service := snapshot[i];
        assert snapshot[..i + 1][..i] == snapshot[..i];
        var component := ComponentOf(service.id);
        if component.None? {
          continue;
        }
        var status := LevelOf(service.status);
        serviceLevels := serviceLevels[service.id := status];
        var c := component.value;
        if c in componentLevels {
          componentLevels := componentLevels[c := Max(componentLevels[c], status)];
        } else {
          componentLevels := componentLevels[c := status];
        }
      }
      assert snapshot[..|snapshot|] == snapshot;
    }

    method ApplyTransition(event: Snapshot, now: int)
      modifies this
      ensures Now() == Applied(old(Now()), event, maxRecentIncidents, now)
    {
      hide ComponentOf;
      hide Recomputed;
      var component := ComponentOf(event.id);
      if component.None? {
        return;
      }
      var c := component.value;
      var previous := if c in componentLevels then componentLevels[c] else Unknown;
      serviceLevels := serviceLevels[event.id := LevelOf(event.status)];
      var current := Recomputed(c, serviceLevels);
      componentLevels := componentLevels[c := current];
      if !previous.IsIncident() && current.IsIncident() {
        sequence := if sequence < U64_MAX then sequence + 1 else sequence;
        var incident := Opened(c, current, sequence, now);
        openIncidents := openIncidents[c := incident];
        return;
      }
      if previous.IsIncident() && current.IsIncident() {
        if c in openIncidents {
          var open := openIncidents[c];
          openIncidents := openIncidents[c := open.(severity := current.Severity(), title := Title(c, current))];
        }
        return;
      }
      if previous.IsIncident() && !current.IsIncident() && c in openIncidents {
        var resolved := openIncidents[c].(resolvedAt := Some(now));
        openIncidents := openIncidents - {c};
        resolvedIncidents := [resolved] + resolvedIncidents;
        hide Truncated;
        TrimResolved();
      }
    }

    /** Drops the oldest resolved incidents over the limit. */
    method TrimResolved()
      modifies this`resolvedIncidents
      ensures resolvedIncidents == Truncated(old(resolvedIncidents), maxRecentIncidents)
    {
      ghost var all := resolvedIncidents;
      while |resolvedIncidents| > maxRecentIncidents
        invariant |resolvedIncidents| <= |all| && resolvedIncidents == all[..|resolvedIncidents|]
        invariant |all| > maxRecentIncidents ==> |resolvedIncidents| >= maxRecentIncidents
        invariant |all| <= maxRecentIncidents ==> resolvedIncidents == all
      {
        resolvedIncidents := resolvedIncidents[..|resolvedIncidents| - 1];
      }
    }
  }

  // ---------------------------------------------------------------- runs

  datatype Event = Event(snapshot: Snapshot, now: int)

  predicate DistinctIds(snapshot: seq<Snapshot>) {
    forall i, j | 0 <= i < j < |snapshot| :: snapshot[i].id != snapshot[j].id
  }

  /** The tracker after the seed and the first `n` events. */
  function After(seed: seq<Snapshot>, es: seq<Event>, keep: nat, n: nat): State
    requires n <= |es|
  {
    if n == 0 then Seeded(Empty, seed) else Applied(After(seed, es, keep, n - 1), es[n - 1].snapshot, keep, es[n - 1].now)
  }

  /** Every cached level is the recomputed one. */
  ghost predicate CacheIsRight(s: State) {
    forall c: Component :: s.Level(c) == Recomputed(c, s.services)
  }

  lemma {:induction false} SeedIsRight(seed: seq<Snapshot>)
    requires DistinctIds(seed)
    ensures CacheIsRight(Seeded(Empty, seed))
    ensures forall id | id in Seeded(Empty, seed).services :: exists i | 0 <= i < |seed| :: seed[i].id == id
  {
    hide ComponentOf;
    if seed == [] {
      assert forall c, l :: !Has(c, map[], l);
    } else {
      var init, last := seed[..|seed| - 1], seed[|seed| - 1];
      SeedIsRight(init);
      var before := Seeded(Empty, init);
      assert last.id !in before.services;
      forall c: Component ensures Seeded(Empty, seed).Level(c) == Recomputed(c, Seeded(Empty, seed).services) {
        InsertRaises(c, before.services, last.id, LevelOf(last.status));
        hide Recomputed;
        assert before.Level(c) == Recomputed(c, before.services);
      }
      assert forall i | 0 <= i < |init| :: init[i] == seed[i];
    }
  }

  lemma OtherComponentUnchanged(c: Component, services: Levels, id: string, level: Level)
    requires ComponentOf(id) != Some(c)
    ensures Recomputed(c, services[id := level]) == Recomputed(c, services)
  {
    hide ComponentOf;
    var after := services[id := level];
    forall l ensures Has(c, after, l) <==> Has(c, services, l) {
      if Has(c, services, l) {
        var x :| x in services && ComponentOf(x) == Some(c) && services[x] == l;
        assert after[x] == l;
      }
    }
  }

  /** After any seed and any events, each cached component level is the maximum over
      the component's services. */
  lemma {:induction false} CacheStaysRight(seed: seq<Snapshot>, es: seq<Event>, keep: nat, n: nat)
    requires DistinctIds(seed) && n <= |es|
    ensures CacheIsRight(After(seed, es, keep, n))
  {
    hide ComponentOf;
    if n == 0 {
      SeedIsRight(seed);
    } else {
      CacheStaysRight(seed, es, keep, n - 1);
      hide Recomputed;
      var before, e := After(seed, es, keep, n - 1), es[n - 1].snapshot;
      forall c: Component
        ensures After(seed, es, keep, n).Level(c) == Recomputed(c, After(seed, es, keep, n).services)
      {
        assert before.Level(c) == Recomputed(c, before.services);
        if ComponentOf(e.id) != Some(c) {
          OtherComponentUnchanged(c, before.services, e.id, LevelOf(e.status));
        }
      }
    }
  }

  // ---------------------------------------------------------------- incidents follow the levels

  /** An open incident belongs to a bad component and says how bad it is. */
  ghost predicate IncidentsFit(s: State, keep: nat) {
    && (forall c | c in s.open ::
          && s.Level(c).IsIncident()
          && s.open[c].component == c && s.open[c].resolvedAt.None?
          && s.open[c].severity == s.Level(c).Severity() && s.open[c].title == Title(c, s.Level(c)))
    && (forall i | 0 <= i < |s.resolved| :: s.resolved[i].resolvedAt.Some?)
    && |s.resolved| <= keep
  }

  lemma {:induction false} SeedOpensNothing(s: State, seed: seq<Snapshot>)
    ensures var r := Seeded(s, seed); r.open == s.open && r.resolved == s.resolved && r.sequence == s.sequence
  {
    hide ComponentOf;
    if seed != [] { SeedOpensNothing(s, seed[..|seed| - 1]); }
  }

  lemma AppliedFits(s: State, event: Snapshot, keep: nat, now: int)
    requires IncidentsFit(s, keep)
    ensures IncidentsFit(Applied(s, event, keep, now), keep)
  {
    hide ComponentOf;
    hide Recomputed;
    hide Moved;
    hide Title;
    if ComponentOf(event.id).Some? {
      var c := ComponentOf(event.id).value;
      var services := s.services[event.id := LevelOf(event.status)];
      var next := Recomputed(c, services);
      MovedFits(s.(services := services, components := s.components[c := next]), c, s.Level(c), next, keep, now);
    }
  }

  /** An open incident says how bad `level` is. */
  predicate Describes(incident: Incident, c: Component, level: Level) {
    && incident.component == c && incident.resolvedAt.None?
    && incident.severity == level.Severity() && incident.title == Title(c, level)
  }

  /** Every open incident but that of `c` fits. */
  ghost predicate OthersFit(s: State, c: Component, keep: nat) {
    && (forall d | d in s.open && d != c :: s.Level(d).IsIncident() && Describes(s.open[d], d, s.Level(d)))
    && (forall i | 0 <= i < |s.resolved| :: s.resolved[i].resolvedAt.Some?)
    && |s.resolved| <= keep
  }

  lemma BindingFits(s: State, c: Component, incident: Incident, sequence: nat, keep: nat)
    requires OthersFit(s, c, keep) && s.Level(c).IsIncident() && Describes(incident, c, s.Level(c))
    ensures IncidentsFit(s.(sequence := sequence, open := s.open[c := incident]), keep)
  {
    hide Title;
  }

  lemma ResolvingFits(s: State, c: Component, incident: Incident, keep: nat)
    requires OthersFit(s, c, keep) && incident.resolvedAt.Some?
    ensures IncidentsFit(s.(open := s.open - {c}, resolved := Truncated([incident] + s.resolved, keep)), keep)
  {
    hide Title;
    var resolved := Truncated([incident] + s.resolved, keep);
    assert forall i | 0 < i < |resolved| :: resolved[i] == s.resolved[i - 1];
    assert |resolved| > 0 ==> resolved[0] == incident;
    hide Truncated;
  }

  lemma LeavingFits(s: State, c: Component, keep: nat)
    requires OthersFit(s, c, keep) && c !in s.open
    ensures IncidentsFit(s, keep)
  {
    hide Title;
  }

  /** Opening, updating or resolving restores the fit that the new level broke. */
  lemma MovedFits(s: State, c: Component, was: Level, next: Level, keep: nat, now: int)
    requires s.Level(c) == next && OthersFit(s, c, keep)
    requires c in s.open ==> was.IsIncident() && Describes(s.open[c], c, was)
    ensures IncidentsFit(Moved(s, c, was, next, keep, now), keep)
  {
    hide IncidentId;
    hide Title;
    hide IncidentsFit;
    hide OthersFit;
    hide Truncated;
    if next.IsIncident() && (c in s.open || !was.IsIncident()) {
      var r := Moved(s, c, was, next, keep, now);
      assert r == s.(sequence := r.sequence, open := s.open[c := r.open[c]]);
      BindingFits(s, c, r.open[c], r.sequence, keep);
    } else if c in s.open {
      ResolvingFits(s, c, s.open[c].(resolvedAt := Some(now)), keep);
    } else {
      LeavingFits(s, c, keep);
    }
  }

  /** Open incidents always carry the current severity, and the resolved list is bounded. */
  lemma {:induction false} IncidentsAlwaysFit(seed: seq<Snapshot>, es: seq<Event>, keep: nat, n: nat)
    requires n <= |es|
    ensures IncidentsFit(After(seed, es, keep, n), keep)
  {
    hide Applied;
    if n == 0 {
      SeedOpensNothing(Empty, seed);
    } else {
      IncidentsAlwaysFit(seed, es, keep, n - 1);
      AppliedFits(After(seed, es, keep, n - 1), es[n - 1].snapshot, keep, es[n - 1].now);
    }
  }

  /** One event seen from one component. */
  lemma AppliedSwitches(s: State, event: Snapshot, keep: nat, now: int, c: Component)
    requires IncidentsFit(s, keep)
    ensures var r := Applied(s, event, keep, now);
            c in r.open <==> r.Level(c).IsIncident() && (c in s.open || !s.Level(c).IsIncident())
  {
    hide ComponentOf;
    hide Recomputed;
    hide IncidentId;
    hide Title;
  }

  /** A component has an open incident exactly when it is bad now and was not bad at
      some moment since the seed; seeded bad, it is silent until it recovers once. */
  lemma {:induction false} OpenIffTurnedBad(seed: seq<Snapshot>, es: seq<Event>, keep: nat, n: nat, c: Component)
    requires n <= |es|
    ensures c in After(seed, es, keep, n).open <==>
            && After(seed, es, keep, n).Level(c).IsIncident()
            && exists m | 0 <= m <= n :: !After(seed, es, keep, m).Level(c).IsIncident()
  {
    hide Applied;
    if n == 0 {
      SeedOpensNothing(Empty, seed);
    } else {
      OpenIffTurnedBad(seed, es, keep, n - 1, c);
      IncidentsAlwaysFit(seed, es, keep, n - 1);
      AppliedSwitches(After(seed, es, keep, n - 1), es[n - 1].snapshot, keep, es[n - 1].now, c);
    }
  }

  /** A bad level alone does not mean an open incident. */
  lemma SeededBadHasNoIncident(keep: nat)
    ensures var s := After([Snapshot("identity-service", Failed)], [], keep, 0);
            s.Level(Account) == Down && Account !in s.open
  {
    var seed := [Snapshot("identity-service", Failed)];
    assert seed[..0] == [];
    assert ComponentOf("identity-service") == Some(Account);
    assert Seeded(Empty, []) == Empty;
    assert Seeded(Empty, seed).components == map[Account := Down];
  }

  // ---------------------------------------------------------------- counting incidents

  /** Incidents opened by the first `n` events. */
  ghost function OpenedSoFar(seed: seq<Snapshot>, es: seq<Event>, keep: nat, n: nat): nat
    requires n <= |es|
  {
    if n == 0 then 0
    else OpenedSoFar(seed, es, keep, n - 1) +
         if |After(seed, es, keep, n).open| > |After(seed, es, keep, n - 1).open| then 1 else 0
  }

  /** Incidents resolved by the first `n` events, kept or dropped since. */
  ghost function ResolvedSoFar(seed: seq<Snapshot>, es: seq<Event>, keep: nat, n: nat): nat
    requires n <= |es|
  {
    if n == 0 then 0
    else ResolvedSoFar(seed, es, keep, n - 1) +
         if |After(seed, es, keep, n).open| < |After(seed, es, keep, n - 1).open| then 1 else 0
  }

  lemma KeyCounts(m: map<Component, Incident>, c: Component, incident: Incident)
    ensures |m[c := incident]| == if c in m then |m| else |m| + 1
    ensures |m - {c}| == if c in m then |m| - 1 else |m|
  {
    assert m[c := incident].Keys == m.Keys + {c};
    assert (m - {c}).Keys == m.Keys - {c};
  }

  /** One more open incident, one fewer, or as many. */
  ghost predicate Counts(s: State, r: State) {
    || (|r.open| == |s.open| && r.sequence == s.sequence)
    || (|r.open| == |s.open| + 1 && r.sequence == Next(s.sequence))
    || (|r.open| == |s.open| - 1 && r.sequence == s.sequence)
  }

  lemma MovedCounts(s: State, c: Component, was: Level, next: Level, keep: nat, now: int)
    requires c in s.open ==> was.IsIncident()
    ensures Counts(s, Moved(s, c, was, next, keep, now))
  {
    hide IncidentId;
    hide Title;
    var r := Moved(s, c, was, next, keep, now);
    if c in r.open {
      KeyCounts(s.open, c, r.open[c]);
    } else if c in s.open {
      KeyCounts(s.open, c, s.open[c]);
    }
  }

  lemma AppliedCounts(s: State, event: Snapshot, keep: nat, now: int)
    requires IncidentsFit(s, keep)
    ensures Counts(s, Applied(s, event, keep, now))
  {
    hide Recomputed;
    hide ComponentOf;
    hide Moved;
    if ComponentOf(event.id).Some? {
      var c := ComponentOf(event.id).value;
      var services := s.services[event.id := LevelOf(event.status)];
      var next := Recomputed(c, services);
      var s' := s.(services := services, components := s.components[c := next]);
      MovedCounts(s', c, s.Level(c), next, keep, now);
    }
  }

  /** Conservation: every incident ever opened is open or was resolved, and the sequence
      number counts them, up to the saturation of its 64 bits. */
  lemma {:induction false} SequenceCountsIncidents(seed: seq<Snapshot>, es: seq<Event>, keep: nat, n: nat)
    requires n <= |es|
    ensures var s, total := After(seed, es, keep, n), OpenedSoFar(seed, es, keep, n);
            && total == |s.open| + ResolvedSoFar(seed, es, keep, n)
            && s.sequence == if total < U64_MAX then total else U64_MAX
  {
    hide Applied;
    if n == 0 {
      SeedOpensNothing(Empty, seed);
    } else {
      SequenceCountsIncidents(seed, es, keep, n - 1);
      IncidentsAlwaysFit(seed, es, keep, n - 1);
      AppliedCounts(After(seed, es, keep, n - 1), es[n - 1].snapshot, keep, es[n - 1].now);
    }
  }

  // ---------------------------------------------------------------- ids

  /** All known incidents carry different numbers, none beyond the sequence. */
  ghost predicate IdsDiffer(s: State) {
    && (forall c | c in s.open :: NumberOf(s.open[c].id) <= s.sequence)
    && (forall i | 0 <= i < |s.resolved| :: NumberOf(s.resolved[i].id) <= s.sequence)
    && (forall c, d | c in s.open && d in s.open && c != d :: NumberOf(s.open[c].id) != NumberOf(s.open[d].id))
    && (forall i, j | 0 <= i < j < |s.resolved| :: NumberOf(s.resolved[i].id) != NumberOf(s.resolved[j].id))
    && (forall c, i | c in s.open && 0 <= i < |s.resolved| :: NumberOf(s.open[c].id) != NumberOf(s.resolved[i].id))
  }

  lemma OpeningKeepsIds(s: State, c: Component, incident: Incident)
    requires IdsDiffer(s) && NumberOf(incident.id) == s.sequence + 1
    ensures IdsDiffer(s.(sequence := s.sequence + 1, open := s.open[c := incident]))
  {
    hide NumberOf;
  }

  lemma UpdatingKeepsIds(s: State, c: Component, incident: Incident)
    requires IdsDiffer(s) && c in s.open && incident.id == s.open[c].id
    ensures IdsDiffer(s.(open := s.open[c := incident]))
  {
    hide NumberOf;
  }

  lemma ResolvingKeepsIds(s: State, c: Component, incident: Incident, keep: nat)
    requires IdsDiffer(s) && c in s.open && incident.id == s.open[c].id
    ensures IdsDiffer(s.(open := s.open - {c}, resolved := Truncated([incident] + s.resolved, keep)))
  {
    hide NumberOf;
    var resolved := Truncated([incident] + s.resolved, keep);
    assert forall i | 0 < i < |resolved| :: resolved[i] == s.resolved[i - 1];
    assert |resolved| > 0 ==> resolved[0] == incident;
    hide Truncated;
  }

  lemma MovedKeepsIds(s: State, c: Component, was: Level, next: Level, keep: nat, now: int)
    requires IdsDiffer(s) && (!was.IsIncident() && next.IsIncident() ==> s.sequence < U64_MAX)
    ensures IdsDiffer(Moved(s, c, was, next, keep, now))
  {
    hide IncidentId;
    hide NumberOf;
    hide Title;
    hide IdsDiffer;
    if !was.IsIncident() && next.IsIncident() {
      IdsAreUnique(Next(s.sequence));
      OpeningKeepsIds(s, c, Opened(c, next, Next(s.sequence), now));
    } else if c in s.open && was.IsIncident() {
      if next.IsIncident() {
        UpdatingKeepsIds(s, c, s.open[c].(severity := next.Severity(), title := Title(c, next)));
      } else {
        ResolvingKeepsIds(s, c, s.open[c].(resolvedAt := Some(now)), keep);
      }
    }
  }

  /** An event that opens an incident is counted as such. */
  lemma OpeningIsCounted(s: State, c: Component, was: Level, next: Level, keep: nat, now: int)
    requires c !in s.open && !was.IsIncident() && next.IsIncident()
    ensures |Moved(s, c, was, next, keep, now).open| == |s.open| + 1
  {
    hide IncidentId;
    hide Title;
    KeyCounts(s.open, c, Opened(c, next, Next(s.sequence), now));
  }

  lemma AppliedKeepsIds(s: State, event: Snapshot, keep: nat, now: int)
    requires IncidentsFit(s, keep) && IdsDiffer(s)
    requires |Applied(s, event, keep, now).open| > |s.open| ==> s.sequence < U64_MAX
    ensures IdsDiffer(Applied(s, event, keep, now))
  {
    hide ComponentOf;
    hide Recomputed;
    hide Moved;
    if ComponentOf(event.id).Some? {
      var c := ComponentOf(event.id).value;
      var services := s.services[event.id := LevelOf(event.status)];
      var next := Recomputed(c, services);
      var s' := s.(services := services, components := s.components[c := next]);
      assert Applied(s, event, keep, now) == Moved(s', c, s.Level(c), next, keep, now);
      OpeningLeavesRoom(s', c, s.Level(c), next, keep, now);
      LevelsKeepIds(s, services, s'.components);
      hide IdsDiffer;
      hide Applied;
      MovedKeepsIds(s', c, s.Level(c), next, keep, now);
    }
  }

  /** A component that turns bad has no open incident, so opening one is seen in the count. */
  lemma OpeningLeavesRoom(s: State, c: Component, was: Level, next: Level, keep: nat, now: int)
    requires !was.IsIncident() ==> c !in s.open
    requires |Moved(s, c, was, next, keep, now).open| > |s.open| ==> s.sequence < U64_MAX
    ensures !was.IsIncident() && next.IsIncident() ==> s.sequence < U64_MAX
  {
    hide Moved;
    if !was.IsIncident() && next.IsIncident() {
      OpeningIsCounted(s, c, was, next, keep, now);
    }
  }

  lemma LevelsKeepIds(s: State, services: map<string, Level>, components: map<Component, Level>)
    requires IdsDiffer(s)
    ensures IdsDiffer(s.(services := services, components := components))
  {
  }

  /** Incident ids are distinct, open or resolved, as long as no more incidents were
      opened than 64 bits can count. */
  lemma {:induction false} IncidentIdsAreDistinct(seed: seq<Snapshot>, es: seq<Event>, keep: nat, n: nat)
    requires n <= |es| && OpenedSoFar(seed, es, keep, n) <= U64_MAX
    ensures IdsDiffer(After(seed, es, keep, n))
  {
    hide Applied;
    if n == 0 {
      SeedOpensNothing(Empty, seed);
    } else {
      hide IdsDiffer;
      IncidentIdsAreDistinct(seed, es, keep, n - 1);
      SequenceCountsIncidents(seed, es, keep, n - 1);
      IncidentsAlwaysFit(seed, es, keep, n - 1);
      AppliedKeepsIds(After(seed, es, keep, n - 1), es[n - 1].snapshot, keep, es[n - 1].now);
    }
  }
}
