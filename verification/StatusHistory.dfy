/** The tracker against the history of service statuses: what each component's level and
    incidents say, from the last status of every service. */
module StatusHistory {
  import opened Wrappers
  import opened Decimal
  import opened PublicStatus

  // ---------------------------------------------------------------- levels

  /** The services of each public component. */
  predicate Member(c: Component, id: string) {
    match c
    case Website => "module:athenos-web::" <= id
    case Api => "module:athenos-api::" <= id
    case Account => "module:auth-service::" <= id || id == "identity-service"
    case Notifications => "module:notification-service::" <= id
  }

  /** The last status of a service: in the seed, or in an event since. */
  ghost function Latest(seed: seq<Snapshot>, es: seq<Event>, n: nat, id: string): Option<ServiceStatus>
    requires n <= |es|
    decreases n, |seed|
  {
    if n > 0 then
      if es[n - 1].snapshot.id == id then Some(es[n - 1].snapshot.status) else Latest(seed, es, n - 1, id)
    else if seed == [] then None
    else if seed[|seed| - 1].id == id then Some(seed[|seed| - 1].status)
    else Latest(seed[..|seed| - 1], es, 0, id)
  }

  lemma PrefixAt(p: string, id: string, i: nat)
    requires p <= id && i < |p|
    ensures |id| >= |p| && id[i] == p[i]
  {
  }

  lemma MemberIff(c: Component, id: string)
    ensures Member(c, id) <==> ComponentOf(id) == Some(c)
  {
    var web, api := "module:athenos-web::", "module:athenos-api::";
    var auth, note := "module:auth-service::", "module:notification-service::";
    assert web[15] == 'w' && api[15] == 'a' && web[8] == 't' && api[8] == 't' && auth[8] == 'u' && note[8] == 'o';
    assert web[0] == api[0] == auth[0] == note[0] == 'm' && "identity-service"[0] == 'i';
    if web <= id { PrefixAt(web, id, 15); PrefixAt(web, id, 8); PrefixAt(web, id, 0); }
    if api <= id { PrefixAt(api, id, 15); PrefixAt(api, id, 8); PrefixAt(api, id, 0); }
    if auth <= id { PrefixAt(auth, id, 8); PrefixAt(auth, id, 0); }
    if note <= id { PrefixAt(note, id, 8); PrefixAt(note, id, 0); }
  }

  ghost predicate ServiceAgrees(s: State, latest: Option<ServiceStatus>, id: string) {
    && (id in s.services <==> latest.Some? && ComponentOf(id).Some?)
    && (id in s.services ==> s.services[id] == LevelOf(latest.value))
  }

  lemma {:induction false} SeedAgrees(seed: seq<Snapshot>, es: seq<Event>, id: string)
    ensures ServiceAgrees(Seeded(Empty, seed), Latest(seed, es, 0, id), id)
  {
    hide ComponentOf;
    if seed != [] {
      SeedAgrees(seed[..|seed| - 1], es, id);
    }
  }

  lemma {:induction false} ServicesAreLatest(seed: seq<Snapshot>, es: seq<Event>, keep: nat, n: nat, id: string)
    requires n <= |es|
    ensures ServiceAgrees(After(seed, es, keep, n), Latest(seed, es, n, id), id)
  {
    hide ComponentOf;
    hide Recomputed;
    if n == 0 {
      SeedAgrees(seed, es, id);
    } else {
      ServicesAreLatest(seed, es, keep, n - 1, id);
      AppliedServices(After(seed, es, keep, n - 1), es[n - 1].snapshot, keep, es[n - 1].now);
      hide Applied;
    }
  }

  lemma AppliedServices(s: State, event: Snapshot, keep: nat, now: int)
    ensures Applied(s, event, keep, now).services ==
            if ComponentOf(event.id).None? then s.services else s.services[event.id := LevelOf(event.status)]
  {
    hide ComponentOf;
    hide Recomputed;
    hide IncidentId;
    hide Title;
  }

  /** Some service of the component last reported `status`. */
  ghost predicate Reports(seed: seq<Snapshot>, es: seq<Event>, n: nat, c: Component, status: ServiceStatus)
    requires n <= |es|
  {
    exists id :: Member(c, id) && Latest(seed, es, n, id) == Some(status)
  }

  lemma HasToReports(seed: seq<Snapshot>, es: seq<Event>, keep: nat, n: nat, c: Component, l: Level)
      returns (status: ServiceStatus)
    requires n <= |es| && Has(c, After(seed, es, keep, n).services, l)
    ensures LevelOf(status) == l && Reports(seed, es, n, c, status)
  {
    hide ComponentOf;
    hide Member;
    hide LevelOf;
    hide After;
    hide Latest;
    var services := After(seed, es, keep, n).services;
    var id :| id in services && ComponentOf(id) == Some(c) && services[id] == l;
    ServicesAreLatest(seed, es, keep, n, id);
    MemberIff(c, id);
    status := Latest(seed, es, n, id).value;
  }

  lemma ReportsToHas(seed: seq<Snapshot>, es: seq<Event>, keep: nat, n: nat, c: Component, status: ServiceStatus)
    requires n <= |es| && Reports(seed, es, n, c, status)
    ensures Has(c, After(seed, es, keep, n).services, LevelOf(status))
  {
    hide ComponentOf;
    hide Member;
    hide LevelOf;
    hide After;
    hide Latest;
    var id :| Member(c, id) && Latest(seed, es, n, id) == Some(status);
    ServicesAreLatest(seed, es, keep, n, id);
    MemberIff(c, id);
  }

  lemma HasIffReports(seed: seq<Snapshot>, es: seq<Event>, keep: nat, n: nat, c: Component, l: Level)
    requires n <= |es|
    ensures Has(c, After(seed, es, keep, n).services, l) <==>
            exists status :: LevelOf(status) == l && Reports(seed, es, n, c, status)
  {
    hide Has;
    hide After;
    hide Reports;
    hide LevelOf;
    if Has(c, After(seed, es, keep, n).services, l) {
      var status := HasToReports(seed, es, keep, n, c, l);
    }
    forall status | LevelOf(status) == l && Reports(seed, es, n, c, status)
      ensures Has(c, After(seed, es, keep, n).services, l)
    {
      ReportsToHas(seed, es, keep, n, c, status);
    }
  }

  /** The level of a component is that of its worst service, from the last reports alone:
      down if one failed or stopped, else degraded if one is degraded or starting, else up
      if one is active, else unknown. */
  lemma LevelFromReports(seed: seq<Snapshot>, es: seq<Event>, keep: nat, n: nat, c: Component)
    requires DistinctIds(seed) && n <= |es|
    ensures var level := After(seed, es, keep, n).Level(c);
            var down := Reports(seed, es, n, c, Failed) || Reports(seed, es, n, c, Stopped);
            var bad := Reports(seed, es, n, c, DegradedService) || Reports(seed, es, n, c, Starting);
            && (level == Down <==> down)
            && (level == Degraded <==> !down && bad)
            && (level == Up <==> !down && !bad && Reports(seed, es, n, c, Active))
  {
    hide Has;
    hide After;
    hide Reports;
    CacheStaysRight(seed, es, keep, n);
    HasIffReports(seed, es, keep, n, c, Down);
    HasIffReports(seed, es, keep, n, c, Degraded);
    HasIffReports(seed, es, keep, n, c, Up);
    assert LevelOf(Failed) == LevelOf(Stopped) == Down;
    assert LevelOf(DegradedService) == LevelOf(Starting) == Degraded;
    assert LevelOf(Active) == Up;
  }

  // ---------------------------------------------------------------- incidents

  /** What an open incident says, in words. */
  lemma IncidentSays(seed: seq<Snapshot>, es: seq<Event>, keep: nat, n: nat, c: Component)
    requires n <= |es| && c in After(seed, es, keep, n).open
    ensures var s := After(seed, es, keep, n);
            var name := match c case Website => "Website" case Account => "Account & Login" case Api => "API"
                                case Notifications => "Notifications";
            && (s.Level(c) == Down || s.Level(c) == Degraded)
            && s.open[c].component == c && s.open[c].resolvedAt == None
            && s.open[c].severity == (if s.Level(c) == Down then Major else Minor)
            && s.open[c].title == name + (if s.Level(c) == Down then " outage" else " degraded")
  {
    hide After;
    IncidentsAlwaysFit(seed, es, keep, n);
  }

  /** Event `k` turned the component bad, and it has been bad since. */
  ghost predicate BadSince(seed: seq<Snapshot>, es: seq<Event>, keep: nat, c: Component, k: nat, n: nat)
    requires n <= |es|
  {
    && k < n && !After(seed, es, keep, k).Level(c).IsIncident()
    && forall m | k < m <= n :: After(seed, es, keep, m).Level(c).IsIncident()
  }

  lemma AppliedOpens(s: State, event: Snapshot, keep: nat, now: int, c: Component)
    requires IncidentsFit(s, keep)
    ensures var r := Applied(s, event, keep, now);
            c in r.open ==>
              if c in s.open then r.open[c].id == s.open[c].id && r.open[c].startedAt == s.open[c].startedAt
              else r.open[c].id == IncidentId(r.sequence) && r.open[c].startedAt == now
  {
    hide ComponentOf;
    hide Recomputed;
    hide IncidentId;
    hide Title;
  }

  lemma NothingOpenAtSeed(seed: seq<Snapshot>, es: seq<Event>, keep: nat)
    ensures After(seed, es, keep, 0).open == map[]
  {
    SeedOpensNothing(Empty, seed);
  }

  /** One event, seen from one component's incident. */
  lemma NextOpen(seed: seq<Snapshot>, es: seq<Event>, keep: nat, m: nat, c: Component)
    requires m < |es| && c in After(seed, es, keep, m + 1).open
    ensures var s, r := After(seed, es, keep, m), After(seed, es, keep, m + 1);
            && r.Level(c).IsIncident()
            && (if c in s.open then r.open[c].id == s.open[c].id && r.open[c].startedAt == s.open[c].startedAt
                else !s.Level(c).IsIncident() && r.open[c].id == IncidentId(r.sequence) && r.open[c].startedAt == es[m].now)
  {
    var s := After(seed, es, keep, m);
    IncidentsAlwaysFit(seed, es, keep, m);
    AppliedSwitches(s, es[m].snapshot, keep, es[m].now, c);
    AppliedOpens(s, es[m].snapshot, keep, es[m].now, c);
    hide Applied;
    hide IncidentId;
    hide IncidentsFit;
  }

  /** An open incident bears the number and the time of the event that turned its component bad. */
  lemma {:induction false} IncidentIsFromItsStart(seed: seq<Snapshot>, es: seq<Event>, keep: nat, n: nat, c: Component)
      returns (k: nat)
    requires n <= |es| && c in After(seed, es, keep, n).open
    ensures BadSince(seed, es, keep, c, k, n)
    ensures After(seed, es, keep, n).open[c].startedAt == es[k].now
    ensures After(seed, es, keep, n).open[c].id == IncidentId(After(seed, es, keep, k + 1).sequence)
  {
    hide After;
    hide IncidentId;
    NothingOpenAtSeed(seed, es, keep);
    NextOpen(seed, es, keep, n - 1, c);
    if c in After(seed, es, keep, n - 1).open {
      k := IncidentIsFromItsStart(seed, es, keep, n - 1, c);
    } else {
      k := n - 1;
    }
  }

  lemma AppliedResolves(s: State, event: Snapshot, keep: nat, now: int, c: Component)
    ensures var r := Applied(s, event, keep, now);
            && (c in s.open && c !in r.open ==>
                  var all := [s.open[c].(resolvedAt := Some(now))] + s.resolved;
                  r.resolved == if |all| > keep then all[..keep] else all)
            && ((forall d | d in s.open :: d in r.open) ==> r.resolved == s.resolved)
  {
    hide ComponentOf;
    hide Recomputed;
    hide IncidentId;
    hide Title;
  }

  /** A recovery closes the incident as it stood, at the time of the event, in front of the
      older ones; nothing else touches the resolved list. */
  lemma RecoveryResolves(seed: seq<Snapshot>, es: seq<Event>, keep: nat, n: nat, c: Component)
    requires n < |es|
    ensures var s, r := After(seed, es, keep, n), After(seed, es, keep, n + 1);
            && (c in s.open && c !in r.open ==>
                  var all := [s.open[c].(resolvedAt := Some(es[n].now))] + s.resolved;
                  r.resolved == if |all| > keep then all[..keep] else all)
            && ((forall d | d in s.open :: d in r.open) ==> r.resolved == s.resolved)
  {
    AppliedResolves(After(seed, es, keep, n), es[n].snapshot, keep, es[n].now, c);
    hide Applied;
  }

  /** Ids are `inc-` and the number, with zeros in front up to six digits and no further. */
  lemma IdsLookLike(n: nat)
    ensures var id := IncidentId(n); |id| >= 10 && id[..4] == "inc-" && (|id| > 10 ==> id[4] != '0')
  {
    var digits := Render(n);
    var zeros := Zeros(if |digits| < 6 then 6 - |digits| else 0);
    assert IncidentId(n) == "inc-" + (zeros + digits);
    if |digits| >= 6 {
      assert zeros + digits == digits;
    }
  }
}
