/** "Did you mean": the commands closest to a mistyped name. */
module CommandSuggestions {
  import opened Wrappers
  import opened Orders
  import opened EditDistance

  datatype Command = Command(name: string, aliases: seq<string>)

  datatype Candidate = Candidate(name: string, distance: nat)

  predicate PrefixMatch(input: string, name: string) { input <= name || name <= input }

  /** The score of the first alias that is close enough. */
  function AliasScore(input: string, aliases: seq<string>, lower: string -> string): Option<nat> {
    if aliases == [] then None
    else
      var alias := lower(aliases[0]);
      if PrefixMatch(input, alias) then Some(0)
      else if Distance(input, alias) <= 2 then Some(Distance(input, alias))
      else AliasScore(input, aliases[1..], lower)
  }

  /** How close a command is to the lower-cased input; none if it is not similar. */
  function Score(input: string, command: Command, lower: string -> string): Option<nat> {
    var name := lower(command.name);
    if PrefixMatch(input, name) then Some(0)
    else if Distance(input, name) <= 3 then Some(Distance(input, name))
    else AliasScore(input, command.aliases, lower)
  }

  function Candidates(input: string, commands: seq<Command>, lower: string -> string): seq<Candidate> {
    if commands == [] then []
    else
      var last := commands[|commands| - 1];
      var before := Candidates(input, commands[..|commands| - 1], lower);
      match Score(input, last, lower)
      case None => before
      case Some(distance) => before + [Candidate(last.name, distance)]
  }

  /** `x` and `y` start alike: one is a prefix of the other. */
  predicate StartAlike(x: string, y: string) {
    (|x| <= |y| && y[..|x|] == x) || (|y| <= |x| && x[..|y|] == y)
  }

  lemma {:induction false} AliasScoreIff(input: string, aliases: seq<string>, lower: string -> string, d: nat)
    ensures AliasScore(input, aliases, lower) == Some(d) <==>
            exists i | 0 <= i < |aliases| ::
              && AliasFits(input, lower(aliases[i]), d)
              && forall j | 0 <= j < i :: AliasMisses(input, lower(aliases[j]))
  {
    hide Distance;
    if aliases != [] {
      var rest := aliases[1..];
      AliasScoreIff(input, rest, lower, d);
      assert forall i | 0 <= i < |rest| :: rest[i] == aliases[i + 1];
      if !AliasMisses(input, lower(aliases[0])) {
        assert AliasFits(input, lower(aliases[0]), d) <==> AliasScore(input, aliases, lower) == Some(d);
      } else if i :| 0 <= i < |rest| && AliasFits(input, lower(rest[i]), d)
                     && forall j | 0 <= j < i :: AliasMisses(input, lower(rest[j])) {
        assert AliasFits(input, lower(aliases[i + 1]), d);
        assert forall j | 0 <= j < i + 1 :: AliasMisses(input, lower(aliases[j])) by {
          assert forall j | 0 < j < i + 1 :: aliases[j] == rest[j - 1];
        }
      }
    }
  }

  /** An alias that starts alike is at distance 0, another within two edits at its distance. */
  predicate AliasFits(input: string, alias: string, d: nat) {
    if StartAlike(input, alias) then d == 0 else d <= 2 && d == Distance(input, alias)
  }

  predicate AliasMisses(input: string, alias: string) { !StartAlike(input, alias) && Distance(input, alias) > 2 }

  /** How close a command is: 0 if its name and the input start alike, the distance of the
      name up to three edits, else what the first fitting alias says. */
  lemma ScoreIff(input: string, command: Command, lower: string -> string, d: nat)
    ensures var name := lower(command.name);
            Score(input, command, lower) == Some(d) <==>
            if StartAlike(input, name) then d == 0
            else if Distance(input, name) <= 3 then d == Distance(input, name)
            else exists i | 0 <= i < |command.aliases| ::
                   && AliasFits(input, lower(command.aliases[i]), d)
                   && forall j | 0 <= j < i :: AliasMisses(input, lower(command.aliases[j]))
  {
    hide Distance;
    hide AliasFits;
    hide AliasMisses;
    AliasScoreIff(input, command.aliases, lower, d);
    hide AliasScore;
  }

  predicate DistinctNames(commands: seq<Command>) {
    forall i, j | 0 <= i < j < |commands| :: commands[i].name != commands[j].name
  }

  // ---------------------------------------------------------------- ranking

  function Rank(x: Candidate, y: Candidate): Ordering {
    Then(Compare(x.distance, y.distance), CompareText(x.name, y.name))
  }

  /** The order of the suggestions: by distance, then by name. */
  predicate Precedes(x: Candidate, y: Candidate) {
    x.distance < y.distance || (x.distance == y.distance && !CompareText(x.name, y.name).Greater?)
  }

  lemma RankIsPrecedence(x: Candidate, y: Candidate)
    ensures !Rank(x, y).Greater? <==> Precedes(x, y)
  {
    hide CompareText;
  }

  lemma RankLaws(x: Candidate, y: Candidate, z: Candidate)
    ensures Rank(y, x) == Flip(Rank(x, y))
    ensures Chains(Rank(x, y), Rank(y, z), Rank(x, z))
    ensures Rank(x, y).Equal? <==> x == y
  {
    TextOrderLaws();
    EqualTextIsSame(x.name, y.name);
    hide CompareText;
    assert Chains(CompareText(x.name, y.name), CompareText(y.name, z.name), CompareText(x.name, z.name));
    assert CompareText(y.name, x.name) == Flip(CompareText(x.name, y.name));
  }

  predicate Ranked(s: seq<Candidate>) {
    forall i, j | 0 <= i < j < |s| :: !Rank(s[i], s[j]).Greater?
  }

  /** Stable insertion. */
  function Insert(s: seq<Candidate>, c: Candidate): seq<Candidate> {
    if s == [] || !Rank(s[|s| - 1], c).Greater? then s + [c]
    else Insert(s[..|s| - 1], c) + [s[|s| - 1]]
  }

  function Sorted(s: seq<Candidate>): seq<Candidate> {
    if s == [] then [] else Insert(Sorted(s[..|s| - 1]), s[|s| - 1])
  }

  lemma {:induction false} InsertRanks(s: seq<Candidate>, c: Candidate)
    requires Ranked(s)
    ensures Ranked(Insert(s, c)) && multiset(Insert(s, c)) == multiset(s) + multiset{c}
  {
    hide Rank;
    if s != [] {
      var init, last := s[..|s| - 1], s[|s| - 1];
      assert s == init + [last];
      if Rank(last, c).Greater? {
        InsertRanks(init, c);
        RankLaws(last, c, c);
        var r := Insert(init, c);
        forall i | 0 <= i < |r| ensures !Rank(r[i], last).Greater? {
          assert r[i] in multiset(r);
          assert r[i] == c || r[i] in init;
        }
      } else {
        forall i | 0 <= i < |s| ensures !Rank(s[i], c).Greater? {
          RankLaws(s[i], last, c);
          RankLaws(last, last, last);
        }
      }
    }
  }

  lemma {:induction false} SortedRanks(s: seq<Candidate>)
    ensures Ranked(Sorted(s)) && multiset(Sorted(s)) == multiset(s)
  {
    hide Rank;
    if s != [] {
      SortedRanks(s[..|s| - 1]);
      InsertRanks(Sorted(s[..|s| - 1]), s[|s| - 1]);
      assert s == s[..|s| - 1] + [s[|s| - 1]];
    }
  }

  /** The names of the three best. */
  function Suggested(s: seq<Candidate>): (names: seq<string>)
    ensures |names| <= 3
  {
    var best := if |Sorted(s)| > 3 then Sorted(s)[..3] else Sorted(s);
    seq(|best|, i requires 0 <= i < |best| => best[i].name)
  }

  // ---------------------------------------------------------------- the suggestions are the best

  lemma {:induction false} CandidatesAreTheSimilar(input: string, commands: seq<Command>, lower: string -> string, c: Candidate)
    ensures c in Candidates(input, commands, lower) <==>
            exists i | 0 <= i < |commands| ::
              commands[i].name == c.name && Score(input, commands[i], lower) == Some(c.distance)
  {
    hide Score;
    if commands != [] {
      var n := |commands| - 1;
      CandidatesAreTheSimilar(input, commands[..n], lower, c);
      assert commands == commands[..n] + [commands[n]];
      assert forall i | 0 <= i < n :: commands[..n][i] == commands[i];
    }
  }

  /** Each suggestion is the name of a similar command, at most three are made, and a
      similar command is left out only if three ranked before it. */
  lemma SuggestionsAreTheBest(cs: seq<Candidate>, c: Candidate)
    requires c in cs
    ensures c.name in Suggested(cs) || (|Suggested(cs)| == 3 && forall i | 0 <= i < 3 :: Precedes(Sorted(cs)[i], c))
    ensures |Suggested(cs)| == if |cs| < 3 then |cs| else 3
    ensures forall i | 0 <= i < |Suggested(cs)| :: Sorted(cs)[i] in cs && Sorted(cs)[i].name == Suggested(cs)[i]
    ensures forall i, j | 0 <= i < j < |Suggested(cs)| :: Precedes(Sorted(cs)[i], Sorted(cs)[j])
  {
    SortedRanks(cs);
    var s := Sorted(cs);
    hide Sorted;
    forall i, j | 0 <= i < j < |s| ensures Precedes(s[i], s[j]) {
      RankIsPrecedence(s[i], s[j]);
    }
    hide Rank;
    hide Precedes;
    assert |s| == |cs| by { assert |multiset(s)| == |multiset(cs)|; }
    assert c in multiset(cs) && c in s;
    var k :| 0 <= k < |s| && s[k] == c;
    if k < 3 {
      assert Suggested(cs)[k] == c.name;
    }
    forall i | 0 <= i < |Suggested(cs)| ensures s[i] in cs {
      assert s[i] in multiset(s);
    }
  }

  // ---------------------------------------------------------------- in place

  /** The commands in the order of the registry's map, which has one entry per name. */
  method FindSimilar(input: string, commands: seq<Command>, lower: string -> string) returns (names: seq<string>)
    requires DistinctNames(commands)
    ensures names == Suggested(Candidates(lower(input), commands, lower))
  {
    hide Distance;
    var inputLower := lower(input);
    var candidates: seq<Candidate> := [];
    for n := 0 to |commands|
      invariant candidates == Candidates(inputLower, commands[..n], lower)
      invariant forall c | c in candidates :: exists i | 0 <= i < n :: commands[i].name == c.name
    {
      var entry := commands[n];
      assert commands[..n + 1][..n] == commands[..n];
      assert forall c | c in candidates :: c.name != entry.name;
      var found := Closest(inputLower, entry, lower);
      if found.Some? {
        candidates := candidates + [Candidate(entry.name, found.value)];
      }
    }
    assert commands[..|commands|] == commands;
    var sorted := Sorted(candidates);
    var count := if |sorted| > 3 then 3 else |sorted|;
    names := seq(count, i requires 0 <= i < count => sorted[i].name);
  }

  /** One command against the input: its name first, then its aliases until one fits. */
  method Closest(input: string, entry: Command, lower: string -> string) returns (found: Option<nat>)
    ensures found == Score(input, entry, lower)
  {
    hide Distance;
    var name := lower(entry.name);
    if PrefixMatch(input, name) {
      return Some(0);
    }
    var distance := Levenshtein(input, name);
    found := None;
    if distance <= 3 {
      found := Some(distance);
    }
    assert entry.aliases[0..] == entry.aliases;
    for i := 0 to |entry.aliases|
      invariant found.Some? ==> found == Score(input, entry, lower)
      invariant found.None? ==>
                  && Distance(input, name) > 3
                  && AliasScore(input, entry.aliases, lower) == AliasScore(input, entry.aliases[i..], lower)
    {
      var alias := lower(entry.aliases[i]);
      assert entry.aliases[i..][1..] == entry.aliases[i + 1..];
      if PrefixMatch(input, alias) {
        if found.None? {
          found := Some(0);
        }
      } else {
        var d := Levenshtein(input, alias);
        if d <= 2 && found.None? {
          found := Some(d);
        }
      }
    }
  }
}
