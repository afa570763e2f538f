/** Module versions under the build-number scheme: the release order and the
    requirement semantics laid over SemVer. */
module Versions {
  import opened Chars
  import opened Wrappers
  import opened Decimal
  import opened Orders

  /** Dot-separated pre-release identifiers; empty for none. */
  type Prerelease = seq<string>

  /** Build metadata enters only as a total order, so its rank stands for it. */
  datatype Version = Version(major: nat, minor: nat, patch: nat, pre: Prerelease, build: int)

  datatype Op = Exact | GreaterThan | GreaterEq | LessThan | LessEq | Tilde | Caret | Wildcard

  datatype Comparator = Comparator(op: Op, major: nat, minor: Option<nat>, patch: Option<nat>, pre: Prerelease)

  const U64_LIMIT: nat := 0x1_0000_0000_0000_0000

  predicate IsIdentifierChar(c: char) {
    IsDigit(c) || 'a' <= c <= 'z' || 'A' <= c <= 'Z' || c == '-'
  }

  /** Item 9 of SemVer 2.0.0. */
  predicate IsIdentifier(s: string) {
    && |s| > 0
    && (forall i | 0 <= i < |s| :: IsIdentifierChar(s[i]))
    && (AllDigits(s) ==> Canonical(s))
  }

  predicate WellFormedPre(pre: Prerelease) { forall i | 0 <= i < |pre| :: IsIdentifier(pre[i]) }

  predicate WellFormed(v: Version) { WellFormedPre(v.pre) }

  // ---------------------------------------------------------------- SemVer precedence (items 9 to 11)

  /** Numbers before words, numbers by value, words by their ASCII text. */
  function CompareIdentifiers(a: string, b: string): Ordering {
    if AllDigits(a) && AllDigits(b) then Compare(Value(a), Value(b))
    else if AllDigits(a) then Less
    else if AllDigits(b) then Greater
    else CompareText(a, b)
  }

  /** A version without a pre-release comes after all its pre-releases. */
  function ComparePre(a: Prerelease, b: Prerelease): Ordering {
    if a == [] then (if b == [] then Equal else Greater)
    else if b == [] then Less
    else Lexicographic(CompareIdentifiers, a, b)
  }

  // ---------------------------------------------------------------- the release order

  /** 0 without a suffix, N for a single number N in 1..2^64, nothing for a tag. */
  function PreBuild(pre: Prerelease): Option<nat> {
    if pre == [] then Some(0)
    else if |pre| == 1 && AllDigits(pre[0]) && 0 < Value(pre[0]) < U64_LIMIT then Some(Value(pre[0]))
    else None
  }

  function BuildNumber(v: Version): Option<nat> { PreBuild(v.pre) }

  function CompareCores(a: Version, b: Version): Ordering {
    Then(Compare(a.major, b.major), Then(Compare(a.minor, b.minor), Compare(a.patch, b.patch)))
  }

  function CompareSuffixes(a: Prerelease, b: Prerelease): Ordering {
    match (PreBuild(a), PreBuild(b))
    case (Some(x), Some(y)) => Compare(x, y)
    case (None, Some(_)) => Less
    case (Some(_), None) => Greater
    case (None, None) => ComparePre(a, b)
  }

  function ReleaseOrder(a: Version, b: Version): Ordering {
    Then(CompareCores(a, b), CompareSuffixes(a.pre, b.pre))
  }

  function CompareVersions(a: Version, b: Version): Ordering {
    Then(ReleaseOrder(a, b), Compare(a.build, b.build))
  }

  // ---------------------------------------------------------------- the release order is a total order

  lemma IdentifierOrderLaws()
    ensures Flips(CompareIdentifiers) && Transitive(CompareIdentifiers)
  {
    TextOrderLaws();
    hide CompareText;
    hide Value;
    forall a, b ensures CompareIdentifiers(b, a) == Flip(CompareIdentifiers(a, b)) {
      assert CompareText(b, a) == Flip(CompareText(a, b));
    }
    forall a, b, c
      ensures Chains(CompareIdentifiers(a, b), CompareIdentifiers(b, c), CompareIdentifiers(a, c))
    {
      assert Chains(CompareText(a, b), CompareText(b, c), CompareText(a, c));
    }
  }

  lemma EqualIdentifiersAreSame(a: string, b: string)
    requires IsIdentifier(a) && IsIdentifier(b)
    ensures CompareIdentifiers(a, b).Equal? <==> a == b
  {
    if AllDigits(a) && AllDigits(b) {
      if Value(a) == Value(b) { CanonicalValuesDiffer(a, b); }
    } else {
      LexicographicEqual(CompareChars, a, b);
    }
  }

  lemma SuffixesFlip(a: Prerelease, b: Prerelease)
    ensures CompareSuffixes(b, a) == Flip(CompareSuffixes(a, b))
  {
    IdentifierOrderLaws();
    LexicographicFlips(CompareIdentifiers, a, b);
  }

  lemma SuffixesChain(a: Prerelease, b: Prerelease, c: Prerelease)
    ensures Chains(CompareSuffixes(a, b), CompareSuffixes(b, c), CompareSuffixes(a, c))
  {
    IdentifierOrderLaws();
    LexicographicChains(CompareIdentifiers, a, b, c);
  }

  lemma EqualSuffixesAreSame(a: Prerelease, b: Prerelease)
    requires WellFormedPre(a) && WellFormedPre(b)
    ensures CompareSuffixes(a, b).Equal? <==> a == b
  {
    if PreBuild(a).Some? && PreBuild(b).Some? {
      if PreBuild(a) == PreBuild(b) && a != [] {
        CanonicalValuesDiffer(a[0], b[0]);
        assert a == [a[0]] && b == [b[0]];
      }
    } else if PreBuild(a).None? && PreBuild(b).None? {
      forall x, y | x in a && y in b ensures CompareIdentifiers(x, y).Equal? <==> x == y {
        EqualIdentifiersAreSame(x, y);
      }
      forall x | x in a ensures CompareIdentifiers(x, x).Equal? {
        EqualIdentifiersAreSame(x, x);
      }
      LexicographicEqual(CompareIdentifiers, a, b);
    }
  }

  lemma CoresChain(a: Version, b: Version, c: Version)
    ensures CompareCores(b, a) == Flip(CompareCores(a, b))
    ensures Chains(CompareCores(a, b), CompareCores(b, c), CompareCores(a, c))
    ensures CompareCores(a, b).Equal? <==> (a.major, a.minor, a.patch) == (b.major, b.minor, b.patch)
  {
  }

  lemma ReleaseOrderChains(a: Version, b: Version, c: Version)
    ensures ReleaseOrder(b, a) == Flip(ReleaseOrder(a, b))
    ensures Chains(ReleaseOrder(a, b), ReleaseOrder(b, c), ReleaseOrder(a, c))
  {
    CoresChain(a, b, c);
    SuffixesFlip(a.pre, b.pre);
    SuffixesChain(a.pre, b.pre, c.pre);
    hide CompareCores;
    hide CompareSuffixes;
  }

  /** `compare_versions` is a total order, and Equal means the same version. */
  lemma CompareVersionsIsTotalOrder(a: Version, b: Version, c: Version)
    requires WellFormed(a) && WellFormed(b)
    ensures CompareVersions(b, a) == Flip(CompareVersions(a, b))
    ensures Chains(CompareVersions(a, b), CompareVersions(b, c), CompareVersions(a, c))
    ensures CompareVersions(a, b).Equal? <==> a == b
  {
    ReleaseOrderChains(a, b, c);
    CoresChain(a, b, c);
    EqualSuffixesAreSame(a.pre, b.pre);
    hide CompareCores;
    hide CompareSuffixes;
  }

  /** Build `n` of a core: `X.Y.Z`, or `X.Y.Z-n` for n >= 1. */
  function Release(major: nat, minor: nat, patch: nat, n: nat): Version {
    Version(major, minor, patch, if n == 0 then [] else [Render(n)], 0)
  }

  /** Builds count up numerically after the bare core, and every tag of the core comes
      before build 0: 1.2.0-beta < 1.2.0 < 1.2.0-9 < 1.2.0-10 < 1.3.0-1. */
  lemma BuildsOrderNumerically(major: nat, minor: nat, patch: nat, n: nat, m: nat, tagged: Version)
    requires n < U64_LIMIT && m < U64_LIMIT
    requires (tagged.major, tagged.minor, tagged.patch) == (major, minor, patch) && BuildNumber(tagged).None?
    ensures BuildNumber(Release(major, minor, patch, n)) == Some(n)
    ensures ReleaseOrder(Release(major, minor, patch, n), Release(major, minor, patch, m)) == Compare(n, m)
    ensures ReleaseOrder(tagged, Release(major, minor, patch, n)).Less?
  {
    if n > 0 { assert Value(Render(n)) == n; }
    if m > 0 { assert Value(Render(m)) == m; }
  }

  /** Item 11 of SemVer 2.0.0 among tags that agree up to some identifier: numbers by
      value, numbers before words, words by their text, and more identifiers last. */
  lemma {:induction false} TagsFollowSemver(p: Prerelease, a: string, b: string)
    requires forall i | 0 <= i < |p| :: IsIdentifier(p[i])
    requires IsIdentifier(a) && IsIdentifier(b)
    ensures AllDigits(a) && AllDigits(b) && Value(a) < Value(b) ==> ComparePre(p + [a], p + [b]).Less?
    ensures AllDigits(a) && !AllDigits(b) ==> ComparePre(p + [a], p + [b]).Less?
    ensures !AllDigits(a) && !AllDigits(b) ==> ComparePre(p + [a], p + [b]) == CompareText(a, b)
    ensures p != [] ==> ComparePre(p, p + [a]).Less?
    ensures ComparePre(p + [a], []).Less?
  {
    CommonIdentifiers(p, [a], [b]);
    CommonIdentifiers(p, [], [a]);
    assert p + [] == p;
  }

  /** The core decides first: major, then minor, then patch. */
  lemma CoresDecideFirst(v: Version, w: Version)
    ensures v.major < w.major ==> CompareVersions(v, w).Less?
    ensures v.major == w.major && v.minor < w.minor ==> CompareVersions(v, w).Less?
    ensures (v.major, v.minor) == (w.major, w.minor) && v.patch < w.patch ==> CompareVersions(v, w).Less?
  {
    hide CompareSuffixes;
  }

  /** Two tagged versions of one core compare by item 11 of SemVer 2.0.0: among tags that
      agree up to some identifier, numbers by value, numbers before words, words by their
      text, and a tag before its continuations. */
  lemma TaggedVersionsFollowSemver(v: Version, w: Version, p: Prerelease, a: string, b: string)
    requires (v.major, v.minor, v.patch) == (w.major, w.minor, w.patch)
    requires BuildNumber(v).None? && BuildNumber(w).None?
    requires (forall i | 0 <= i < |p| :: IsIdentifier(p[i])) && IsIdentifier(a) && IsIdentifier(b)
    requires v.pre == p + [a]
    ensures w.pre == p + [b] && AllDigits(a) && AllDigits(b) && Value(a) < Value(b) ==> CompareVersions(v, w).Less?
    ensures w.pre == p + [b] && AllDigits(a) && AllDigits(b) && Value(a) > Value(b) ==> CompareVersions(v, w).Greater?
    ensures w.pre == p + [b] && AllDigits(a) && !AllDigits(b) ==> CompareVersions(v, w).Less?
    ensures w.pre == p + [b] && !AllDigits(a) && AllDigits(b) ==> CompareVersions(v, w).Greater?
    ensures w.pre == p + [b] && !AllDigits(a) && !AllDigits(b) && a != b ==> CompareVersions(v, w) == CompareText(a, b)
    ensures w.pre == p && p != [] ==> CompareVersions(v, w).Greater? && CompareVersions(w, v).Less?
  {
    CommonIdentifiers(p, [a], [b]);
    CommonIdentifiers(p, [], [a]);
    CommonIdentifiers(p, [a], []);
    assert p + [] == p;
    if !AllDigits(a) && !AllDigits(b) { EqualTextIsSame(a, b); }
    hide PreBuild;
    hide Value;
    hide AllDigits;
    hide CompareText;
  }

  /** Build metadata only breaks ties. */
  lemma MetadataBreaksTies(v: Version, w: Version)
    requires WellFormed(v) && WellFormed(w)
    requires (v.major, v.minor, v.patch, v.pre) == (w.major, w.minor, w.patch, w.pre)
    ensures CompareVersions(v, w) == Compare(v.build, w.build)
  {
    EqualSuffixesAreSame(v.pre, w.pre);
    hide CompareSuffixes;
  }

  /** Exactly the bare core and a single number from 1 up to 64 bits are builds. */
  lemma BuildNumberIff(v: Version, n: nat)
    requires WellFormed(v)
    ensures BuildNumber(v) == Some(n) <==> (v.pre == [] && n == 0) || (v.pre == [Render(n)] && 0 < n < 0x1_0000_0000_0000_0000)
  {
    if v.pre != [] && BuildNumber(v) == Some(n) {
      assert v.pre == [v.pre[0]];
      CanonicalValuesDiffer(v.pre[0], Render(n));
    }
  }

  lemma {:induction false} CommonIdentifiers(p: Prerelease, a: Prerelease, b: Prerelease)
    requires forall i | 0 <= i < |p| :: IsIdentifier(p[i])
    ensures Lexicographic(CompareIdentifiers, p + a, p + b) == Lexicographic(CompareIdentifiers, a, b)
  {
    if p == [] {
      assert p + a == a && p + b == b;
    } else {
      CommonIdentifiers(p[1..], a, b);
      EqualIdentifiersAreSame(p[0], p[0]);
      assert (p + a)[1..] == p[1..] + a && (p + b)[1..] == p[1..] + b;
    }
  }

  // ---------------------------------------------------------------- requirements

  /** The semver crate's comparator evaluation, taken as given. */
  function MatchesExact(c: Comparator, v: Version): bool {
    && v.major == c.major
    && (c.minor.Some? ==> v.minor == c.minor.value)
    && (c.patch.Some? ==> v.patch == c.patch.value)
    && v.pre == c.pre
  }

  function MatchesGreater(c: Comparator, v: Version): bool {
    if v.major != c.major then v.major > c.major
    else if c.minor.None? then false
    else if v.minor != c.minor.value then v.minor > c.minor.value
    else if c.patch.None? then false
    else if v.patch != c.patch.value then v.patch > c.patch.value
    else ComparePre(v.pre, c.pre).Greater?
  }

  function MatchesLess(c: Comparator, v: Version): bool {
    if v.major != c.major then v.major < c.major
    else if c.minor.None? then false
    else if v.minor != c.minor.value then v.minor < c.minor.value
    else if c.patch.None? then false
    else if v.patch != c.patch.value then v.patch < c.patch.value
    else ComparePre(v.pre, c.pre).Less?
  }

  function MatchesTilde(c: Comparator, v: Version): bool {
    if v.major != c.major then false
    else if c.minor.Some? && v.minor != c.minor.value then false
    else if c.patch.Some? && v.patch != c.patch.value then v.patch > c.patch.value
    else !ComparePre(v.pre, c.pre).Less?
  }

  function MatchesCaret(c: Comparator, v: Version): bool {
    if v.major != c.major then false
    else if c.minor.None? then true
    else if c.patch.None? then
      if c.major > 0 then v.minor >= c.minor.value else v.minor == c.minor.value
    else if c.major > 0 && v.minor != c.minor.value then v.minor > c.minor.value
    else if c.major > 0 && v.patch != c.patch.value then v.patch > c.patch.value
    else if c.major == 0 && c.minor.value > 0 && v.minor != c.minor.value then false
    else if c.major == 0 && c.minor.value > 0 && v.patch != c.patch.value then v.patch > c.patch.value
    else if c.major == 0 && c.minor.value == 0 && (v.minor != 0 || v.patch != c.patch.value) then false
    else !ComparePre(v.pre, c.pre).Less?
  }

  function MatchesImpl(c: Comparator, v: Version): bool {
    match c.op
    case Exact | Wildcard => MatchesExact(c, v)
    case GreaterThan => MatchesGreater(c, v)
    case GreaterEq => MatchesExact(c, v) || MatchesGreater(c, v)
    case LessThan => MatchesLess(c, v)
    case LessEq => MatchesExact(c, v) || MatchesLess(c, v)
    case Tilde => MatchesTilde(c, v)
    case Caret => MatchesCaret(c, v)
  }

  /** The comparator names a pre-release of the version's own core. */
  predicate NamesPreOf(c: Comparator, v: Version) {
    c.major == v.major && c.minor == Some(v.minor) && c.patch == Some(v.patch) && c.pre != []
  }

  predicate SemverMatches(c: Comparator, v: Version) {
    MatchesImpl(c, v) && (v.pre == [] || NamesPreOf(c, v))
  }

  predicate SemverReqMatches(req: seq<Comparator>, v: Version) {
    && (forall i | 0 <= i < |req| :: MatchesImpl(req[i], v))
    && (v.pre == [] || exists i | 0 <= i < |req| :: NamesPreOf(req[i], v))
  }

  function Core(v: Version): Version { Version(v.major, v.minor, v.patch, [], 0) }

  function Floor(c: Comparator): Version {
    Version(c.major, if c.minor.Some? then c.minor.value else 0, if c.patch.Some? then c.patch.value else 0, c.pre, 0)
  }

  predicate ComparatorMatches(c: Comparator, v: Version) {
    if c.pre == [] then
      if c.op.Exact? && c.minor.Some? && c.patch.Some? then
        BuildNumber(v) == Some(0) && (v.major, v.minor, v.patch) == (c.major, c.minor.value, c.patch.value)
      else SemverMatches(c, Core(v))
    else if PreBuild(c.pre).None? then SemverMatches(c, v)
    else
      var against := ReleaseOrder(v, Floor(c));
      match c.op
      case Exact => against.Equal?
      case GreaterThan => against.Greater?
      case GreaterEq => !against.Less?
      case LessThan => against.Less?
      case LessEq => !against.Greater?
      case _ => !against.Less? && SemverMatches(c.(pre := []), Core(v))
  }

  predicate VersionReqMatches(req: seq<Comparator>, v: Version) {
    if BuildNumber(v).None? then SemverReqMatches(req, v)
    else forall i | 0 <= i < |req| :: ComparatorMatches(req[i], v)
  }

  // ---------------------------------------------------------------- accepted releases are an interval

  /** What a requirement text can say: no patch without a minor, no suffix without a patch. */
  predicate Parsed(c: Comparator) {
    (c.minor.None? ==> c.patch.None?) && (c.patch.None? ==> c.pre == [])
  }

  /** A release on the line of all releases. */
  datatype Position = Position(major: nat, minor: nat, patch: nat, build: nat) {
    predicate Before(that: Position) {
      if major != that.major then major < that.major
      else if minor != that.minor then minor < that.minor
      else if patch != that.patch then patch < that.patch
      else build < that.build
    }
  }

  function PositionOf(v: Version): Position
    requires BuildNumber(v).Some?
  {
    Position(v.major, v.minor, v.patch, BuildNumber(v).value)
  }

  /** Behind everything the comparator's own numbers name: the core, the minor, the major. */
  function BehindNamed(c: Comparator): Position {
    if c.minor.None? then Position(c.major + 1, 0, 0, 0)
    else if c.patch.None? then Position(c.major, c.minor.value + 1, 0, 0)
    else Position(c.major, c.minor.value, c.patch.value + 1, 0)
  }

  /** The comparator's own release. */
  function Named(c: Comparator): Position
    requires PreBuild(c.pre).Some?
  {
    var floor := Floor(c);
    Position(floor.major, floor.minor, floor.patch, PreBuild(c.pre).value)
  }

  /** The first release a comparator accepts. */
  function Lower(c: Comparator): Position
    requires PreBuild(c.pre).Some?
  {
    match c.op
    case GreaterThan => if c.pre == [] then BehindNamed(c) else Named(c).(build := Named(c).build + 1)
    case LessThan | LessEq => Position(0, 0, 0, 0)
    case _ => Named(c)
  }

  /** The first release behind those a comparator accepts, if it has an end. */
  function Upper(c: Comparator): Option<Position>
    requires PreBuild(c.pre).Some?
  {
    match c.op
    case Exact =>
      Some(if c.patch.Some? then Named(c).(build := Named(c).build + 1) else BehindNamed(c))
    case Wildcard => Some(BehindNamed(c))
    case GreaterThan | GreaterEq => None
    case LessThan => Some(Named(c))
    case LessEq => Some(if c.pre == [] then BehindNamed(c) else Named(c).(build := Named(c).build + 1))
    case Tilde =>
      Some(if c.minor.None? then Position(c.major + 1, 0, 0, 0) else Position(c.major, c.minor.value + 1, 0, 0))
    case Caret =>
      Some(if c.major > 0 || c.minor.None? then Position(c.major + 1, 0, 0, 0)
           else if c.minor.value > 0 || c.patch.None? then Position(0, c.minor.value + 1, 0, 0)
           else Position(0, 0, c.patch.value + 1, 0))
  }

  predicate InRange(c: Comparator, p: Position)
    requires PreBuild(c.pre).Some?
  {
    !p.Before(Lower(c)) && (Upper(c).Some? ==> p.Before(Upper(c).value))
  }

  lemma ReleaseOrderIsPosition(a: Version, b: Version)
    requires BuildNumber(a).Some? && BuildNumber(b).Some?
    ensures ReleaseOrder(a, b).Less? <==> PositionOf(a).Before(PositionOf(b))
    ensures ReleaseOrder(a, b).Greater? <==> PositionOf(b).Before(PositionOf(a))
  {
    hide PreBuild;
  }

  /** On a bare core the semver rules are an interval of cores. */
  lemma BareComparatorIsRange(c: Comparator, v: Version)
    requires Parsed(c) && c.pre == [] && BuildNumber(v).Some?
    ensures ComparatorMatches(c, v) <==> InRange(c, PositionOf(v))
  {
    assert PreBuild([]) == Some(0);
    assert ComparePre([], []).Equal?;
    hide PreBuild;
    hide ComparePre;
  }

  lemma BuildComparatorIsRange(c: Comparator, v: Version)
    requires Parsed(c) && c.pre != [] && PreBuild(c.pre).Some? && BuildNumber(v).Some?
    ensures ComparatorMatches(c, v) <==> InRange(c, PositionOf(v))
  {
    ReleaseOrderIsPosition(v, Floor(c));
    assert PreBuild([]) == Some(0);
    assert ComparePre([], []).Equal?;
    hide PreBuild;
    hide ComparePre;
    hide ReleaseOrder;
  }

  /** A comparator without a tag accepts exactly the releases from its lower to its
      upper bound: `^1.2` is 1.2.0 up to 2.0.0, `=1.2.0-3` is that build alone. */
  lemma ComparatorIsRange(c: Comparator, v: Version)
    requires Parsed(c) && PreBuild(c.pre).Some? && BuildNumber(v).Some?
    ensures ComparatorMatches(c, v) <==> InRange(c, PositionOf(v))
  {
    if c.pre == [] {
      BareComparatorIsRange(c, v);
    } else {
      BuildComparatorIsRange(c, v);
    }
  }

  lemma ComparatorHasNoGaps(c: Comparator, lo: Version, mid: Version, hi: Version)
    requires Parsed(c) && PreBuild(c.pre).Some?
    requires BuildNumber(lo).Some? && BuildNumber(mid).Some? && BuildNumber(hi).Some?
    requires !ReleaseOrder(lo, mid).Greater? && !ReleaseOrder(mid, hi).Greater?
    requires ComparatorMatches(c, lo) && ComparatorMatches(c, hi)
    ensures ComparatorMatches(c, mid)
  {
    ComparatorIsRange(c, lo);
    ComparatorIsRange(c, mid);
    ComparatorIsRange(c, hi);
    ReleaseOrderIsPosition(lo, mid);
    ReleaseOrderIsPosition(mid, hi);
    hide ComparatorMatches;
    hide ReleaseOrder;
    hide PreBuild;
    hide Lower;
    hide Upper;
  }

  /** For every requirement without tags: if two releases are accepted, so is every
      release between them. */
  lemma AcceptedReleasesHaveNoGaps(req: seq<Comparator>, lo: Version, mid: Version, hi: Version)
    requires forall i | 0 <= i < |req| :: Parsed(req[i]) && PreBuild(req[i].pre).Some?
    requires BuildNumber(lo).Some? && BuildNumber(mid).Some? && BuildNumber(hi).Some?
    requires !ReleaseOrder(lo, mid).Greater? && !ReleaseOrder(mid, hi).Greater?
    requires VersionReqMatches(req, lo) && VersionReqMatches(req, hi)
    ensures VersionReqMatches(req, mid)
  {
    forall i | 0 <= i < |req| ensures ComparatorMatches(req[i], mid) {
      ComparatorHasNoGaps(req[i], lo, mid, hi);
    }
  }

  // ---------------------------------------------------------------- comparators with a tag

  /** Whether build `n` of a core comes after `tag` by item 11 of SemVer 2.0.0. */
  predicate AboveTag(n: nat, tag: Prerelease)
    requires tag != []
  {
    AllDigits(tag[0]) && n > Value(tag[0])
  }

  lemma BuildAgainstTag(pre: Prerelease, n: nat, tag: Prerelease)
    requires n > 0 && PreBuild(pre) == Some(n) && PreBuild(tag).None?
    ensures ComparePre(pre, tag) == if AboveTag(n, tag) then Greater else Less
    ensures ComparePre([], tag).Greater?
  {
    hide Value;
    hide AllDigits;
    var rest := tag[1..];
    assert pre[1..] == [];
    assert Lexicographic(CompareIdentifiers, [], rest) == if rest == [] then Equal else Less;
    assert Lexicographic(CompareIdentifiers, pre, tag) ==
           Then(CompareIdentifiers(pre[0], tag[0]), Lexicographic(CompareIdentifiers, [], rest));
    assert rest == [] ==> tag == [tag[0]];
  }

  /** The cores a tagged comparator accepts without a build. */
  predicate AcceptsCore(c: Comparator, p: Position) {
    var floor := Floor(c);
    var start := Position(floor.major, floor.minor, floor.patch, 0);
    match c.op
    case Exact | Wildcard => false
    case GreaterThan | GreaterEq => !p.Before(start)
    case LessThan | LessEq => p.Before(start)
    case Tilde => p.major == floor.major && p.minor == floor.minor && p.patch >= floor.patch
    case Caret =>
      && !p.Before(start)
      && p.major == floor.major
      && (floor.major > 0 || p.minor == floor.minor)
      && (floor.major > 0 || floor.minor > 0 || p.patch == floor.patch)
  }

  /** Its builds: only those of its own core, on the right side of the tag. */
  predicate AcceptsBuild(c: Comparator, p: Position)
    requires c.pre != []
  {
    var floor := Floor(c);
    && (p.major, p.minor, p.patch) == (floor.major, floor.minor, floor.patch)
    && match c.op
       case Exact | Wildcard => false
       case LessThan | LessEq => !AboveTag(p.build, c.pre)
       case _ => AboveTag(p.build, c.pre)
  }

  predicate AcceptsTagged(c: Comparator, p: Position)
    requires c.pre != []
  {
    if p.build == 0 then AcceptsCore(c, p) else AcceptsBuild(c, p)
  }

  lemma TaggedComparatorAccepts(c: Comparator, v: Version)
    requires Parsed(c) && PreBuild(c.pre).None? && BuildNumber(v).Some?
    ensures ComparatorMatches(c, v) <==> AcceptsTagged(c, PositionOf(v))
  {
    var n := BuildNumber(v).value;
    if n > 0 {
      BuildAgainstTag(v.pre, n, c.pre);
      assert v.pre != c.pre;
    } else {
      BuildAgainstTag(["1"], 1, c.pre);
      assert v.pre == [];
    }
    hide ComparePre;
    hide AboveTag;
  }

  /** Two accepted releases with one between them that is not. */
  ghost predicate GapAt(c: Comparator, lo: Version, mid: Version, hi: Version) {
    && BuildNumber(lo).Some? && BuildNumber(mid).Some? && BuildNumber(hi).Some?
    && ReleaseOrder(lo, mid).Less? && ReleaseOrder(mid, hi).Less?
    && ComparatorMatches(c, lo) && !ComparatorMatches(c, mid) && ComparatorMatches(c, hi)
  }

  /** What makes a tagged comparator skip releases. */
  predicate Skips(c: Comparator)
    requires c.pre != []
  {
    var floor := Floor(c);
    match c.op
    case Exact | Wildcard => false
    case GreaterThan | GreaterEq | Tilde => true
    case LessThan | LessEq =>
      if floor.major > 0 || floor.minor > 0 || floor.patch > 1 then true
      else floor.patch == 1 && !AboveTag(1, c.pre)
    case Caret =>
      if floor.major > 0 || floor.minor > 0 then true
      else AllDigits(c.pre[0]) && 0 < Value(c.pre[0]) < U64_LIMIT - 1
  }

  lemma GapAtPositions(c: Comparator, lo: Version, mid: Version, hi: Version)
    requires Parsed(c) && PreBuild(c.pre).None?
    requires BuildNumber(lo).Some? && BuildNumber(mid).Some? && BuildNumber(hi).Some?
    ensures GapAt(c, lo, mid, hi) <==>
            && PositionOf(lo).Before(PositionOf(mid)) && PositionOf(mid).Before(PositionOf(hi))
            && AcceptsTagged(c, PositionOf(lo)) && !AcceptsTagged(c, PositionOf(mid)) && AcceptsTagged(c, PositionOf(hi))
  {
    hide ComparatorMatches;
    hide ReleaseOrder;
    hide AcceptsTagged;
    hide PreBuild;
    ReleaseOrderIsPosition(lo, mid);
    ReleaseOrderIsPosition(mid, hi);
    TaggedComparatorAccepts(c, lo);
    TaggedComparatorAccepts(c, mid);
    TaggedComparatorAccepts(c, hi);
  }

  /** Without a reason to skip, what is accepted has no gap. */
  lemma NoReasonNoGap(c: Comparator, lo: Position, mid: Position, hi: Position)
    requires c.pre != [] && !Skips(c) && lo.Before(mid) && mid.Before(hi) && hi.build < U64_LIMIT
    requires AcceptsTagged(c, lo) && AcceptsTagged(c, hi)
    ensures AcceptsTagged(c, mid)
  {
    hide Value;
    hide AllDigits;
  }

  /** The release at a position. */
  lemma ReleaseAt(p: Position) returns (v: Version)
    requires p.build < U64_LIMIT
    ensures BuildNumber(v) == Some(p.build) && PositionOf(v) == p
  {
    v := Release(p.major, p.minor, p.patch, p.build);
    if p.build > 0 { assert Value(Render(p.build)) == p.build; }
  }

  /** A gap for each reason. */
  lemma SkippedPositions(c: Comparator) returns (lo: Position, mid: Position, hi: Position)
    requires c.pre != [] && Skips(c)
    ensures lo.Before(mid) && mid.Before(hi)
    ensures lo.build < U64_LIMIT && mid.build < U64_LIMIT && hi.build < U64_LIMIT
    ensures AcceptsTagged(c, lo) && !AcceptsTagged(c, mid) && AcceptsTagged(c, hi)
  {
    hide Value;
    hide AllDigits;
    var floor := Floor(c);
    if c.op.LessThan? || c.op.LessEq? {
      lo, mid := Position(0, 0, 0, 0), Position(0, 0, 0, 1);
      hi := if floor == Version(0, 0, 1, c.pre, 0) then Position(0, 0, 1, 1) else Position(0, 0, 1, 0);
    } else if c.op.Caret? && floor.major == 0 && floor.minor == 0 {
      lo, mid := Position(0, 0, floor.patch, 0), Position(0, 0, floor.patch, 1);
      hi := Position(0, 0, floor.patch, Value(c.pre[0]) + 1);
    } else {
      lo := Position(floor.major, floor.minor, floor.patch + 1, 0);
      mid := lo.(build := 1);
      hi := lo.(patch := floor.patch + 2);
    }
  }

  /** With a tag there can be gaps, exactly for these operators, cores and tags. */
  lemma TaggedComparatorHasGapIff(c: Comparator)
    requires Parsed(c) && PreBuild(c.pre).None?
    ensures (exists lo, mid, hi :: GapAt(c, lo, mid, hi)) <==> Skips(c)
  {
    hide Skips;
    hide AcceptsTagged;
    hide PreBuild;
    assert c.pre != [] by { TagIsNotEmpty(c.pre); }
    if Skips(c) {
      var p, q, r := SkippedPositions(c);
      var lo := ReleaseAt(p);
      var mid := ReleaseAt(q);
      var hi := ReleaseAt(r);
      GapAtPositions(c, lo, mid, hi);
    } else {
      forall lo, mid, hi | GapAt(c, lo, mid, hi) ensures false {
        GapAtPositions(c, lo, mid, hi);
        BuildsFit(hi);
        NoReasonNoGap(c, PositionOf(lo), PositionOf(mid), PositionOf(hi));
      }
    }
  }

  lemma TagIsNotEmpty(pre: Prerelease)
    requires PreBuild(pre).None?
    ensures pre != []
  {
  }

  lemma BuildsFit(v: Version)
    requires BuildNumber(v).Some?
    ensures BuildNumber(v).value < U64_LIMIT
  {
  }

  /** `>=1.0.0-beta` takes 1.0.0 and 1.0.1, but not 1.0.0-1. */
  lemma TaggedRequirementHasGap()
    ensures var req := [Comparator(GreaterEq, 1, Some(0), Some(0), ["beta"])];
            var lo, mid, hi := Release(1, 0, 0, 0), Release(1, 0, 0, 1), Release(1, 0, 1, 0);
            && ReleaseOrder(lo, mid).Less? && ReleaseOrder(mid, hi).Less?
            && VersionReqMatches(req, lo) && !VersionReqMatches(req, mid) && VersionReqMatches(req, hi)
  {
    var one := Render(1);
    assert AllDigits(one) && Value(one) == 1;
    assert !AllDigits("beta") by { assert !IsDigit("beta"[0]); }
    assert CompareIdentifiers(one, "beta").Less?;
    assert Lexicographic(CompareIdentifiers, [one], ["beta"]).Less?;
    var c := Comparator(GreaterEq, 1, Some(0), Some(0), ["beta"]);
    var lo, mid, hi := Release(1, 0, 0, 0), Release(1, 0, 0, 1), Release(1, 0, 1, 0);
    assert mid.pre == [one] && BuildNumber(mid) == Some(1) && c.pre[0] == "beta" && PreBuild(c.pre) == None;
    assert ComparatorMatches(c, lo) && !ComparatorMatches(c, mid);
    assert ComparatorMatches(c, hi);
    var req := [c];
    assert req[0] == c;
  }

  /** A lower bound at a build: `>X.Y.Z-n`, `>=X.Y.Z-n`, `~X.Y.Z-n` or `^X.Y.Z-n`. */
  predicate BuildFloor(c: Comparator) {
    && Parsed(c) && c.pre != [] && PreBuild(c.pre).Some?
    && (c.op.GreaterThan? || c.op.GreaterEq? || c.op.Tilde? || c.op.Caret?)
  }

  predicate SameCore(c: Comparator, v: Version) {
    (v.major, Some(v.minor), Some(v.patch)) == (c.major, c.minor, c.patch)
  }

  lemma TagAgainstBuild(c: Comparator, v: Version)
    requires c.pre != [] && PreBuild(c.pre).Some? && BuildNumber(v).None?
    ensures v.pre != [] && v.pre != c.pre
    ensures ComparePre(v.pre, c.pre) == if AboveTag(PreBuild(c.pre).value, v.pre) then Less else Greater
  {
    BuildAgainstTag(c.pre, PreBuild(c.pre).value, v.pre);
    IdentifierOrderLaws();
    LexicographicFlips(CompareIdentifiers, c.pre, v.pre);
    hide AboveTag;
    hide CompareIdentifiers;
    hide Lexicographic;
  }

  /** In its own core a build floor takes exactly the tags that SemVer puts behind its
      build; from another core it takes only what comes after that build anyway. */
  lemma FloorOnTags(c: Comparator, v: Version)
    requires BuildFloor(c) && BuildNumber(v).None?
    ensures SameCore(c, v) ==> (MatchesImpl(c, v) <==> !AboveTag(PreBuild(c.pre).value, v.pre))
    ensures SameCore(c, v) ==> ReleaseOrder(v, Floor(c)).Less?
    ensures !SameCore(c, v) && MatchesImpl(c, v) ==> ReleaseOrder(v, Floor(c)).Greater?
  {
    TagAgainstBuild(c, v);
    hide AboveTag;
    hide PreBuild;
    hide ComparePre;
  }

  /** A build floor lets tagged versions through that are older than it: it accepts
      exactly the tags of its core that SemVer puts behind its build, and the release order
      puts every one of them before that build. */
  lemma TaggedVersionUnderBuildFloor(c: Comparator, v: Version)
    requires BuildFloor(c) && BuildNumber(v).None?
    ensures VersionReqMatches([c], v) <==> SameCore(c, v) && !AboveTag(PreBuild(c.pre).value, v.pre)
    ensures VersionReqMatches([c], v) ==> ReleaseOrder(v, Floor(c)).Less?
  {
    var req := [c];
    assert req[0] == c;
    FloorOnTags(c, v);
    hide MatchesImpl;
    hide AboveTag;
    hide ReleaseOrder;
  }

  /** `v` comes before a build floor of the requirement. */
  ghost predicate BelowFloor(req: seq<Comparator>, v: Version) {
    exists i | 0 <= i < |req| :: BuildFloor(req[i]) && ReleaseOrder(v, Floor(req[i])).Less?
  }

  /** For a whole requirement: a tagged version is accepted below one of its build floors
      exactly when such a floor names the version's core and all comparators match. */
  lemma AcceptedBelowFloorIff(req: seq<Comparator>, v: Version)
    requires BuildNumber(v).None?
    ensures VersionReqMatches(req, v) && BelowFloor(req, v) <==>
            && (exists i | 0 <= i < |req| :: BuildFloor(req[i]) && SameCore(req[i], v))
            && (forall i | 0 <= i < |req| :: MatchesImpl(req[i], v))
  {
    hide MatchesImpl;
    hide ReleaseOrder;
    hide PreBuild;
    hide AboveTag;
    assert v.pre != [] by { TagIsNotEmpty(v.pre); }
    forall i | 0 <= i < |req| && BuildFloor(req[i])
      ensures SameCore(req[i], v) ==> ReleaseOrder(v, Floor(req[i])).Less? && NamesPreOf(req[i], v)
      ensures !SameCore(req[i], v) && MatchesImpl(req[i], v) ==> !ReleaseOrder(v, Floor(req[i])).Less?
    {
      FloorOnTags(req[i], v);
    }
  }
}
