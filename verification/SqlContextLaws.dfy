/** Laws of the context: it depends on the last statement only, and what it says
    about aliases, subqueries and parentheses is right. */
module SqlContextLaws {
  import opened Wrappers
  import opened SqlKeywords
  import opened SqlLexer
  import opened SqlLexerLaws
  import opened SqlContext

  // ---------------------------------------------------------------- statement locality

  lemma {:induction false} FoldPastSemicolon(v: View, a: seq<Token>, semi: Token, b: seq<Token>)
    requires semi.kind.Semicolon?
    ensures Fold(v, a + [semi] + b) == Fold(Fresh, b)
    decreases |a|
  {
    hide Processed;
    var ts := a + [semi] + b;
    if a == [] {
      assert ts == [semi] + b;
      assert ts[1..] == b;
    } else {
      assert ts[1..] == a[1..] + [semi] + b;
      FoldPastSemicolon(Step(v, a[0], ts[1..]), a[1..], semi, b);
    }
  }

  /** Whatever stands before the last semicolon does not matter. */
  lemma StatementsAreIndependent(a: seq<Token>, semi: Token, b: seq<Token>)
    requires semi.kind.Semicolon?
    ensures FromTokens(a + [semi] + b) == FromTokens(b)
  {
    hide Step;
    FoldPastSemicolon(Fresh, a, semi, b);
  }

  /** The tokens after the last semicolon. */
  function LastStatement(ts: seq<Token>): (r: seq<Token>)
    ensures forall i | 0 <= i < |r| :: !r[i].kind.Semicolon?
    ensures |r| <= |ts| && r == ts[|ts| - |r|..]
    ensures |r| < |ts| ==> ts[|ts| - |r| - 1].kind.Semicolon?
  {
    if ts == [] || ts[|ts| - 1].kind.Semicolon? then []
    else LastStatement(ts[..|ts| - 1]) + [ts[|ts| - 1]]
  }

  lemma OnlyLastStatementMatters(ts: seq<Token>)
    ensures FromTokens(ts) == FromTokens(LastStatement(ts))
  {
    hide Fold;
    hide Determined;
    var last := LastStatement(ts);
    if |last| < |ts| {
      var k := |ts| - |last| - 1;
      assert ts == ts[..k] + [ts[k]] + last;
      StatementsAreIndependent(ts[..k], ts[k], last);
    } else {
      assert last == ts;
    }
  }

  // ---------------------------------------------------------------- lifted to the text

  function ShiftedToken(t: Option<Token>, delta: nat): Option<Token> {
    match t
    case None => None
    case Some(token) => Some(token.Shift(delta))
  }

  /** The same context further right in the text. */
  function ShiftedView(v: View, delta: nat): View {
    v.(lastToken := ShiftedToken(v.lastToken, delta), prevToken := ShiftedToken(v.prevToken, delta))
  }

  lemma StepShifts(v: View, t: Token, ahead: seq<Token>, delta: nat)
    ensures Step(ShiftedView(v, delta), t.Shift(delta), Shifted(ahead, delta)) == ShiftedView(Step(v, t, ahead), delta)
  {
    hide Processed;
    hide Tracked;
    TrackedShifts(v, t, ahead, delta);
    var w := Tracked(v, t, ahead);
    ProcessedShifts(w, t, ahead, delta);
  }

  lemma TrackedShifts(v: View, t: Token, ahead: seq<Token>, delta: nat)
    ensures Tracked(ShiftedView(v, delta), t.Shift(delta), Shifted(ahead, delta)) == ShiftedView(Tracked(v, t, ahead), delta)
  {
    NextShifts(ahead, "SELECT", delta);
  }

  lemma NextShifts(ahead: seq<Token>, kw: string, delta: nat)
    ensures NextIs(Shifted(ahead, delta), kw) == NextIs(ahead, kw)
    ensures AliasAhead(Shifted(ahead, delta)) == AliasAhead(ahead)
  {
    if |ahead| > 0 {
      assert Shifted(ahead, delta)[0] == ahead[0].Shift(delta);
    }
    if |ahead| > 1 {
      assert Shifted(ahead, delta)[1] == ahead[1].Shift(delta);
    }
  }

  lemma OnIdentifierShifts(v: View, name: string, ahead: seq<Token>, delta: nat)
    ensures OnIdentifier(ShiftedView(v, delta), name, Shifted(ahead, delta)) ==
            ShiftedView(OnIdentifier(v, name, ahead), delta)
  {
    NextShifts(ahead, "BY", delta);
    hide AliasAhead;
    hide NextIs;
  }

  lemma ProcessedShifts(v: View, t: Token, ahead: seq<Token>, delta: nat)
    ensures Processed(ShiftedView(v, delta), t.Shift(delta), Shifted(ahead, delta)) == ShiftedView(Processed(v, t, ahead), delta)
  {
    NextShifts(ahead, "BY", delta);
    OnIdentifierShifts(v, t.text, ahead, delta);
    hide OnStatement;
    hide OnClause;
    hide OnJoin;
    hide OnIdentifier;
    hide NextIs;
    hide Upper;
    var u, m := ShiftedView(v, delta), t.Shift(delta);
    assert m.kind == t.kind && m.text == t.text && ModeOf(u) == ModeOf(v) && u.inSubquery == v.inSubquery;
    assert forall mode :: WithMode(u, mode) == ShiftedView(WithMode(v, mode), delta);
  }

  lemma {:induction false} FoldShifts(v: View, ts: seq<Token>, delta: nat)
    ensures Fold(ShiftedView(v, delta), Shifted(ts, delta)) == ShiftedView(Fold(v, ts), delta)
    decreases |ts|
  {
    hide Step;
    if ts != [] {
      StepShifts(v, ts[0], ts[1..], delta);
      assert Shifted(ts, delta)[1..] == Shifted(ts[1..], delta);
      FoldShifts(Step(v, ts[0], ts[1..]), ts[1..], delta);
    }
  }

  lemma DeterminedShifts(v: View, delta: nat)
    ensures Determined(ShiftedView(v, delta)) == ShiftedView(Determined(v), delta)
  {
  }

  lemma ContextShifts(ts: seq<Token>, delta: nat)
    ensures FromTokens(Shifted(ts, delta)) == ShiftedView(FromTokens(ts), delta)
  {
    FoldShifts(Fresh, ts, delta);
    hide Fold;
    DeterminedShifts(Fold(Fresh, ts), delta);
    hide Determined;
  }

  /** The context at the end of a text. */
  function ContextOf(text: string): View { FromTokens(Significant(TokensFrom(text, 0))) }

  lemma {:induction false} LastSignificant(ts: seq<Token>)
    requires ts != [] && ts[|ts| - 1].kind.Semicolon?
    ensures Significant(ts) == Significant(ts[..|ts| - 1]) + [ts[|ts| - 1]]
  {
    var n := |ts| - 1;
    assert ts == ts[..n] + [ts[n]];
    SignificantSplits(ts[..n], [ts[n]]);
    SignificantCons(ts[n], []);
    SignificantNil();
    hide Significant;
    assert [ts[n]] + [] == [ts[n]];
  }

  /** Statement locality on text: after a `p` that lexes with a final semicolon, the
      context of `p` followed by `q` is the context of `q`, moved right by `p`. */
  lemma TextAfterSemicolonIsFresh(p: string, q: string)
    requires p != [] && TokensFrom(p, 0) != [] && TokensFrom(p, 0)[|TokensFrom(p, 0)| - 1].kind.Semicolon?
    ensures ContextOf(p + q) == ShiftedView(ContextOf(q), |p|)
  {
    hide FromTokens;
    hide TokensFrom;
    hide Significant;
    var ps, qs := TokensFrom(p, 0), TokensFrom(q, 0);
    var n := |ps| - 1;
    SemicolonSplitsTokens(p, q, 0);
    SignificantSplits(ps, Shifted(qs, |p|));
    SignificantShifts(qs, |p|);
    LastSignificant(ps);
    StatementsAreIndependent(Significant(ps[..n]), ps[n], Shifted(Significant(qs), |p|));
    ContextShifts(Significant(qs), |p|);
  }

  // ---------------------------------------------------------------- what the context says is right

  /** Aliases point to tables in scope, and a subquery is inside parentheses. */
  predicate Sound(v: View) {
    && (forall a | a in v.aliases :: v.aliases[a] in v.tables)
    && v.parenDepth >= 0
    && (v.inSubquery ==> v.parenDepth > 0)
  }

  lemma StepKeepsSound(v: View, t: Token, ahead: seq<Token>)
    requires Sound(v)
    ensures Sound(Step(v, t, ahead))
  {
    hide NextIs;
    hide AliasAhead;
    hide OnStatement;
    hide OnClause;
    hide OnJoin;
    var w := Tracked(v, t, ahead);
    assert Sound(w);
    if t.kind.Identifier? && TableContext(w) {
      assert w.tables <= w.tables + [t.text];
    }
  }

  lemma {:induction false} FoldKeepsSound(v: View, ts: seq<Token>)
    requires Sound(v)
    ensures Sound(Fold(v, ts))
    decreases |ts|
  {
    hide Step;
    if ts != [] {
      StepKeepsSound(v, ts[0], ts[1..]);
      FoldKeepsSound(Step(v, ts[0], ts[1..]), ts[1..]);
    }
  }

  /** For every token list. */
  lemma ContextIsSound(ts: seq<Token>)
    ensures Sound(FromTokens(ts))
  {
    FoldKeepsSound(Fresh, ts);
    hide Fold;
  }

  // ---------------------------------------------------------------- the clamped depth

  function Weight(t: Token): int {
    if t.kind.OpenParen? then 1 else if t.kind.CloseParen? then -1 else 0
  }

  /** Opens minus closes. */
  function Balance(ts: seq<Token>): int {
    if ts == [] then 0 else Weight(ts[0]) + Balance(ts[1..])
  }

  /** The largest balance of any suffix. */
  function MaxSuffix(ts: seq<Token>): (r: int)
    ensures r >= 0
  {
    if ts == [] then 0
    else if Balance(ts) > MaxSuffix(ts[1..]) then Balance(ts) else MaxSuffix(ts[1..])
  }

  function Larger(a: int, b: int): int { if a > b then a else b }

  lemma StepDepth(v: View, t: Token, ahead: seq<Token>)
    requires !t.kind.Semicolon?
    ensures Step(v, t, ahead).parenDepth ==
            if t.kind.CloseParen? then Larger(v.parenDepth - 1, 0) else v.parenDepth + Weight(t)
  {
    hide NextIs;
    hide AliasAhead;
    hide OnStatement;
    hide OnClause;
    hide OnJoin;
  }

  lemma {:induction false} FoldDepth(v: View, ts: seq<Token>)
    requires v.parenDepth >= 0 && forall i | 0 <= i < |ts| :: !ts[i].kind.Semicolon?
    ensures Fold(v, ts).parenDepth == Larger(v.parenDepth + Balance(ts), MaxSuffix(ts))
    decreases |ts|
  {
    hide Step;
    if ts != [] {
      StepDepth(v, ts[0], ts[1..]);
      FoldDepth(Step(v, ts[0], ts[1..]), ts[1..]);
      MaxSuffixBounds(ts[1..], 0);
    }
  }

  lemma {:induction false} MaxSuffixBounds(ts: seq<Token>, i: nat)
    requires i <= |ts|
    ensures Balance(ts[i..]) <= MaxSuffix(ts)
  {
    if i > 0 {
      MaxSuffixBounds(ts[1..], i - 1);
      assert ts[1..][i - 1..] == ts[i..];
    } else {
      assert ts[0..] == ts;
    }
  }

  lemma {:induction false} MaxSuffixReached(ts: seq<Token>) returns (i: nat)
    ensures i <= |ts| && Balance(ts[i..]) == MaxSuffix(ts)
  {
    if ts == [] {
      i := 0;
    } else if Balance(ts) > MaxSuffix(ts[1..]) {
      i := 0;
      assert ts[0..] == ts;
    } else {
      i := MaxSuffixReached(ts[1..]);
      assert ts[1..][i..] == ts[i + 1..];
      i := i + 1;
    }
  }

  lemma DeterminedKeepsDepth(v: View)
    ensures Determined(v).parenDepth == v.parenDepth
  {
  }

  lemma ContextDepth(ts: seq<Token>)
    requires forall i | 0 <= i < |ts| :: !ts[i].kind.Semicolon?
    ensures FromTokens(ts).parenDepth == MaxSuffix(ts)
  {
    hide Fold;
    hide Determined;
    hide Balance;
    FoldDepth(Fresh, ts);
    MaxSuffixBounds(ts, 0);
    assert ts[0..] == ts;
    DeterminedKeepsDepth(Fold(Fresh, ts));
  }

  lemma MaxSuffixIsMax(ts: seq<Token>)
    ensures forall i | 0 <= i <= |ts| :: Balance(ts[i..]) <= MaxSuffix(ts)
    ensures exists i | 0 <= i <= |ts| :: Balance(ts[i..]) == MaxSuffix(ts)
  {
    hide Balance;
    hide MaxSuffix;
    forall i | 0 <= i <= |ts| ensures Balance(ts[i..]) <= MaxSuffix(ts) {
      MaxSuffixBounds(ts, i);
    }
    var i := MaxSuffixReached(ts);
  }

  /** The clamped parenthesis depth is the maximum, over all suffixes of the last
      statement, of opens minus closes. */
  lemma ParenDepthIsMaxSuffixBalance(ts: seq<Token>)
    ensures var last := LastStatement(ts);
            && (forall i | 0 <= i <= |last| :: Balance(last[i..]) <= FromTokens(ts).parenDepth)
            && (exists i | 0 <= i <= |last| :: Balance(last[i..]) == FromTokens(ts).parenDepth)
  {
    hide FromTokens;
    hide Balance;
    hide MaxSuffix;
    hide LastStatement;
    var last := LastStatement(ts);
    OnlyLastStatementMatters(ts);
    ContextDepth(last);
    MaxSuffixIsMax(last);
  }
}
