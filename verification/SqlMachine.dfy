/** What the state machine says, read off the tokens: which keyword the statement, the
    clause, the subquery and the expectation come from. */
module SqlMachine {
  import opened Wrappers
  import opened SqlKeywords
  import opened SqlLexer
  import opened SqlLexerLaws
  import opened SqlContext
  import opened SqlContextLaws

  // ---------------------------------------------------------------- the run

  /** The context after the first `n` tokens of `ts`, whose look-ahead sees the rest. */
  function At(ts: seq<Token>, n: nat): View
    requires n <= |ts|
  {
    if n == 0 then Fresh else Step(At(ts, n - 1), ts[n - 1], ts[n..])
  }

  lemma {:induction false} FoldFromAt(ts: seq<Token>, n: nat)
    requires n <= |ts|
    ensures Fold(At(ts, n), ts[n..]) == At(ts, |ts|)
    decreases |ts| - n
  {
    hide Step;
    if n < |ts| {
      FoldAhead(At(ts, n), ts, n);
      FoldFromAt(ts, n + 1);
    } else {
      assert ts[n..] == [];
    }
  }

  lemma FoldIsAt(ts: seq<Token>)
    ensures Fold(Fresh, ts) == At(ts, |ts|)
  {
    hide Step;
    hide Fold;
    FoldFromAt(ts, 0);
    assert ts[0..] == ts;
  }

  lemma DeterminedKeeps(v: View)
    ensures Determined(v) == v.(expecting := Determined(v).expecting)
  {
  }

  /** The analysed context is the last state of the run, up to the expectation. */
  lemma AnalysedIsAt(ts: seq<Token>)
    ensures var v, w := At(ts, |ts|), FromTokens(ts); w == v.(expecting := w.expecting)
  {
    hide Step;
    hide Determined;
    FoldIsAt(ts);
    hide Fold;
    DeterminedKeeps(At(ts, |ts|));
  }

  // ---------------------------------------------------------------- one token

  /** Only keywords and semicolons change the statement or the clause. */
  lemma StepMode(v: View, t: Token, ahead: seq<Token>)
    ensures var w := Step(v, t, ahead);
            match t.kind
            case Semicolon => w == Fresh
            case Keyword(Statement) => ModeOf(w) == OnStatement(ModeOf(v), v.inSubquery, Upper(t.text))
            case Keyword(Clause) => ModeOf(w) == OnClause(ModeOf(v), Upper(t.text), NextIs(ahead, "BY"))
            case Keyword(Join) => ModeOf(w) == OnJoin(ModeOf(v), Upper(t.text))
            case Identifier => ModeOf(w) == ModeOf(v).(expecting := Identified(ModeOf(v)))
            case Star => ModeOf(w) == ModeOf(v).(expecting := if v.clause == SelectColumns then FromKeyword else v.expecting)
            case _ => ModeOf(w) == ModeOf(v)
  {
    hide NextIs;
    hide AliasAhead;
    hide Upper;
    hide OnStatement;
    hide OnClause;
    hide OnJoin;
  }

  /** What is expected behind an identifier. */
  function Identified(m: Mode): Expecting {
    match m.clause
    case From => ClauseOrJoin
    case JoinTable => OnOrClause
    case InsertInto => ValuesOrColumns
    case NoClause => if m.statement == Some(Update) then SetKeyword else m.expecting
    case SelectColumns => CommaOrFrom
    case Where | JoinOn => AnOperator
    case SetClause => Equals
    case OrderBy | GroupBy => OrderModifierOrComma
    case _ => m.expecting
  }

  // ---------------------------------------------------------------- the statement

  /** The statement a keyword names. */
  function Named(t: Token): Option<StatementKind> {
    var kw := Upper(t.text);
    if t.kind != Keyword(Statement) then None
    else if kw == "SELECT" then Some(Select)
    else if kw == "INSERT" then Some(Insert)
    else if kw == "UPDATE" then Some(Update)
    else if kw == "DELETE" then Some(Delete)
    else if kw in {"CREATE", "DROP", "ALTER", "TRUNCATE"} then Some(DdlStatement)
    else None
  }

  /** A `SELECT` inside a subquery does not start a statement. */
  predicate Starts(v: View, t: Token) { Named(t).Some? && !(Named(t) == Some(Select) && v.inSubquery) }

  lemma StatementWordStarts(v: View, t: Token)
    requires t.kind == Keyword(Statement)
    ensures OnStatement(ModeOf(v), v.inSubquery, Upper(t.text)).statement == if Starts(v, t) then Named(t) else v.statement
  {
    hide Upper;
  }

  lemma OthersKeepStatement(m: Mode, kw: string, byFollows: bool)
    ensures OnClause(m, kw, byFollows).statement == OnJoin(m, kw).statement == m.statement
  {
  }

  lemma StepStatement(v: View, t: Token, ahead: seq<Token>)
    ensures Step(v, t, ahead).statement ==
            if t.kind.Semicolon? then None else if Starts(v, t) then Named(t) else v.statement
  {
    hide Step;
    hide NextIs;
    hide Upper;
    hide OnStatement;
    hide OnClause;
    hide OnJoin;
    hide Identified;
    StepMode(v, t, ahead);
    OthersKeepStatement(ModeOf(v), Upper(t.text), NextIs(ahead, "BY"));
    if t.kind == Keyword(Statement) { StatementWordStarts(v, t); }
  }

  /** Token `i` starts the statement under way before token `n`. */
  ghost predicate Governs(ts: seq<Token>, i: nat, n: nat)
    requires n <= |ts|
  {
    && i < n && Starts(At(ts, i), ts[i])
    && forall j | i < j < n :: !Starts(At(ts, j), ts[j]) && !ts[j].kind.Semicolon?
  }

  lemma AtNext(ts: seq<Token>, n: nat)
    requires n < |ts|
    ensures At(ts, n + 1) == Step(At(ts, n), ts[n], ts[n + 1..])
  {
    hide Step;
  }

  /** The statement under way before token `n` is a `k`. */
  ghost predicate Under(ts: seq<Token>, n: nat, k: StatementKind)
    requires n <= |ts|
  {
    exists i: nat :: Governs(ts, i, n) && Named(ts[i]) == Some(k)
  }

  lemma {:induction false} StatementAt(ts: seq<Token>, n: nat, k: StatementKind)
    requires n <= |ts|
    ensures At(ts, n).statement == Some(k) <==> Under(ts, n, k)
  {
    hide Step;
    hide Starts;
    hide Named;
    hide At;
    hide Under;
    if n == 0 {
      NothingUnder(ts, k);
    } else {
      var v, t := At(ts, n - 1), ts[n - 1];
      AtNext(ts, n - 1);
      StatementAt(ts, n - 1, k);
      StepStatement(v, t, ts[n..]);
      if t.kind.Semicolon? { SemicolonStartsNothing(v, t); }
      UnderNext(ts, n, k);
    }
  }

  lemma NothingUnder(ts: seq<Token>, k: StatementKind)
    ensures At(ts, 0).statement == None && !Under(ts, 0, k)
  {
  }

  lemma UnderNext(ts: seq<Token>, n: nat, k: StatementKind)
    requires 0 < n <= |ts|
    ensures Under(ts, n, k) <==>
            if Starts(At(ts, n - 1), ts[n - 1]) then Named(ts[n - 1]) == Some(k)
            else Under(ts, n - 1, k) && !ts[n - 1].kind.Semicolon?
  {
    hide At;
    hide Starts;
    hide Named;
    var m: nat := n - 1;
    if Starts(At(ts, m), ts[m]) {
      assert Governs(ts, m, n);
      forall i: nat | Governs(ts, i, n) ensures i == m {
      }
    } else {
      forall i: nat | Governs(ts, i, n) ensures Governs(ts, i, m) && !ts[m].kind.Semicolon? {
      }
      if !ts[m].kind.Semicolon? {
        forall i: nat | Governs(ts, i, m) ensures Governs(ts, i, n) {
        }
      }
    }
  }

  lemma SemicolonStartsNothing(v: View, t: Token)
    requires t.kind.Semicolon?
    ensures !Starts(v, t)
  {
  }

  /** The statement is named by the last statement keyword since the last semicolon,
      where a `SELECT` inside a subquery does not count. */
  lemma StatementIsLastKeyword(ts: seq<Token>, k: StatementKind)
    ensures FromTokens(ts).statement == Some(k) <==> Under(ts, |ts|, k)
  {
    hide At;
    hide Named;
    AnalysedIsAt(ts);
    StatementAt(ts, |ts|, k);
  }

  // ---------------------------------------------------------------- the subquery

  predicate OpensSubquery(ts: seq<Token>, i: nat)
    requires i < |ts|
  {
    ts[i].kind.OpenParen? && NextIs(ts[i + 1..], "SELECT")
  }

  lemma StepSubquery(v: View, t: Token, ahead: seq<Token>)
    requires Sound(v)
    ensures var w := Step(v, t, ahead);
            w.inSubquery <==> w.parenDepth > 0 && (v.inSubquery || (t.kind.OpenParen? && NextIs(ahead, "SELECT")))
  {
    hide NextIs;
    hide AliasAhead;
    hide OnStatement;
    hide OnClause;
    hide OnJoin;
  }

  /** Since the parenthesis at `i` the depth has not come back to zero. */
  ghost predicate StillInside(ts: seq<Token>, i: nat, n: nat)
    requires n <= |ts|
  {
    i < n && OpensSubquery(ts, i) && forall j | i < j <= n :: At(ts, j).parenDepth > 0
  }

  lemma {:induction false} AtIsSound(ts: seq<Token>, n: nat)
    requires n <= |ts|
    ensures Sound(At(ts, n))
  {
    hide Step;
    if n > 0 {
      AtIsSound(ts, n - 1);
      StepKeepsSound(At(ts, n - 1), ts[n - 1], ts[n..]);
    }
  }

  lemma {:induction false} SubqueryAt(ts: seq<Token>, n: nat)
    requires n <= |ts|
    ensures At(ts, n).inSubquery <==> exists i: nat :: StillInside(ts, i, n)
  {
    hide Step;
    hide Sound;
    hide NextIs;
    if n > 0 {
      var v, t := At(ts, n - 1), ts[n - 1];
      SubqueryAt(ts, n - 1);
      AtIsSound(ts, n - 1);
      StepSubquery(v, t, ts[n..]);
      hide OpensSubquery;
      assert OpensSubquery(ts, n - 1) <==> t.kind.OpenParen? && NextIs(ts[n..], "SELECT") by { OpensAt(ts, n - 1); }
      forall i: nat | StillInside(ts, i, n)
        ensures At(ts, n).parenDepth > 0 && (i == n - 1 || StillInside(ts, i, n - 1))
      {
      }
      if At(ts, n).inSubquery {
        if v.inSubquery {
          var i: nat :| StillInside(ts, i, n - 1);
          assert StillInside(ts, i, n);
        } else {
          assert StillInside(ts, n - 1, n);
        }
      }
    }
  }

  lemma OpensAt(ts: seq<Token>, i: nat)
    requires i < |ts|
    ensures OpensSubquery(ts, i) <==> ts[i].kind.OpenParen? && NextIs(ts[i + 1..], "SELECT")
  {
  }

  /** A subquery is under way exactly when some parenthesis was followed by `SELECT` and
      the depth has stayed positive since. */
  lemma SubqueryIff(ts: seq<Token>)
    ensures FromTokens(ts).inSubquery <==> exists i: nat :: StillInside(ts, i, |ts|)
  {
    hide At;
    AnalysedIsAt(ts);
    SubqueryAt(ts, |ts|);
  }

  // ---------------------------------------------------------------- the clause

  predicate IsWord(t: Token, kind: KeywordKind, kw: string) { t.kind == Keyword(kind) && Upper(t.text) == kw }

  /** What it takes to open clause `c` at token `t`. */
  predicate Opens(c: ClauseKind, v: View, t: Token, ahead: seq<Token>) {
    match c
    case NoClause => t.kind.Semicolon? || (Named(t).Some? && Named(t) != Some(Select))
    case SelectColumns => IsWord(t, Statement, "SELECT")
    case From => IsWord(t, Clause, "FROM")
    case Where => IsWord(t, Clause, "WHERE")
    case JoinTable => IsWord(t, Join, "JOIN")
    case JoinPending =>
      t.kind == Keyword(Join) && Upper(t.text) in {"LEFT", "RIGHT", "INNER", "OUTER", "FULL", "CROSS", "NATURAL"}
    case JoinOn => IsWord(t, Clause, "ON") && v.clause == JoinTable
    case GroupBy => IsWord(t, Clause, "GROUP") && NextIs(ahead, "BY")
    case OrderBy => IsWord(t, Clause, "ORDER") && NextIs(ahead, "BY")
    case Having => IsWord(t, Clause, "HAVING")
    case Limit => IsWord(t, Clause, "LIMIT")
    case Offset => IsWord(t, Clause, "OFFSET")
    case InsertInto => IsWord(t, Clause, "INTO") && v.statement == Some(Insert)
    case InsertColumns => false
    case Values => IsWord(t, Clause, "VALUES")
    case SetClause => IsWord(t, Clause, "SET") && v.statement == Some(Update)
  }

  lemma OpensTo(c: ClauseKind, v: View, t: Token, ahead: seq<Token>)
    requires Opens(c, v, t, ahead)
    ensures Step(v, t, ahead).clause == c
  {
    hide NextIs;
    hide Upper;
    hide Step;
    StepMode(v, t, ahead);
    match t.kind
    case Keyword(Clause) => ClauseWordOpensTo(c, v, t, ahead);
    case _ => hide OnClause;
  }

  lemma ClauseWordOpensTo(c: ClauseKind, v: View, t: Token, ahead: seq<Token>)
    requires Opens(c, v, t, ahead) && t.kind == Keyword(Clause)
    ensures OnClause(ModeOf(v), Upper(t.text), NextIs(ahead, "BY")).clause == c
  {
    hide NextIs;
    hide Upper;
    assert Named(t).None?;
    hide Named;
  }

  lemma ClauseWordOpens(v: View, t: Token, ahead: seq<Token>)
    requires t.kind == Keyword(Clause)
    ensures var c := OnClause(ModeOf(v), Upper(t.text), NextIs(ahead, "BY")).clause;
            c == v.clause || Opens(c, v, t, ahead)
  {
    hide NextIs;
    hide Upper;
    hide Named;
  }

  lemma OtherWordOpens(v: View, t: Token, ahead: seq<Token>)
    ensures var c := OnStatement(ModeOf(v), v.inSubquery, Upper(t.text)).clause;
            t.kind == Keyword(Statement) ==> c == v.clause || Opens(c, v, t, ahead)
    ensures var c := OnJoin(ModeOf(v), Upper(t.text)).clause;
            t.kind == Keyword(Join) ==> c == v.clause || Opens(c, v, t, ahead)
  {
    hide NextIs;
    hide Upper;
  }

  lemma OnlyOpened(v: View, t: Token, ahead: seq<Token>)
    ensures var c := Step(v, t, ahead).clause; c == v.clause || Opens(c, v, t, ahead)
  {
    hide NextIs;
    hide Upper;
    hide Step;
    hide OnStatement;
    hide OnClause;
    hide OnJoin;
    hide IsWord;
    StepMode(v, t, ahead);
    match t.kind
    case Keyword(Clause) => ClauseWordOpens(v, t, ahead);
    case _ => OtherWordOpens(v, t, ahead);
  }

  ghost predicate OpensAny(v: View, t: Token, ahead: seq<Token>) { exists c :: Opens(c, v, t, ahead) }

  ghost predicate OpensAnyAt(ts: seq<Token>, j: nat)
    requires j < |ts|
  {
    OpensAny(At(ts, j), ts[j], ts[j + 1..])
  }

  /** Of all tokens before `n` that open a clause, the last opens `c`. */
  ghost predicate LastOpened(ts: seq<Token>, n: nat, c: ClauseKind)
    requires n <= |ts|
  {
    || (exists j: nat :: OpensLast(ts, j, n, c))
    || (c == NoClause && forall m | 0 <= m < n :: !OpensAnyAt(ts, m))
  }

  ghost predicate OpensLast(ts: seq<Token>, j: nat, n: nat, c: ClauseKind)
    requires n <= |ts|
  {
    j < n && Opens(c, At(ts, j), ts[j], ts[j + 1..]) && forall m | j < m < n :: !OpensAnyAt(ts, m)
  }

  lemma LastOpenedOn(ts: seq<Token>, n: nat, c: ClauseKind)
    requires 0 < n <= |ts| && !OpensAnyAt(ts, n - 1)
    ensures LastOpened(ts, n, c) <==> LastOpened(ts, n - 1, c)
  {
    hide At;
    hide Opens;
    var k: nat := n - 1;
    assert !OpensAny(At(ts, k), ts[k], ts[k + 1..]);
    forall j: nat | OpensLast(ts, j, n, c) ensures OpensLast(ts, j, k, c) {
      assert OpensAny(At(ts, j), ts[j], ts[j + 1..]);
    }
    forall j: nat | OpensLast(ts, j, k, c) ensures OpensLast(ts, j, n, c) {
    }
  }

  lemma {:induction false} ClauseAt(ts: seq<Token>, n: nat, c: ClauseKind)
    requires n <= |ts|
    ensures At(ts, n).clause == c <==> LastOpened(ts, n, c)
  {
    hide Step;
    if n > 0 {
      var v, t, ahead := At(ts, n - 1), ts[n - 1], ts[n..];
      assert At(ts, n) == Step(v, t, ahead);
      ClauseAt(ts, n - 1, c);
      hide At;
      var d := At(ts, n).clause;
      OnlyOpened(v, t, ahead);
      if OpensAnyAt(ts, n - 1) {
        var e :| Opens(e, v, t, ahead);
        OpensTo(e, v, t, ahead);
        assert d == e;
        if d == c { assert OpensLast(ts, n - 1, n, c); }
        forall j: nat | OpensLast(ts, j, n, c) ensures d == c {
          assert j == n - 1;
          OpensTo(c, v, t, ahead);
        }
      } else {
        assert !OpensAny(v, t, ahead);
        assert d == v.clause;
        LastOpenedOn(ts, n, c);
      }
    } else {
      hide Opens;
    }
  }

  /** The clause is the one opened last, and only these tokens open clauses: a clause
      keyword that may (`ON` behind a joined table, `INTO` and `SET` in their statements,
      `ORDER` and `GROUP` before `BY`), a join keyword, a statement keyword, a semicolon. */
  lemma ClauseIsLastOpened(ts: seq<Token>, c: ClauseKind)
    ensures FromTokens(ts).clause == c <==> LastOpened(ts, |ts|, c)
  {
    hide At;
    hide LastOpened;
    AnalysedIsAt(ts);
    ClauseAt(ts, |ts|, c);
  }

  /** A join condition belongs to a `JOIN`: between the two, and since, no clause was opened. */
  lemma JoinOnNeedsJoin(ts: seq<Token>) returns (join: nat, on: nat)
    requires FromTokens(ts).clause == JoinOn
    ensures join < on < |ts| && IsWord(ts[join], Join, "JOIN") && IsWord(ts[on], Clause, "ON")
    ensures forall m | join < m < |ts| && m != on :: !OpensAnyAt(ts, m)
  {
    hide At;
    hide IsWord;
    ClauseIsLastOpened(ts, JoinOn);
    on :| OpensLast(ts, on, |ts|, JoinOn);
    ClauseAt(ts, on, JoinTable);
    join :| OpensLast(ts, join, on, JoinTable);
  }

  /** The table list of an `INSERT` and the assignments of an `UPDATE` stand in that statement. */
  predicate Fits(v: View) {
    && (v.clause == InsertInto ==> v.statement == Some(Insert))
    && (v.clause == SetClause ==> v.statement == Some(Update))
  }

  lemma ClauseWordKeepsFits(m: Mode, kw: string, byFollows: bool)
    ensures var r := OnClause(m, kw, byFollows);
            && r.statement == m.statement
            && (r.clause == InsertInto ==> m.clause == InsertInto || m.statement == Some(Insert))
            && (r.clause == SetClause ==> m.clause == SetClause || m.statement == Some(Update))
  {
  }

  lemma StepKeepsFits(v: View, t: Token, ahead: seq<Token>)
    requires Fits(v)
    ensures Fits(Step(v, t, ahead))
  {
    hide NextIs;
    hide Upper;
    hide Step;
    hide OnClause;
    hide Identified;
    StepMode(v, t, ahead);
    ClauseWordKeepsFits(ModeOf(v), Upper(t.text), NextIs(ahead, "BY"));
  }

  lemma {:induction false} FitsAt(ts: seq<Token>, n: nat)
    requires n <= |ts|
    ensures Fits(At(ts, n))
  {
    hide Step;
    if n > 0 {
      FitsAt(ts, n - 1);
      StepKeepsFits(At(ts, n - 1), ts[n - 1], ts[n..]);
    }
  }

  /** For every token list; with the keyword that opened the statement. */
  lemma ClauseFitsStatement(ts: seq<Token>)
    ensures Fits(FromTokens(ts))
    ensures FromTokens(ts).clause == InsertInto ==> Under(ts, |ts|, Insert)
    ensures FromTokens(ts).clause == SetClause ==> Under(ts, |ts|, Update)
  {
    hide At;
    hide Named;
    AnalysedIsAt(ts);
    FitsAt(ts, |ts|);
    StatementAt(ts, |ts|, Insert);
    StatementAt(ts, |ts|, Update);
  }

  // ---------------------------------------------------------------- the expectation

  /** The clauses in which the context may expect `e`; a pending join keeps what was expected. */
  predicate Expectable(e: Expecting, c: ClauseKind, s: Option<StatementKind>) {
    || c == JoinPending
    || match e
       case TableName => c == From || c == JoinTable || c == InsertInto || (c == NoClause && s == Some(Update))
       case ClauseOrJoin => c == From
       case OnOrClause => c == JoinTable
       case JoinCondition => c == JoinOn
       case ValuesOrColumns => c == InsertInto
       case ValueList => c == Values
       case SetKeyword => c == NoClause && s == Some(Update)
       case IntoKeyword => c == NoClause && s == Some(Insert)
       case DdlObject => c == NoClause && s == Some(DdlStatement)
       case FromKeyword => c == SelectColumns || (c == NoClause && s == Some(Delete))
       case ColumnOrStar | CommaOrFrom => c == SelectColumns
       case Equals => c == SetClause
       case AnOperator => c == Where || c == JoinOn
       case AValue => c == Where || c == JoinOn || c == SetClause
       case ColumnOrExpression => c == Where
       case OrderModifierOrComma => c == OrderBy || c == GroupBy
       case ColumnName => c == OrderBy || c == GroupBy || c == SetClause
       case AggregateOrColumn => c == Having
       case ANumber => c == Limit || c == Offset
       case AStatement | Alias | QualifiedColumn => true
  }

  predicate ModeFits(m: Mode) { Expectable(m.expecting, m.clause, m.statement) }

  lemma StatementWordKeepsModeFits(m: Mode, inSubquery: bool, kw: string)
    requires ModeFits(m)
    ensures ModeFits(OnStatement(m, inSubquery, kw))
  {
  }

  lemma ClauseWordKeepsModeFits(m: Mode, kw: string, byFollows: bool)
    requires ModeFits(m)
    ensures ModeFits(OnClause(m, kw, byFollows))
  {
  }

  lemma OthersKeepModeFits(m: Mode, kw: string)
    requires ModeFits(m)
    ensures ModeFits(OnJoin(m, kw)) && ModeFits(m.(expecting := Identified(m)))
    ensures m.clause == SelectColumns ==> ModeFits(m.(expecting := FromKeyword))
  {
  }

  lemma StepKeepsExpectable(v: View, t: Token, ahead: seq<Token>)
    requires ModeFits(ModeOf(v))
    ensures ModeFits(ModeOf(Step(v, t, ahead)))
  {
    hide NextIs;
    hide Upper;
    hide Step;
    hide OnStatement;
    hide OnClause;
    hide OnJoin;
    hide Identified;
    hide Expectable;
    var m, kw := ModeOf(v), Upper(t.text);
    StepMode(v, t, ahead);
    StatementWordKeepsModeFits(m, v.inSubquery, kw);
    ClauseWordKeepsModeFits(m, kw, NextIs(ahead, "BY"));
    OthersKeepModeFits(m, kw);
    assert Expectable(AStatement, NoClause, None) by { NothingExpected(); }
  }

  lemma NothingExpected()
    ensures Expectable(AStatement, NoClause, None)
  {
  }

  lemma {:induction false} ExpectableAt(ts: seq<Token>, n: nat)
    requires n <= |ts|
    ensures ModeFits(ModeOf(At(ts, n)))
  {
    hide Step;
    hide Expectable;
    if n > 0 {
      ExpectableAt(ts, n - 1);
      StepKeepsExpectable(At(ts, n - 1), ts[n - 1], ts[n..]);
    } else {
      NothingExpected();
    }
  }

  /** What is expected fits the clause and the statement, for every token list. */
  lemma ExpectationFitsClause(ts: seq<Token>)
    ensures var v := FromTokens(ts); Expectable(v.expecting, v.clause, v.statement)
  {
    hide At;
    FoldIsAt(ts);
    ExpectableAt(ts, |ts|);
    hide Fold;
  }

  /** The tokens carry the keyword kinds of the tokenizer's tables. */
  predicate Classified(ts: seq<Token>) {
    forall i | 0 <= i < |ts| && ts[i].kind.Keyword? :: ts[i].kind == ClassifyWord(ts[i].text)
  }

  lemma SelectIsStatement(t: Token)
    requires IsKeyword(t, "SELECT") && t.kind == ClassifyWord(t.text)
    ensures t.kind == Keyword(Statement)
  {
  }

  /** Every keyword that names a statement, and `SELECT` in a subquery, ends the wait for one. */
  lemma StepEndsWait(v: View, t: Token, ahead: seq<Token>)
    requires Step(v, t, ahead).expecting == AStatement && !t.kind.Semicolon?
    ensures v.expecting == AStatement && Step(v, t, ahead).statement == v.statement
    ensures !IsWord(t, Statement, "SELECT")
  {
    hide NextIs;
    hide Upper;
    hide Step;
    StepMode(v, t, ahead);
    ClauseWordExpects(ModeOf(v), Upper(t.text), NextIs(ahead, "BY"));
    hide OnClause;
  }

  lemma ClauseWordExpects(m: Mode, kw: string, byFollows: bool)
    ensures var r := OnClause(m, kw, byFollows);
            r.statement == m.statement && (r.expecting == AStatement ==> m.expecting == AStatement)
  {
  }

  /** While a statement is expected there is none yet, and a subquery is at most about to
      be entered. */
  lemma {:induction false} WaitingAt(ts: seq<Token>, n: nat)
    requires n <= |ts| && Classified(ts)
    ensures var v := At(ts, n);
            v.expecting == AStatement ==>
              v.statement.None? && (v.inSubquery ==> n > 0 && OpensSubquery(ts, n - 1))
  {
    hide Step;
    hide NextIs;
    hide ClassifyWord;
    if n > 0 && At(ts, n).expecting == AStatement {
      var v, t := At(ts, n - 1), ts[n - 1];
      WaitingAt(ts, n - 1);
      AtIsSound(ts, n - 1);
      StepSubquery(v, t, ts[n..]);
      if t.kind.Semicolon? {
        SemicolonResets(v, t, ts[n..]);
      } else {
        StepEndsWait(v, t, ts[n..]);
        if v.inSubquery { NextIsSelect(ts, n - 2); }
      }
    }
  }

  lemma SemicolonResets(v: View, t: Token, ahead: seq<Token>)
    requires t.kind.Semicolon?
    ensures Step(v, t, ahead) == Fresh
  {
  }

  lemma NextIsSelect(ts: seq<Token>, i: nat)
    requires i + 1 < |ts| && OpensSubquery(ts, i) && Classified(ts)
    ensures IsWord(ts[i + 1], Statement, "SELECT")
  {
    hide ClassifyWord;
    assert ts[i + 1..][0] == ts[i + 1];
    SelectIsStatement(ts[i + 1]);
  }

  /** The context asks for a statement exactly when none has begun, in a subquery or not. */
  lemma ExpectsStatementIff(ts: seq<Token>)
    requires Classified(ts)
    ensures var v := FromTokens(ts); v.expecting == AStatement <==> v.statement.None? && !v.inSubquery
  {
    hide At;
    hide Classified;
    FoldIsAt(ts);
    WaitingAt(ts, |ts|);
    hide Fold;
    if ts != [] {
      var v := At(ts, |ts|);
      assert !OpensSubquery(ts, |ts| - 1);
      LastTokenSaysNoStatement(v);
    }
  }

  lemma LastTokenSaysNoStatement(v: View)
    ensures Determined(v).expecting == AStatement ==>
              v.expecting == AStatement || (v.statement.None? && !v.inSubquery)
    ensures v.statement.None? && !v.inSubquery ==> Determined(v).expecting == AStatement
  {
  }

  lemma LexClassifies(s: string)
    requires |s| > 0
    ensures Lex(s).kind.Keyword? ==> Lex(s).kind == ClassifyWord(Lex(s).text)
  {
    hide ClassifyWord;
    hide SpanWord;
    hide SpanLine;
    hide SpanNumber;
    hide SpanWhite;
    hide ScanQuoted;
    hide ScanBlock;
  }

  lemma {:induction false} TokensAreClassified(s: string, at: nat)
    ensures Classified(Significant(TokensFrom(s, at)))
    decreases |s|
  {
    hide Lex;
    hide ClassifyWord;
    if s != [] {
      var l := Lex(s);
      LexClassifies(s);
      TokensAreClassified(s[l.len..], at + l.len);
      SignificantCons(Token(l.kind, l.text, at, at + l.len), TokensFrom(s[l.len..], at + l.len));
      hide Significant;
    }
  }

  /** On text: for every text the completion offers statements exactly when none has begun. */
  lemma TextExpectsStatementIff(text: string)
    ensures var v := ContextOf(text); v.expecting == AStatement <==> v.statement.None? && !v.inSubquery
  {
    hide FromTokens;
    hide Classified;
    hide TokensFrom;
    hide Significant;
    TokensAreClassified(text, 0);
    ExpectsStatementIff(Significant(TokensFrom(text, 0)));
  }

  // ---------------------------------------------------------------- comments

  /** The same context up to the two tokens it looks back on. */
  predicate Alike(v: View, w: View) { v == w.(lastToken := v.lastToken, prevToken := v.prevToken) }

  /** The aliases after a table name. */
  function Aliased(aliases: map<string, string>, name: string, ahead: seq<Token>): map<string, string> {
    match AliasAhead(ahead)
    case None => aliases
    case Some(alias) => aliases[alias := name]
  }

  /** `t`, in context `v`, tells the tokens `x` ahead from the tokens `y`. */
  predicate Sees(v: View, t: Token, x: seq<Token>, y: seq<Token>) {
    match t.kind
    case OpenParen => !v.inSubquery && NextIs(x, "SELECT") != NextIs(y, "SELECT")
    case Keyword(Clause) => NextIs(x, "BY") != NextIs(y, "BY") && ByShows(ModeOf(v), Upper(t.text))
    case Identifier => TableContext(v) && Aliased(v.aliases, t.text, x) != Aliased(v.aliases, t.text, y)
    case _ => false
  }

  /** `ORDER` or `GROUP` where its clause does not begin anyway. */
  predicate ByShows(m: Mode, kw: string) {
    || (kw == "ORDER" && (m.clause, m.expecting) != (OrderBy, ColumnName))
    || (kw == "GROUP" && (m.clause, m.expecting) != (GroupBy, ColumnName))
  }

  lemma ByShowsIff(m: Mode, kw: string)
    ensures OnClause(m, kw, true) == OnClause(m, kw, false) <==> !ByShows(m, kw)
  {
  }

  lemma TrackedSameIff(v: View, t: Token, x: seq<Token>, y: seq<Token>)
    ensures Tracked(v, t, x) == Tracked(v, t, y) <==>
            !(t.kind.OpenParen? && !v.inSubquery && NextIs(x, "SELECT") != NextIs(y, "SELECT"))
    ensures var w := Tracked(v, t, x);
            ModeOf(w) == ModeOf(v) && w.aliases == v.aliases && (!t.kind.OpenParen? ==> w == Tracked(v, t, y))
  {
    hide NextIs;
  }

  lemma ProcessedSameIff(v: View, t: Token, x: seq<Token>, y: seq<Token>)
    requires !t.kind.OpenParen?
    ensures Processed(v, t, x) == Processed(v, t, y) <==> !Sees(v, t, x, y)
  {
    if t.kind == Keyword(Clause) {
      ByShowsIff(ModeOf(v), Upper(t.text));
    }
    hide NextIs;
    hide AliasAhead;
    hide Upper;
    hide OnStatement;
    hide OnClause;
    hide OnJoin;
    hide ByShows;
  }

  /** A step depends on the tokens ahead exactly as far as its token sees them. */
  lemma StepSameIff(v: View, t: Token, x: seq<Token>, y: seq<Token>)
    ensures Step(v, t, x) == Step(v, t, y) <==> !Sees(v, t, x, y)
  {
    hide NextIs;
    hide AliasAhead;
    hide Upper;
    hide ByShows;
    TrackedSameIff(v, t, x, y);
    var w := Tracked(v, t, x);
    if t.kind.OpenParen? {
      hide Tracked;
    } else {
      ProcessedSameIff(w, t, x, y);
      hide Tracked;
      hide Processed;
    }
  }

  lemma TrackedAlike(v: View, w: View, t: Token, ahead: seq<Token>)
    requires Alike(v, w)
    ensures Alike(Tracked(v, t, ahead), Tracked(w, t, ahead))
    ensures Tracked(v, t, ahead).lastToken == Tracked(w, t, ahead).lastToken == Some(t)
  {
    hide NextIs;
  }

  lemma ProcessedAlike(v: View, w: View, t: Token, ahead: seq<Token>)
    requires Alike(v, w)
    ensures Alike(Processed(v, t, ahead), Processed(w, t, ahead))
    ensures Processed(v, t, ahead).lastToken == v.lastToken && Processed(w, t, ahead).lastToken == w.lastToken
  {
    hide NextIs;
    hide AliasAhead;
    hide Upper;
    hide OnStatement;
    hide OnClause;
    hide OnJoin;
    assert ModeOf(v) == ModeOf(w) && v.inSubquery == w.inSubquery;
  }

  lemma StepAlike(v: View, w: View, t: Token, ahead: seq<Token>)
    requires Alike(v, w)
    ensures Alike(Step(v, t, ahead), Step(w, t, ahead))
    ensures Step(v, t, ahead).lastToken == Step(w, t, ahead).lastToken
  {
    hide Tracked;
    hide Processed;
    TrackedAlike(v, w, t, ahead);
    ProcessedAlike(Tracked(v, t, ahead), Tracked(w, t, ahead), t, ahead);
  }

  lemma {:induction false} FoldAlike(v: View, w: View, ts: seq<Token>)
    requires Alike(v, w)
    ensures Alike(Fold(v, ts), Fold(w, ts))
    ensures ts != [] ==> Fold(v, ts).lastToken == Fold(w, ts).lastToken
    decreases |ts|
  {
    hide Step;
    if ts != [] {
      var t, ahead := ts[0], ts[1..];
      StepAlike(v, w, t, ahead);
      FoldAlike(Step(v, t, ahead), Step(w, t, ahead), ahead);
      if ahead == [] {
        assert Fold(v, ts) == Step(v, t, ahead) && Fold(w, ts) == Step(w, t, ahead);
      }
    }
  }

  /** A comment between `a` and `b` hides something from a token of `a` that would have
      made a difference: `SELECT` from a parenthesis outside subqueries, `BY` from `ORDER`
      or `GROUP`, an alias from a table name, or the name behind `AS` from it. */
  predicate Hides(a: seq<Token>, b: seq<Token>) {
    && |a| > 0 && |b| > 0
    && var n := |a| - 1;
    var v, t := At(a + b, n), (a + b)[n];
    || (t.kind.OpenParen? && !v.inSubquery && IsKeyword(b[0], "SELECT"))
    || (t.kind == Keyword(Clause) && ByShows(ModeOf(v), Upper(t.text)) && IsKeyword(b[0], "BY"))
    || (t.kind.Identifier? && TableContext(v) && Aliased(v.aliases, t.text, b) != v.aliases)
    || (n > 0 && IsKeyword(t, "AS") && b[0].kind.Identifier?
        && var w, name := At(a + b, n - 1), (a + b)[n - 1];
           name.kind.Identifier? && TableContext(w) && w.aliases[b[0].text := name.text] != w.aliases)
  }

  /** Two tokens ahead are all that a token looks at. */
  lemma TwoAhead(v: View, t: Token, x: seq<Token>, y: seq<Token>)
    requires |x| >= 2 && |y| >= 2 && x[0] == y[0] && x[1] == y[1]
    ensures Step(v, t, x) == Step(v, t, y)
  {
    hide Step;
    hide Upper;
    StepSameIff(v, t, x, y);
  }

  /** The tokens of `a` but the last two do not notice a comment behind `a`. */
  lemma {:induction false} EarlierUnaware(a: seq<Token>, c: Token, b: seq<Token>, k: nat)
    requires k + 2 <= |a| || k == 0
    ensures At(a + [c] + b, k) == At(a + b, k)
  {
    hide Step;
    if k > 0 {
      var x, y := a + [c] + b, a + b;
      EarlierUnaware(a, c, b, k - 1);
      assert x[k - 1] == y[k - 1] && x[k] == y[k] && x[k + 1] == y[k + 1];
      assert x[k..][0] == x[k] && x[k..][1] == x[k + 1] && y[k..][0] == y[k] && y[k..][1] == y[k + 1];
      TwoAhead(At(y, k - 1), y[k - 1], x[k..], y[k..]);
    }
  }

  /** The last token of `a` looks at a comment instead of `b`. */
  lemma LastSees(v: View, t: Token, c: Token, b: seq<Token>)
    requires c.kind.Comment?
    ensures Sees(v, t, [c] + b, b) <==>
            && |b| > 0
            && match t.kind
               case OpenParen => !v.inSubquery && IsKeyword(b[0], "SELECT")
               case Keyword(Clause) => ByShows(ModeOf(v), Upper(t.text)) && IsKeyword(b[0], "BY")
               case Identifier => TableContext(v) && Aliased(v.aliases, t.text, b) != v.aliases
               case _ => false
  {
    hide Upper;
    hide ByShows;
    assert ([c] + b)[0] == c;
  }

  /** The token before it looks past the last one at a comment instead of `b`. */
  lemma SecondSees(v: View, t: Token, last: Token, c: Token, b: seq<Token>)
    requires c.kind.Comment?
    ensures Sees(v, t, [last, c] + b, [last] + b) <==>
            && |b| > 0 && t.kind.Identifier? && TableContext(v) && IsKeyword(last, "AS") && b[0].kind.Identifier?
            && v.aliases[b[0].text := t.text] != v.aliases
  {
    hide Upper;
    hide ByShows;
    assert ([last, c] + b)[0] == last && ([last, c] + b)[1] == c;
    assert ([last] + b)[0] == last && (|b| > 0 ==> ([last] + b)[1] == b[0]);
  }

  lemma NameTakesAlias(v: View, t: Token, last: Token, c: Token, b: seq<Token>)
    requires c.kind.Comment? && Sees(v, t, [last, c] + b, [last] + b)
    ensures Step(v, t, [last, c] + b).aliases != Step(v, t, [last] + b).aliases
  {
    hide Upper;
    hide ByShows;
    SecondSees(v, t, last, c, b);
    assert ([last, c] + b)[0] == last && ([last, c] + b)[1] == c;
    assert ([last] + b)[0] == last && ([last] + b)[1] == b[0];
    hide Sees;
  }

  lemma KeywordKeepsAliases(v: View, t: Token, ahead: seq<Token>)
    requires t.kind.Keyword?
    ensures Step(v, t, ahead).aliases == v.aliases
  {
    hide NextIs;
    hide Upper;
    hide OnStatement;
    hide OnClause;
    hide OnJoin;
  }

  /** What a token of `a` sees of `b`, with the comment in between. */
  lemma AheadOf(a: seq<Token>, c: Token, b: seq<Token>)
    requires a != []
    ensures var x, y, n := a + [c] + b, a + b, |a|;
            && x[n - 1] == y[n - 1] == a[n - 1] && x[n..] == [c] + b && y[n..] == b
            && (n > 1 ==> x[n - 2] == y[n - 2] == a[n - 2]
                          && x[n - 1..] == [a[n - 1], c] + b && y[n - 1..] == [a[n - 1]] + b)
  {
  }

  /** A comment shows in the context right before it exactly when it hides something that
      makes a difference there. */
  lemma CommentShowsIff(a: seq<Token>, c: Token, b: seq<Token>)
    requires c.kind.Comment?
    ensures At(a + [c] + b, |a|) != At(a + b, |a|) <==> Hides(a, b)
  {
    hide Step;
    hide Sees;
    hide Upper;
    hide ByShows;
    hide Aliased;
    var x, y, n := a + [c] + b, a + b, |a|;
    if n > 0 {
      AheadOf(a, c, b);
      var last := a[n - 1];
      AtNext(x, n - 1);
      AtNext(y, n - 1);
      LastSees(At(y, n - 1), last, c, b);
      StepSameIff(At(y, n - 1), last, [c] + b, b);
      if n > 1 {
        var t, w := a[n - 2], At(y, n - 2);
        EarlierUnaware(a, c, b, n - 2);
        AtNext(x, n - 2);
        AtNext(y, n - 2);
        SecondSees(w, t, last, c, b);
        StepSameIff(w, t, [last, c] + b, [last] + b);
        if Sees(w, t, [last, c] + b, [last] + b) {
          NameTakesAlias(w, t, last, c, b);
          KeywordKeepsAliases(At(x, n - 1), last, [c] + b);
          KeywordKeepsAliases(At(y, n - 1), last, b);
        }
      } else {
        EarlierUnaware(a, c, b, 0);
      }
      hide At;
    }
  }

  lemma CommentLeavesNoTrace(v: View, c: Token, ahead: seq<Token>)
    requires c.kind.Comment?
    ensures Alike(Step(v, c, ahead), v)
  {
  }

  /** The last token changes what is expected: a comma or dot, `=`, or a logical keyword,
      where that is not expected anyway. */
  predicate LastTokenSays(v: View) {
    && v.lastToken.Some? && (v.statement.Some? || v.inSubquery)
    && match v.lastToken.value.kind
       case Comma =>
         || (v.clause == SelectColumns && v.expecting != ColumnOrStar)
         || (v.clause == From && v.expecting != TableName)
         || ((v.clause == OrderBy || v.clause == GroupBy || v.clause == SetClause) && v.expecting != ColumnName)
       case Operator =>
         && v.lastToken.value.text == "=" && v.expecting != AValue
         && (v.clause == Where || v.clause == JoinOn || v.clause == SetClause)
       case Keyword(Logical) => v.clause == Where && v.expecting != ColumnOrExpression
       case Dot => v.expecting != QualifiedColumn
       case _ => false
  }

  /** A comment as last token takes the word from the one before it. */
  lemma CommentSilencesIff(v: View, c: Token)
    requires c.kind.Comment?
    ensures var x, y := Determined(Step(v, c, [])), Determined(v);
            && x == y.(expecting := x.expecting, lastToken := x.lastToken, prevToken := x.prevToken)
            && (x.expecting == y.expecting <==> !LastTokenSays(v))
  {
    hide NextIs;
  }

  /** A comment that hides nothing changes nothing in the end but the tokens looked back on
      and, as the very last token, what is expected: exactly when the token before it has
      a say. */
  lemma CommentsAreTransparent(a: seq<Token>, c: Token, b: seq<Token>)
    requires c.kind.Comment? && !Hides(a, b)
    ensures var v, w := FromTokens(a + [c] + b), FromTokens(a + b);
            && v == w.(expecting := v.expecting, lastToken := v.lastToken, prevToken := v.prevToken)
            && (v.expecting == w.expecting <==> b != [] || !LastTokenSays(At(a + b, |a|)))
            && (b != [] ==> v.lastToken == w.lastToken)
  {
    hide Step;
    hide Hides;
    hide LastTokenSays;
    var x, y, n := a + [c] + b, a + b, |a|;
    CommentShowsIff(a, c, b);
    var v := At(y, n);
    FoldIsAt(x);
    FoldIsAt(y);
    FoldFromAt(x, n);
    FoldFromAt(y, n);
    if a == [] { SaysNothingYet(y); }
    hide At;
    assert x[n..] == [c] + b && y[n..] == b && ([c] + b)[1..] == b;
    assert Fold(v, [c] + b) == Fold(Step(v, c, b), b);
    if b == [] {
      assert Fold(Fresh, x) == Step(v, c, []) && Fold(Fresh, y) == v;
      CommentSilencesIff(v, c);
    } else {
      CommentLeavesNoTrace(v, c, b);
      FoldAlike(Step(v, c, b), v, b);
      hide Fold;
      DeterminedAlike(Fold(Fresh, x), Fold(Fresh, y));
    }
    hide Determined;
  }

  lemma SaysNothingYet(ts: seq<Token>)
    ensures At(ts, 0) == Fresh && Determined(Fresh) == Fresh
  {
  }

  lemma DeterminedAlike(v: View, w: View)
    requires Alike(v, w) && v.lastToken == w.lastToken
    ensures Alike(Determined(v), Determined(w)) && Determined(v).lastToken == Determined(w).lastToken
  {
  }

  lemma FoldTwo(v: View, t: Token, u: Token)
    ensures Fold(v, [t, u]) == Step(Step(v, t, [u]), u, [])
  {
    hide Step;
    var ts := [t, u];
    var w := Step(v, t, [u]);
    assert ts[1..] == [u] && [u][1..] == [];
    assert Fold(v, ts) == Fold(w, [u]);
    assert Fold(w, [u]) == Fold(Step(w, u, []), []);
  }

  lemma OrderNeedsBy(m: Mode, byFollows: bool)
    ensures OnClause(m, "ORDER", byFollows).clause == if byFollows then OrderBy else m.clause
    ensures OnClause(m, "BY", byFollows) == m
  {
  }

  /** A comment between `ORDER` and `BY` hides the clause. */
  lemma CommentSplitsOrderBy(c: Token)
    requires c.kind.Comment?
    ensures var order, follow := Token(Keyword(Clause), "ORDER", 0, 5), Token(Keyword(Clause), "BY", 6, 8);
            FromTokens([order, follow]).clause == OrderBy && FromTokens([order] + [c] + [follow]).clause == NoClause
  {
    hide Step;
    hide Determined;
    hide OnClause;
    var order, follow := Token(Keyword(Clause), "ORDER", 0, 5), Token(Keyword(Clause), "BY", 6, 8);
    assert Upper("ORDER") == "ORDER" && Upper("BY") == "BY";
    hide Upper;
    var v, w := Step(Fresh, order, [follow]), Step(Fresh, order, [c, follow]);
    var u := Step(w, c, [follow]);
    StepMode(Fresh, order, [follow]);
    StepMode(Fresh, order, [c, follow]);
    OrderNeedsBy(ModeOf(Fresh), true);
    OrderNeedsBy(ModeOf(Fresh), false);
    StepMode(v, follow, []);
    OrderNeedsBy(ModeOf(v), false);
    StepMode(w, c, [follow]);
    StepMode(u, follow, []);
    OrderNeedsBy(ModeOf(u), false);
    FoldTwo(Fresh, order, follow);
    FoldTwo(w, c, follow);
    var ts := [order] + [c] + [follow];
    assert ts[0] == order && ts[1..] == [c, follow];
    assert Fold(Fresh, ts) == Fold(w, [c, follow]);
    hide Fold;
    DeterminedKeeps(Fold(Fresh, [order, follow]));
    DeterminedKeeps(Fold(Fresh, ts));
  }

  lemma FoldThree(v: View, t: Token, u: Token, w: Token)
    ensures Fold(v, [t, u, w]) == Step(Step(Step(v, t, [u, w]), u, [w]), w, [])
  {
    hide Step;
    var ts := [t, u, w];
    assert ts[0] == t && ts[1..] == [u, w];
    FoldTwo(Step(v, t, [u, w]), u, w);
  }

  /** A comment behind a comma takes the columns away again. */
  lemma TrailingCommentHidesComma(c: Token)
    requires c.kind.Comment?
    ensures var a := [Token(Keyword(Statement), "SELECT", 0, 6), Token(Identifier, "id", 7, 9), Token(Comma, ",", 9, 10)];
            FromTokens(a).expecting == ColumnOrStar && FromTokens(a + [c]).expecting == CommaOrFrom
  {
    hide Step;
    hide Sees;
    var select, id, comma :=
      Token(Keyword(Statement), "SELECT", 0, 6), Token(Identifier, "id", 7, 9), Token(Comma, ",", 9, 10);
    var a := [select, id, comma];
    assert Upper("SELECT") == "SELECT";
    hide Upper;
    var u := Step(Fresh, select, [id, comma]);
    var v := Step(u, id, [comma]);
    var w := Step(v, comma, []);
    StepMode(Fresh, select, [id, comma]);
    StepMode(u, id, [comma]);
    StepMode(v, comma, []);
    CommaIsLast(v, comma);
    FoldThree(Fresh, select, id, comma);
    CommentSilencesIff(w, c);
    assert ModeOf(w) == Mode(Some(Select), SelectColumns, CommaOrFrom);
    FoldAppends(a, c);
  }

  lemma CommaIsLast(v: View, t: Token)
    requires t.kind.Comma?
    ensures Step(v, t, []).lastToken == Some(t)
  {
  }

  /** A comment behind all tokens is one more step. */
  lemma FoldAppends(a: seq<Token>, c: Token)
    requires c.kind.Comment?
    ensures Fold(Fresh, a + [c]) == Step(Fold(Fresh, a), c, [])
    ensures ModeOf(Step(Fold(Fresh, a), c, [])) == ModeOf(Fold(Fresh, a))
    ensures Step(Fold(Fresh, a), c, []).lastToken == Some(c)
  {
    var x := a + [c];
    CommentShowsIff(a, c, []);
    assert a + [c] + [] == x && a + [] == a;
    FoldIsAt(a);
    FoldIsAt(x);
    AtNext(x, |a|);
    assert x[|a| + 1..] == [];
    hide At;
    hide Fold;
  }

  // ---------------------------------------------------------------- an alias behind a comment

  /** The alias that a comment between `a` and `b` hides, if it hides one. */
  function HiddenAlias(a: seq<Token>, b: seq<Token>): Option<string> {
    if a == [] || b == [] then None
    else
      var n := |a| - 1;
      var v, t := At(a + b, n), a[n];
      if t.kind.Identifier? && TableContext(v) && Aliased(v.aliases, t.text, b) != v.aliases then AliasAhead(b)
      else if
        && n > 0 && IsKeyword(t, "AS") && b[0].kind.Identifier?
        && var w, name := At(a + b, n - 1), a[n - 1];
           name.kind.Identifier? && TableContext(w) && w.aliases[b[0].text := name.text] != w.aliases
      then Some(b[0].text)
      else None
  }

  /** The two maps differ, and only at `k`. */
  ghost predicate DifferAt(m: map<string, string>, n: map<string, string>, k: string) {
    && (k in m && k in n ==> m[k] != n[k]) && (k in m || k in n)
    && forall x: string | x != k :: (x in m <==> x in n) && (x in m ==> m[x] == n[x])
  }

  /** The token forgets all aliases, or gives `k` a meaning. */
  predicate Rebinds(v: View, t: Token, ahead: seq<Token>, k: string) {
    t.kind.Semicolon? || (t.kind.Identifier? && TableContext(v) && AliasAhead(ahead) == Some(k))
  }

  /** Some token of `ts` does. */
  predicate Rebound(v: View, ts: seq<Token>, k: string)
    decreases |ts|
  {
    ts != [] && (Rebinds(v, ts[0], ts[1..], k) || Rebound(Step(v, ts[0], ts[1..]), ts[1..], k))
  }

  function StepAliases(v: View, m: map<string, string>, t: Token, ahead: seq<Token>): map<string, string> {
    if t.kind.Semicolon? then map[]
    else if t.kind.Identifier? && TableContext(v) then Aliased(m, t.text, ahead)
    else m
  }

  /** Aliases pass through a step without touching anything else. */
  lemma StepWithAliases(v: View, m: map<string, string>, t: Token, ahead: seq<Token>)
    ensures Step(v.(aliases := m), t, ahead) == Step(v, t, ahead).(aliases := StepAliases(v, m, t, ahead))
    ensures Step(v, t, ahead).aliases == StepAliases(v, v.aliases, t, ahead)
  {
    hide Processed;
    hide Aliased;
    TrackedWithAliases(v, m, t, ahead);
    var w := Tracked(v, t, ahead);
    hide Tracked;
    if !t.kind.Semicolon? {
      ProcessedWithAliases(w, m, t, ahead);
    }
  }

  lemma TrackedWithAliases(v: View, m: map<string, string>, t: Token, ahead: seq<Token>)
    ensures var x := Tracked(v, t, ahead);
            && Tracked(v.(aliases := m), t, ahead) == x.(aliases := m)
            && x.aliases == v.aliases && TableContext(x) == TableContext(v)
  {
    hide NextIs;
  }

  lemma ProcessedWithAliases(v: View, m: map<string, string>, t: Token, ahead: seq<Token>)
    requires !t.kind.Semicolon?
    ensures Processed(v.(aliases := m), t, ahead) == Processed(v, t, ahead).(aliases := StepAliases(v, m, t, ahead))
    ensures Processed(v, t, ahead).aliases == StepAliases(v, v.aliases, t, ahead)
  {
    hide NextIs;
    hide AliasAhead;
    hide Upper;
    hide OnStatement;
    hide OnClause;
    hide OnJoin;
    var w := v.(aliases := m);
    assert ModeOf(v) == ModeOf(w) && v.inSubquery == w.inSubquery;
  }

  /** A difference at `k` goes away exactly when `k` is bound anew. */
  lemma StepDiffers(v: View, m: map<string, string>, t: Token, ahead: seq<Token>, k: string)
    requires DifferAt(m, v.aliases, k)
    ensures var p, q := StepAliases(v, m, t, ahead), StepAliases(v, v.aliases, t, ahead);
            if Rebinds(v, t, ahead, k) then p == q else DifferAt(p, q, k)
  {
    hide AliasAhead;
    if t.kind.Identifier? && TableContext(v) && AliasAhead(ahead).Some? {
      BindingDiffers(m, v.aliases, k, AliasAhead(ahead).value, t.text);
    }
  }

  lemma BindingDiffers(m: map<string, string>, n: map<string, string>, k: string, alias: string, name: string)
    requires DifferAt(m, n, k)
    ensures if alias == k then m[alias := name] == n[alias := name] else DifferAt(m[alias := name], n[alias := name], k)
  {
    if alias == k {
      var p, q := m[alias := name], n[alias := name];
      assert forall x | x in p :: x in q && p[x] == q[x];
      assert forall x | x in q :: x in p;
    }
  }

  /** The two contexts right before the comment differ in the hidden alias alone. */
  lemma AliasIsHidden(a: seq<Token>, c: Token, b: seq<Token>, k: string)
    requires c.kind.Comment? && HiddenAlias(a, b) == Some(k)
    ensures var x, y := At(a + [c] + b, |a|), At(a + b, |a|);
            x == y.(aliases := x.aliases) && DifferAt(x.aliases, y.aliases, k)
  {
    hide Step;
    hide Upper;
    var x, y, n := a + [c] + b, a + b, |a| - 1;
    AheadOf(a, c, b);
    var v, t := At(y, n), a[n];
    AtNext(x, n);
    AtNext(y, n);
    if t.kind.Identifier? {
      EarlierSame(a, c, b);
      NameWithout(v, t, [c] + b, b);
      assert ([c] + b)[0] == c;
      hide At;
    } else {
      var w, name := At(y, n - 1), a[n - 1];
      EarlierUnaware(a, c, b, n - 1);
      AtNext(x, n - 1);
      AtNext(y, n - 1);
      NameWithout(w, name, [t, c] + b, [t] + b);
      assert ([t, c] + b)[0] == t && ([t, c] + b)[1] == c && ([t] + b)[0] == t && ([t] + b)[1] == b[0];
      StepWithAliases(v, w.aliases, t, b);
      StepSameIff(At(x, n), t, [c] + b, b);
      hide At;
    }
  }

  lemma NameWithout(v: View, t: Token, x: seq<Token>, y: seq<Token>)
    requires t.kind.Identifier?
    ensures Step(v, t, x) == Step(v, t, y).(aliases := Step(v, t, x).aliases)
    ensures TableContext(v) ==> Step(v, t, x).aliases == Aliased(v.aliases, t.text, x)
    ensures TableContext(v) ==> Step(v, t, y).aliases == Aliased(v.aliases, t.text, y)
  {
    hide AliasAhead;
  }

  /** A last token that is a name behind anything but a table name's `AS` sees alone. */
  lemma EarlierSame(a: seq<Token>, c: Token, b: seq<Token>)
    requires c.kind.Comment? && a != [] && a[|a| - 1].kind.Identifier?
    ensures At(a + [c] + b, |a| - 1) == At(a + b, |a| - 1)
  {
    hide Step;
    hide Upper;
    hide Sees;
    var x, y, n := a + [c] + b, a + b, |a| - 1;
    AheadOf(a, c, b);
    if n > 0 {
      EarlierUnaware(a, c, b, n - 1);
      AtNext(x, n - 1);
      AtNext(y, n - 1);
      SecondSees(At(y, n - 1), a[n - 1], a[n], c, b);
      StepSameIff(At(y, n - 1), a[n - 1], [a[n], c] + b, [a[n]] + b);
      hide At;
    }
  }

  lemma {:induction false} FoldWithAliases(v: View, m: map<string, string>, ts: seq<Token>, k: string)
    requires m == v.aliases || DifferAt(m, v.aliases, k)
    ensures var x, y := Fold(v.(aliases := m), ts), Fold(v, ts);
            && x == y.(aliases := x.aliases)
            && (x.aliases == y.aliases <==> m == v.aliases || Rebound(v, ts, k))
    ensures m == v.aliases || Rebound(v, ts, k) || DifferAt(Fold(v.(aliases := m), ts).aliases, Fold(v, ts).aliases, k)
    decreases |ts|
  {
    hide Step;
    hide Rebinds;
    hide DifferAt;
    if m == v.aliases {
      assert v.(aliases := m) == v;
    } else if ts == [] {
      DifferentAtIsDifferent(m, v.aliases, k);
    } else {
      DifferentAtIsDifferent(m, v.aliases, k);
      var t, ahead := ts[0], ts[1..];
      StepWithAliases(v, m, t, ahead);
      StepDiffers(v, m, t, ahead, k);
      hide StepAliases;
      if !Rebinds(v, t, ahead, k) {
        DifferentAtIsDifferent(StepAliases(v, m, t, ahead), Step(v, t, ahead).aliases, k);
      }
      FoldWithAliases(Step(v, t, ahead), StepAliases(v, m, t, ahead), ahead, k);
    }
  }

  /** A hidden alias is all that is missing at the end, and it is missing exactly when
      nothing behind the comment gives that name a meaning again or ends the statement. */
  lemma HiddenAliasIff(a: seq<Token>, c: Token, b: seq<Token>, k: string)
    requires c.kind.Comment? && HiddenAlias(a, b) == Some(k)
    ensures var v, w := FromTokens(a + [c] + b), FromTokens(a + b);
            && v == w.(aliases := v.aliases, prevToken := v.prevToken)
            && (v.aliases != w.aliases <==> !Rebound(At(a + b, |a|), b, k))
  {
    hide Step;
    hide HiddenAlias;
    hide Rebound;
    hide DifferAt;
    var x, y, n := a + [c] + b, a + b, |a|;
    assert b != [] by { AliasIsAhead(a, b, k); }
    AliasIsHidden(a, c, b, k);
    var v, w := At(x, n), At(y, n);
    FoldIsAt(x);
    FoldIsAt(y);
    FoldFromAt(x, n);
    FoldFromAt(y, n);
    hide At;
    assert x[n..] == [c] + b && y[n..] == b && ([c] + b)[1..] == b;
    assert Fold(v, [c] + b) == Fold(Step(v, c, b), b);
    CommentLeavesNoTrace(v, c, b);
    FoldAlike(Step(v, c, b), v, b);
    FoldWithAliases(w, v.aliases, b, k);
    DifferentAtIsDifferent(v.aliases, w.aliases, k);
    hide Fold;
    DeterminedAlike(Fold(Fresh, x), Fold(v, b));
    DeterminedWithAliases(Fold(w, b), Fold(v, b).aliases);
    hide Determined;
  }

  lemma AliasIsAhead(a: seq<Token>, b: seq<Token>, k: string)
    requires HiddenAlias(a, b) == Some(k)
    ensures b != []
  {
  }

  lemma DifferentAtIsDifferent(m: map<string, string>, n: map<string, string>, k: string)
    requires DifferAt(m, n, k)
    ensures m != n
  {
  }

  lemma DeterminedWithAliases(v: View, m: map<string, string>)
    ensures Determined(v.(aliases := m)) == Determined(v).(aliases := m) && Determined(v).aliases == v.aliases
  {
  }
}
