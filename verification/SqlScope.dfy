/** What is in scope and what comes next, read off the words: the tables and aliases a
    statement has named, and the word that decides what is expected. */
module SqlScope {
  import opened Wrappers
  import opened SqlKeywords
  import opened SqlLexer
  import opened SqlLexerLaws
  import opened SqlContext
  import opened SqlContextLaws
  import opened SqlMachine
  import opened SqlTokens

  // ---------------------------------------------------------------- tables

  /** Token `i` names a table: an identifier where the clause opened last is `FROM`, `JOIN`
      or `INTO`, or where an `UPDATE` has opened none. */
  ghost predicate NamesTable(ts: seq<Token>, i: nat)
    requires i < |ts|
  {
    && ts[i].kind == Identifier
    && (|| LastOpened(ts, i, From) || LastOpened(ts, i, JoinTable) || LastOpened(ts, i, InsertInto)
        || (LastOpened(ts, i, NoClause) && Under(ts, i, Update)))
  }

  /** The names of tables since the last semicolon, in order. */
  ghost function TablesNamed(ts: seq<Token>, n: nat): seq<string>
    requires n <= |ts|
  {
    if n == 0 || ts[n - 1].kind == Semicolon then []
    else TablesNamed(ts, n - 1) + if NamesTable(ts, n - 1) then [ts[n - 1].text] else []
  }

  lemma NamesTableIff(ts: seq<Token>, i: nat)
    requires i < |ts|
    ensures NamesTable(ts, i) <==> ts[i].kind.Identifier? && TableContext(At(ts, i))
  {
    hide At;
    hide LastOpened;
    hide Under;
    ClauseAt(ts, i, From);
    ClauseAt(ts, i, JoinTable);
    ClauseAt(ts, i, InsertInto);
    ClauseAt(ts, i, NoClause);
    StatementAt(ts, i, Update);
  }

  lemma StepTables(v: View, t: Token, ahead: seq<Token>)
    ensures Step(v, t, ahead).tables ==
            if t.kind.Semicolon? then []
            else if t.kind.Identifier? && TableContext(v) then v.tables + [t.text]
            else v.tables
  {
    hide NextIs;
    hide AliasAhead;
    hide Upper;
    hide OnStatement;
    hide OnClause;
    hide OnJoin;
  }

  lemma {:induction false} TablesAt(ts: seq<Token>, n: nat)
    requires n <= |ts|
    ensures At(ts, n).tables == TablesNamed(ts, n)
  {
    hide Step;
    hide NamesTable;
    if n > 0 {
      var m := n - 1;
      TablesAt(ts, m);
      AtNext(ts, m);
      StepTables(At(ts, m), ts[m], ts[n..]);
      NamesTableIff(ts, m);
      hide At;
    }
  }

  /** The tables of the context are exactly those, for every token list. */
  lemma TablesAreNamed(ts: seq<Token>)
    ensures FromTokens(ts).tables == TablesNamed(ts, |ts|)
  {
    hide At;
    hide TablesNamed;
    AnalysedIsAt(ts);
    TablesAt(ts, |ts|);
  }

  // ---------------------------------------------------------------- aliases

  /** `k` stands behind token `i`, with or without `AS`. */
  predicate HasAlias(ts: seq<Token>, i: nat, k: string) {
    || (i + 1 < |ts| && ts[i + 1].kind == Identifier && ts[i + 1].text == k)
    || (i + 2 < |ts| && IsKeyword(ts[i + 1], "AS") && ts[i + 2].kind == Identifier && ts[i + 2].text == k)
  }

  /** Token `i` is the last before `n` that names a table with alias `k`, in this statement. */
  ghost predicate LastAlias(ts: seq<Token>, i: nat, n: nat, k: string)
    requires n <= |ts|
  {
    && i < n && NamesTable(ts, i) && HasAlias(ts, i, k)
    && forall j | i < j < n :: !(NamesTable(ts, j) && HasAlias(ts, j, k)) && ts[j].kind != Semicolon
  }

  /** The aliases of the context: `k` stands for `name`. */
  ghost predicate Aliases(ts: seq<Token>, n: nat, k: string, name: string)
    requires n <= |ts|
  {
    exists i: nat :: LastAlias(ts, i, n, k) && ts[i].text == name
  }

  lemma AliasAheadIff(ts: seq<Token>, i: nat, k: string)
    requires i < |ts|
    ensures HasAlias(ts, i, k) <==> AliasAhead(ts[i + 1..]) == Some(k)
  {
    hide Upper;
    var ahead := ts[i + 1..];
    assert |ahead| > 0 ==> ahead[0] == ts[i + 1];
    assert |ahead| > 1 ==> ahead[1] == ts[i + 2];
  }

  ghost predicate Binds(ts: seq<Token>, i: nat, k: string)
    requires i < |ts|
  {
    NamesTable(ts, i) && HasAlias(ts, i, k)
  }

  lemma AliasesNext(ts: seq<Token>, n: nat, k: string, name: string)
    requires 0 < n <= |ts|
    ensures Aliases(ts, n, k, name) <==>
            if Binds(ts, n - 1, k) then ts[n - 1].text == name
            else Aliases(ts, n - 1, k, name) && ts[n - 1].kind != Semicolon
  {
    hide NamesTable;
    hide HasAlias;
    var m: nat := n - 1;
    if Binds(ts, m, k) {
      assert LastAlias(ts, m, n, k);
      forall i: nat | LastAlias(ts, i, n, k) ensures i == m {
      }
    } else {
      forall i: nat | LastAlias(ts, i, n, k) ensures LastAlias(ts, i, m, k) && ts[m].kind != Semicolon {
      }
      if ts[m].kind != Semicolon {
        forall i: nat | LastAlias(ts, i, m, k) ensures LastAlias(ts, i, n, k) {
        }
      }
    }
  }

  predicate MapsTo(m: map<string, string>, k: string, name: string) { k in m && m[k] == name }

  lemma StepMapsTo(v: View, t: Token, ahead: seq<Token>, k: string, name: string)
    ensures MapsTo(Step(v, t, ahead).aliases, k, name) <==>
            if t.kind.Identifier? && TableContext(v) && AliasAhead(ahead) == Some(k) then t.text == name
            else MapsTo(v.aliases, k, name) && !t.kind.Semicolon?
  {
    StepWithAliases(v, v.aliases, t, ahead);
    hide Step;
    hide AliasAhead;
  }

  lemma {:induction false} AliasesAt(ts: seq<Token>, n: nat, k: string, name: string)
    requires n <= |ts|
    ensures MapsTo(At(ts, n).aliases, k, name) <==> Aliases(ts, n, k, name)
  {
    hide Step;
    hide NamesTable;
    hide HasAlias;
    if n == 0 {
      assert forall i: nat :: !LastAlias(ts, i, 0, k);
    } else {
      hide Aliases;
      var m := n - 1;
      AliasesAt(ts, m, k, name);
      AtNext(ts, m);
      StepMapsTo(At(ts, m), ts[m], ts[n..], k, name);
      NamesTableIff(ts, m);
      AliasAheadIff(ts, m, k);
      AliasesNext(ts, n, k, name);
      hide At;
    }
  }

  /** An alias stands for the table that was last given it in this statement. */
  lemma AliasIsLastGiven(ts: seq<Token>, k: string, name: string)
    ensures MapsTo(FromTokens(ts).aliases, k, name) <==> Aliases(ts, |ts|, k, name)
  {
    hide At;
    hide Aliases;
    AnalysedIsAt(ts);
    AliasesAt(ts, |ts|, k, name);
  }

  // ---------------------------------------------------------------- looking back

  lemma StepLooksBack(v: View, t: Token, ahead: seq<Token>)
    ensures Step(v, t, ahead).lastToken == if t.kind.Semicolon? then None else Some(t)
    ensures Step(v, t, ahead).prevToken == if t.kind.Semicolon? then None else v.lastToken
  {
    hide NextIs;
    hide AliasAhead;
    hide Upper;
    hide OnStatement;
    hide OnClause;
    hide OnJoin;
  }

  /** Token `i`, unless it is a semicolon or there is none. */
  function Before(ts: seq<Token>, i: int): Option<Token> {
    if 0 <= i < |ts| && ts[i].kind != Semicolon then Some(ts[i]) else None
  }

  lemma LooksBackAt(ts: seq<Token>, n: nat)
    requires n <= |ts|
    ensures At(ts, n).lastToken == Before(ts, n - 1)
    ensures At(ts, n).prevToken == if Before(ts, n - 1).Some? then Before(ts, n - 2) else None
  {
    hide Step;
    if n > 0 {
      AtNext(ts, n - 1);
      StepLooksBack(At(ts, n - 1), ts[n - 1], ts[n..]);
    }
    if n > 1 {
      AtNext(ts, n - 2);
      StepLooksBack(At(ts, n - 2), ts[n - 2], ts[n - 1..]);
    }
  }

  /** The context remembers the last two tokens of the statement. */
  lemma RemembersLastTwo(ts: seq<Token>)
    ensures FromTokens(ts).lastToken == Before(ts, |ts| - 1)
    ensures FromTokens(ts).prevToken == if Before(ts, |ts| - 1).Some? then Before(ts, |ts| - 2) else None
  {
    hide At;
    AnalysedIsAt(ts);
    LooksBackAt(ts, |ts|);
  }

  // ---------------------------------------------------------------- the expectation

  predicate Behind(t: Token, ahead: seq<Token>, kw: string) { IsWord(t, Clause, kw) && NextIs(ahead, "BY") }

  /** What it takes to expect `e` next: the word or identifier at `t`, the clause and the
      statement it stands in. */
  predicate Asks(e: Expecting, c: ClauseKind, s: Option<StatementKind>, t: Token, ahead: seq<Token>) {
    match e
    case AStatement => t.kind == Semicolon
    case ColumnOrStar => IsWord(t, Statement, "SELECT")
    case IntoKeyword => IsWord(t, Statement, "INSERT")
    case TableName =>
      || IsWord(t, Statement, "UPDATE") || IsWord(t, Clause, "FROM") || IsWord(t, Join, "JOIN")
      || (IsWord(t, Clause, "INTO") && s == Some(Insert))
    case FromKeyword => IsWord(t, Statement, "DELETE") || (t.kind == Star && c == SelectColumns)
    case DdlObject =>
      || IsWord(t, Statement, "CREATE") || IsWord(t, Statement, "DROP")
      || IsWord(t, Statement, "ALTER") || IsWord(t, Statement, "TRUNCATE")
    case ColumnOrExpression => IsWord(t, Clause, "WHERE")
    case ColumnName =>
      || (IsWord(t, Clause, "SET") && s == Some(Update))
      || Behind(t, ahead, "ORDER") || Behind(t, ahead, "GROUP")
    case ValueList => IsWord(t, Clause, "VALUES")
    case AggregateOrColumn => IsWord(t, Clause, "HAVING")
    case JoinCondition => IsWord(t, Clause, "ON") && c == JoinTable
    case Alias => IsWord(t, Clause, "AS")
    case ANumber => IsWord(t, Clause, "LIMIT") || IsWord(t, Clause, "OFFSET")
    case ClauseOrJoin => t.kind == Identifier && c == From
    case OnOrClause => t.kind == Identifier && c == JoinTable
    case ValuesOrColumns => t.kind == Identifier && c == InsertInto
    case SetKeyword => t.kind == Identifier && c == NoClause && s == Some(Update)
    case CommaOrFrom => t.kind == Identifier && c == SelectColumns
    case AnOperator => t.kind == Identifier && (c == Where || c == JoinOn)
    case Equals => t.kind == Identifier && c == SetClause
    case OrderModifierOrComma => t.kind == Identifier && (c == OrderBy || c == GroupBy)
    case QualifiedColumn | AValue => false
  }

  lemma StatementWordAsks(v: View, t: Token, ahead: seq<Token>, e: Expecting)
    requires t.kind == Keyword(Statement)
    ensures var r := OnStatement(ModeOf(v), v.inSubquery, Upper(t.text)).expecting;
            && (Asks(e, v.clause, v.statement, t, ahead) ==> r == e)
            && (r == v.expecting || Asks(r, v.clause, v.statement, t, ahead))
  {
    hide Upper;
    hide NextIs;
  }

  lemma ClauseWordAsked(v: View, t: Token, ahead: seq<Token>, e: Expecting)
    requires t.kind == Keyword(Clause) && Asks(e, v.clause, v.statement, t, ahead)
    ensures OnClause(ModeOf(v), Upper(t.text), NextIs(ahead, "BY")).expecting == e
  {
    hide Upper;
    hide NextIs;
  }

  lemma ClauseWordAsks(v: View, t: Token, ahead: seq<Token>)
    requires t.kind == Keyword(Clause)
    ensures var r := OnClause(ModeOf(v), Upper(t.text), NextIs(ahead, "BY")).expecting;
            r == v.expecting || Asks(r, v.clause, v.statement, t, ahead)
  {
    hide Upper;
    hide NextIs;
  }

  lemma JoinWordAsks(v: View, t: Token, ahead: seq<Token>, e: Expecting)
    requires t.kind == Keyword(Join)
    ensures var r := OnJoin(ModeOf(v), Upper(t.text)).expecting;
            && (Asks(e, v.clause, v.statement, t, ahead) ==> r == e)
            && (r == v.expecting || Asks(r, v.clause, v.statement, t, ahead))
  {
    hide Upper;
    hide NextIs;
  }

  lemma OthersAsk(v: View, t: Token, ahead: seq<Token>, e: Expecting)
    requires !t.kind.Keyword?
    ensures var r := Step(v, t, ahead).expecting;
            && (Asks(e, v.clause, v.statement, t, ahead) ==> r == e)
            && (r == v.expecting || Asks(r, v.clause, v.statement, t, ahead))
  {
    hide Step;
    hide Upper;
    hide NextIs;
    StepMode(v, t, ahead);
  }

  lemma StepAsks(v: View, t: Token, ahead: seq<Token>, e: Expecting)
    ensures var r := Step(v, t, ahead).expecting;
            && (Asks(e, v.clause, v.statement, t, ahead) ==> r == e)
            && (r == v.expecting || Asks(r, v.clause, v.statement, t, ahead))
  {
    hide Step;
    hide Upper;
    hide NextIs;
    hide OnStatement;
    hide OnClause;
    hide OnJoin;
    hide Identified;
    if t.kind.Keyword? {
      StepMode(v, t, ahead);
      match t.kind.kw
      case Statement => StatementWordAsks(v, t, ahead, e); hide Asks;
      case Clause =>
        ClauseWordAsks(v, t, ahead);
        if Asks(e, v.clause, v.statement, t, ahead) { ClauseWordAsked(v, t, ahead, e); }
        hide Asks;
      case Join => JoinWordAsks(v, t, ahead, e); hide Asks;
      case _ =>
    } else {
      OthersAsk(v, t, ahead, e);
      hide Asks;
    }
  }

  ghost predicate AsksAt(ts: seq<Token>, j: nat, e: Expecting)
    requires j < |ts|
  {
    Asks(e, At(ts, j).clause, At(ts, j).statement, ts[j], ts[j + 1..])
  }

  ghost predicate AsksAnyAt(ts: seq<Token>, j: nat)
    requires j < |ts|
  {
    exists e :: AsksAt(ts, j, e)
  }

  ghost predicate AsksLast(ts: seq<Token>, j: nat, n: nat, e: Expecting)
    requires n <= |ts|
  {
    j < n && AsksAt(ts, j, e) && forall m | j < m < n :: !AsksAnyAt(ts, m)
  }

  /** Of all tokens before `n` that ask for something, the last asks for `e`; before the
      first a statement is asked for. */
  ghost predicate LastAsked(ts: seq<Token>, n: nat, e: Expecting)
    requires n <= |ts|
  {
    || (exists j: nat :: AsksLast(ts, j, n, e))
    || (e == AStatement && forall m | 0 <= m < n :: !AsksAnyAt(ts, m))
  }

  lemma LastAskedNext(ts: seq<Token>, n: nat, e: Expecting)
    requires 0 < n <= |ts|
    ensures AsksAt(ts, n - 1, e) ==> LastAsked(ts, n, e)
    ensures AsksAnyAt(ts, n - 1) && LastAsked(ts, n, e) ==> AsksAt(ts, n - 1, e)
    ensures !AsksAnyAt(ts, n - 1) ==> (LastAsked(ts, n, e) <==> LastAsked(ts, n - 1, e))
  {
    hide AsksAt;
    var m: nat := n - 1;
    if AsksAt(ts, m, e) {
      assert AsksLast(ts, m, n, e);
    }
    if AsksAnyAt(ts, m) {
      forall j: nat | AsksLast(ts, j, n, e) ensures j == m {
      }
    } else {
      forall j: nat | AsksLast(ts, j, n, e) ensures AsksLast(ts, j, m, e) {
        assert AsksAnyAt(ts, j);
      }
      forall j: nat | AsksLast(ts, j, m, e) ensures AsksLast(ts, j, n, e) {
      }
    }
  }

  lemma {:induction false} ExpectedAt(ts: seq<Token>, n: nat, e: Expecting)
    requires n <= |ts|
    ensures At(ts, n).expecting == e <==> LastAsked(ts, n, e)
  {
    hide Step;
    hide Asks;
    if n == 0 {
      assert forall j: nat :: !AsksLast(ts, j, 0, e);
    } else {
      hide LastAsked;
      var m := n - 1;
      ExpectedAt(ts, m, e);
      AtNext(ts, m);
      hide At;
      var v, r := At(ts, m), At(ts, n).expecting;
      StepAsks(v, ts[m], ts[n..], e);
      LastAskedNext(ts, n, e);
      if AsksAnyAt(ts, m) {
        var f :| AsksAt(ts, m, f);
        StepAsks(v, ts[m], ts[n..], f);
        assert r == f;
      } else {
        assert !AsksAt(ts, m, r);
        assert !AsksAt(ts, m, e);
      }
    }
  }

  /** What the last token alone makes of it: a comma asks for the next item of its list, `=`
      for a value, a logical word for the next condition, a dot for a column of its table. */
  predicate Follows(e: Expecting, c: ClauseKind, t: Token) {
    match e
    case ColumnOrStar => t.kind == Comma && c == SelectColumns
    case TableName => t.kind == Comma && c == From
    case ColumnName => t.kind == Comma && (c == OrderBy || c == GroupBy || c == SetClause)
    case AValue => t.kind == Operator && t.text == "=" && (c == Where || c == JoinOn || c == SetClause)
    case ColumnOrExpression => t.kind == Keyword(Logical) && c == Where
    case QualifiedColumn => t.kind == Dot
    case _ => false
  }

  lemma DeterminedFollows(v: View, t: Token, e: Expecting)
    requires v.lastToken == Some(t) && (v.statement.Some? || v.inSubquery)
    ensures var r := Determined(v).expecting;
            && (Follows(e, v.clause, t) ==> r == e)
            && (r == v.expecting || Follows(r, v.clause, t))
  {
  }

  ghost predicate FollowsAny(c: ClauseKind, t: Token) { exists e :: Follows(e, c, t) }

  /** For every token list: without a statement or subquery a statement is expected; else
      what the last token makes of it; else what the last word or name asked for. */
  lemma ExpectationIff(ts: seq<Token>, e: Expecting)
    ensures var w := FromTokens(ts);
            w.expecting == e <==>
            if w.statement == None && !w.inSubquery then e == AStatement
            else
              && |ts| > 0
              && var last := ts[|ts| - 1];
                 if FollowsAny(w.clause, last) then Follows(e, w.clause, last) else LastAsked(ts, |ts|, e)
  {
    hide Step;
    hide Follows;
    hide LastAsked;
    AnalysedIsAt(ts);
    FoldIsAt(ts);
    ExpectedAt(ts, |ts|, e);
    LooksBackAt(ts, |ts|);
    if ts == [] { SaysNothingYet(ts); }
    hide At;
    hide Fold;
    var v, w := At(ts, |ts|), FromTokens(ts);
    if v.statement.None? && !v.inSubquery {
      LastTokenSaysNoStatement(v);
      hide Determined;
    } else {
      assert |ts| > 0;
      var last := ts[|ts| - 1];
      if last.kind == Semicolon { SemicolonEnds(ts); }
      hide Determined;
      DeterminedFollows(v, last, e);
      if FollowsAny(v.clause, last) {
        var f :| Follows(f, v.clause, last);
        DeterminedFollows(v, last, f);
      } else {
        assert !Follows(w.expecting, v.clause, last);
      }
    }
  }

  lemma SemicolonEnds(ts: seq<Token>)
    requires |ts| > 0 && ts[|ts| - 1].kind == Semicolon
    ensures At(ts, |ts|) == Fresh
  {
    AtNext(ts, |ts| - 1);
    SemicolonResets(At(ts, |ts| - 1), ts[|ts| - 1], ts[|ts|..]);
  }

  // ---------------------------------------------------------------- on text

  /** The tokens of a text. */
  function Of(text: string): seq<Token> { Significant(TokensFrom(text, 0)) }

  lemma StartOfWord(s: string)
    requires |s| > 0 && (MachineWord(Upper(Lex(s).text)).Some? || Lex(s).text == ";")
    ensures s[0] == Lex(s).text[0]
    ensures MachineWord(Upper(Lex(s).text)).Some? ==> 'a' <= s[0] <= 'z' || 'A' <= s[0] <= 'Z'
  {
    hide Lex;
    hide Upper;
    LineCommentsStart(s);
    var text := Lex(s).text;
    assert text[0] == s[0];
    if MachineWord(Upper(text)).Some? { SpelledInLetters(text); }
  }

  lemma SpelledInLetters(w: string)
    requires MachineWord(Upper(w)).Some?
    ensures |w| > 0 && ('a' <= w[0] <= 'z' || 'A' <= w[0] <= 'Z')
  {
    MachineWordsAreLetters(Upper(w));
    hide MachineWord;
    assert Upper(w)[0] == UpperChar(w[0]);
  }

  lemma SemicolonStarts(s: string)
    requires |s| > 0
    ensures s[0] == ';' ==> Lex(s).kind == Semicolon
    ensures Lex(s).kind == Semicolon ==> Lex(s).text == ";"
  {
    hide Classify;
    hide SpanWord;
    hide SpanLine;
    hide SpanNumber;
    hide SpanWhite;
    hide ScanQuoted;
    hide ScanBlock;
  }

  /** In a text the spelling alone decides. */
  predicate Spelled(t: Token) {
    && (MachineWord(Upper(t.text)).Some? ==> t.kind == Keyword(MachineWord(Upper(t.text)).value))
    && (t.kind == Semicolon <==> t.text == ";")
  }

  lemma LexIsSpelled(s: string, at: nat)
    requires |s| > 0
    ensures var l := Lex(s); Spelled(Token(l.kind, l.text, at, at + l.len))
  {
    hide Lex;
    hide Upper;
    hide MachineWord;
    var l := Lex(s);
    SemicolonStarts(s);
    if MachineWord(Upper(l.text)).Some? {
      StartOfWord(s);
      WordStarts(s);
      MachineWords(l.text);
      hide ClassifyWord;
    } else if l.text == ";" {
      StartOfWord(s);
    }
  }

  predicate AllSpelled(ts: seq<Token>) { forall i | 0 <= i < |ts| :: Spelled(ts[i]) }

  lemma {:induction false} TokensAreSpelled(s: string, at: nat)
    ensures AllSpelled(Significant(TokensFrom(s, at)))
    decreases |s|
  {
    hide Lex;
    hide Spelled;
    if s != [] {
      var l := Lex(s);
      LexIsSpelled(s, at);
      TokensAreSpelled(s[l.len..], at + l.len);
      SignificantCons(Token(l.kind, l.text, at, at + l.len), TokensFrom(s[l.len..], at + l.len));
      hide Significant;
    }
  }

  /** The word at `t`, in any case. */
  predicate Says(t: Token, kw: string) { Upper(t.text) == kw }

  /** What it takes to open clause `c` at a token of a text: its spelling, the clause and
      statement it stands in, and for `ORDER` and `GROUP` the spelling behind it. */
  predicate OpensSpelled(c: ClauseKind, v: View, t: Token, ahead: seq<Token>) {
    match c
    case NoClause =>
      || t.text == ";" || Says(t, "INSERT") || Says(t, "UPDATE") || Says(t, "DELETE")
      || Says(t, "CREATE") || Says(t, "DROP") || Says(t, "ALTER") || Says(t, "TRUNCATE")
    case SelectColumns => Says(t, "SELECT")
    case From => Says(t, "FROM")
    case Where => Says(t, "WHERE")
    case JoinTable => Says(t, "JOIN")
    case JoinPending =>
      || Says(t, "LEFT") || Says(t, "RIGHT") || Says(t, "INNER") || Says(t, "OUTER")
      || Says(t, "FULL") || Says(t, "CROSS") || Says(t, "NATURAL")
    case JoinOn => Says(t, "ON") && v.clause == JoinTable
    case GroupBy => Says(t, "GROUP") && |ahead| > 0 && Says(ahead[0], "BY")
    case OrderBy => Says(t, "ORDER") && |ahead| > 0 && Says(ahead[0], "BY")
    case Having => Says(t, "HAVING")
    case Limit => Says(t, "LIMIT")
    case Offset => Says(t, "OFFSET")
    case InsertInto => Says(t, "INTO") && v.statement == Some(Insert)
    case InsertColumns => false
    case Values => Says(t, "VALUES")
    case SetClause => Says(t, "SET") && v.statement == Some(Update)
  }

  lemma SpelledKind(t: Token, kw: string)
    requires Spelled(t) && Upper(t.text) == kw && MachineWord(kw).Some?
    ensures t.kind == Keyword(MachineWord(kw).value)
  {
    hide Upper;
    hide MachineWord;
  }

  lemma BySpelled(t: Token)
    requires Spelled(t)
    ensures IsKeyword(t, "BY") <==> Says(t, "BY")
  {
    hide Upper;
    if Says(t, "BY") { SpelledKind(t, "BY"); }
  }

  lemma OpensSpelledIff(c: ClauseKind, v: View, t: Token, ahead: seq<Token>)
    requires Spelled(t) && (|ahead| > 0 ==> Spelled(ahead[0]))
    ensures Opens(c, v, t, ahead) <==> OpensSpelled(c, v, t, ahead)
  {
    hide Upper;
    if |ahead| > 0 { BySpelled(ahead[0]); }
    var kw := Upper(t.text);
    if MachineWord(kw).Some? { SpelledKind(t, kw); }
  }

  /** Of all tokens of the text before the `n`-th that open a clause by their spelling, the
      last opens `c`. */
  ghost predicate LastSpelled(ts: seq<Token>, n: nat, c: ClauseKind)
    requires n <= |ts|
  {
    || (exists j: nat :: SpelledLast(ts, j, n, c))
    || (c == NoClause && forall m | 0 <= m < n :: !SpelledAny(ts, m))
  }

  ghost predicate SpelledAny(ts: seq<Token>, j: nat)
    requires j < |ts|
  {
    exists c :: SpelledAt(ts, j, c)
  }

  ghost predicate SpelledAt(ts: seq<Token>, j: nat, c: ClauseKind)
    requires j < |ts|
  {
    OpensSpelled(c, At(ts, j), ts[j], ts[j + 1..])
  }

  ghost predicate SpelledLast(ts: seq<Token>, j: nat, n: nat, c: ClauseKind)
    requires n <= |ts|
  {
    j < n && SpelledAt(ts, j, c) && forall m | j < m < n :: !SpelledAny(ts, m)
  }

  lemma SpelledAtIff(ts: seq<Token>, j: nat, c: ClauseKind)
    requires AllSpelled(ts) && j < |ts|
    ensures SpelledAt(ts, j, c) <==> Opens(c, At(ts, j), ts[j], ts[j + 1..])
  {
    hide At;
    hide Spelled;
    assert j + 1 < |ts| ==> ts[j + 1..][0] == ts[j + 1];
    OpensSpelledIff(c, At(ts, j), ts[j], ts[j + 1..]);
    hide Opens;
    hide OpensSpelled;
  }

  lemma SpelledAnyIff(ts: seq<Token>, j: nat)
    requires AllSpelled(ts) && j < |ts|
    ensures SpelledAny(ts, j) <==> OpensAnyAt(ts, j)
  {
    hide At;
    hide AllSpelled;
    hide Opens;
    hide SpelledAt;
    forall c ensures SpelledAt(ts, j, c) <==> Opens(c, At(ts, j), ts[j], ts[j + 1..]) {
      SpelledAtIff(ts, j, c);
    }
    if SpelledAny(ts, j) {
      var c :| SpelledAt(ts, j, c);
      assert Opens(c, At(ts, j), ts[j], ts[j + 1..]);
    }
    if OpensAnyAt(ts, j) {
      var c :| Opens(c, At(ts, j), ts[j], ts[j + 1..]);
      assert SpelledAt(ts, j, c);
    }
  }

  lemma LastSpelledIff(ts: seq<Token>, n: nat, c: ClauseKind)
    requires AllSpelled(ts) && n <= |ts|
    ensures LastSpelled(ts, n, c) <==> LastOpened(ts, n, c)
  {
    hide AllSpelled;
    hide SpelledAt;
    hide SpelledAny;
    hide OpensAnyAt;
    hide Opens;
    hide At;
    forall m | 0 <= m < n ensures SpelledAny(ts, m) <==> OpensAnyAt(ts, m) {
      SpelledAnyIff(ts, m);
    }
    forall j: nat | j < n ensures SpelledLast(ts, j, n, c) <==> OpensLast(ts, j, n, c) {
      SpelledAtIff(ts, j, c);
    }
  }

  /** The clause of a text is the one its words opened last. */
  lemma TextClauseIsLastSpelled(text: string, c: ClauseKind)
    ensures ContextOf(text).clause == c <==> LastSpelled(Of(text), |Of(text)|, c)
  {
    hide TokensFrom;
    hide Significant;
    hide FromTokens;
    hide LastSpelled;
    hide LastOpened;
    hide AllSpelled;
    TokensAreSpelled(text, 0);
    LastSpelledIff(Of(text), |Of(text)|, c);
    ClauseIsLastOpened(Of(text), c);
  }

  // ---------------------------------------------------------------- directly behind a word

  /** What is expected directly behind a word that always asks for the same. */
  function BehindWord(kw: string): Option<Expecting> {
    if kw == "SELECT" then Some(ColumnOrStar)
    else if kw == "INSERT" then Some(IntoKeyword)
    else if kw in {"UPDATE", "FROM", "JOIN"} then Some(TableName)
    else if kw == "DELETE" then Some(FromKeyword)
    else if kw in {"CREATE", "DROP", "ALTER", "TRUNCATE"} then Some(DdlObject)
    else if kw == "WHERE" then Some(ColumnOrExpression)
    else if kw == "VALUES" then Some(ValueList)
    else if kw == "HAVING" then Some(AggregateOrColumn)
    else if kw == "AS" then Some(Alias)
    else if kw in {"LIMIT", "OFFSET"} then Some(ANumber)
    else None
  }

  /** The kind of a word that always asks for the same. */
  function KindBehind(kw: string): KeywordKind {
    if kw in {"SELECT", "INSERT", "UPDATE", "DELETE", "CREATE", "DROP", "ALTER", "TRUNCATE"} then Statement
    else if kw == "JOIN" then Join
    else Clause
  }

  lemma KindBehindWord(kw: string)
    requires BehindWord(kw).Some?
    ensures MachineWord(kw) == Some(KindBehind(kw))
  {
  }

  lemma ClauseKindAsks(t: Token, kw: string, c: ClauseKind, s: Option<StatementKind>)
    requires BehindWord(kw).Some? && KindBehind(kw) == Clause && IsWord(t, Clause, kw)
    ensures Asks(BehindWord(kw).value, c, s, t, [])
  {
    hide Upper;
    hide NextIs;
    hide Behind;
  }

  lemma OtherKindAsks(t: Token, kw: string, c: ClauseKind, s: Option<StatementKind>)
    requires BehindWord(kw).Some? && KindBehind(kw) != Clause && IsWord(t, KindBehind(kw), kw)
    ensures Asks(BehindWord(kw).value, c, s, t, [])
  {
    hide Upper;
    hide NextIs;
    hide Behind;
  }

  lemma BehindWordAsks(t: Token, c: ClauseKind, s: Option<StatementKind>)
    requires Spelled(t) && BehindWord(Upper(t.text)).Some?
    ensures Asks(BehindWord(Upper(t.text)).value, c, s, t, [])
    ensures t.kind.Keyword? && t.kind.kw != Logical
  {
    hide Upper;
    hide BehindWord;
    hide MachineWord;
    hide Asks;
    var kw := Upper(t.text);
    KindBehindWord(kw);
    SpelledKind(t, kw);
    if KindBehind(kw) == Clause {
      ClauseKindAsks(t, kw, c, s);
    } else {
      OtherKindAsks(t, kw, c, s);
    }
  }

  lemma KeywordsDoNotFollow(c: ClauseKind, t: Token)
    requires t.kind.Keyword? && t.kind.kw != Logical
    ensures !FollowsAny(c, t)
  {
  }

  /** In every text that ends in such a word, in any case, with a statement or subquery
      under way, exactly that is expected. */
  lemma TextExpectsBehindWord(text: string)
    requires Of(text) != [] && BehindWord(Upper(Of(text)[|Of(text)| - 1].text)).Some?
    requires ContextOf(text).statement.Some? || ContextOf(text).inSubquery
    ensures ContextOf(text).expecting == BehindWord(Upper(Of(text)[|Of(text)| - 1].text)).value
  {
    hide TokensFrom;
    hide Significant;
    hide FromTokens;
    hide Upper;
    hide BehindWord;
    hide Spelled;
    hide Asks;
    hide At;
    var ts := Of(text);
    var n := |ts| - 1;
    var e := BehindWord(Upper(ts[n].text)).value;
    TokensAreSpelled(text, 0);
    assert ts[n + 1..] == [];
    BehindWordAsks(ts[n], At(ts, n).clause, At(ts, n).statement);
    KeywordsDoNotFollow(ContextOf(text).clause, ts[n]);
    hide FollowsAny;
    assert AsksLast(ts, n, |ts|, e);
    ExpectationIff(ts, e);
  }
}
