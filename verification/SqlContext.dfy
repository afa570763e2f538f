/** The statement/clause state machine behind SQL completion. */
module SqlContext {
  import opened Wrappers
  import opened SqlKeywords
  import opened SqlLexer

  datatype StatementKind = Select | Insert | Update | Delete | DdlStatement

  datatype ClauseKind =
    | NoClause | SelectColumns | From | Where | JoinTable | JoinPending | JoinOn | GroupBy | OrderBy
    | Having | Limit | Offset | InsertInto | InsertColumns | Values | SetClause

  datatype Expecting =
    | AStatement | ColumnOrStar | ColumnName | ColumnOrExpression | QualifiedColumn | FromKeyword
    | IntoKeyword | TableName | CommaOrFrom | ClauseOrJoin | OnOrClause | AnOperator | AValue | Alias
    | OrderModifierOrComma | AggregateOrColumn | ValuesOrColumns | ValueList | Equals | ANumber
    | DdlObject | JoinCondition | SetKeyword

  /** The context as a value. */
  datatype View = View(
    statement: Option<StatementKind>,
    clause: ClauseKind,
    expecting: Expecting,
    tables: seq<string>,
    aliases: map<string, string>,
    parenDepth: int,
    inSubquery: bool,
    lastToken: Option<Token>,
    prevToken: Option<Token>)

  const Fresh: View := View(None, NoClause, AStatement, [], map[], 0, false, None, None)

  predicate IsKeyword(t: Token, kw: string) { t.kind.Keyword? && Upper(t.text) == kw }

  predicate NextIs(ahead: seq<Token>, kw: string) { |ahead| > 0 && IsKeyword(ahead[0], kw) }

  // ---------------------------------------------------------------- one token

  /** The fields a keyword may change. */
  datatype Mode = Mode(statement: Option<StatementKind>, clause: ClauseKind, expecting: Expecting)

  function ModeOf(v: View): Mode { Mode(v.statement, v.clause, v.expecting) }

  function WithMode(v: View, m: Mode): View {
    v.(statement := m.statement, clause := m.clause, expecting := m.expecting)
  }

  function OnStatement(m: Mode, inSubquery: bool, kw: string): Mode {
    if kw == "SELECT" then Mode(if inSubquery then m.statement else Some(Select), SelectColumns, ColumnOrStar)
    else if kw == "INSERT" then Mode(Some(Insert), NoClause, IntoKeyword)
    else if kw == "UPDATE" then Mode(Some(Update), NoClause, TableName)
    else if kw == "DELETE" then Mode(Some(Delete), NoClause, FromKeyword)
    else if kw in {"CREATE", "DROP", "ALTER", "TRUNCATE"} then Mode(Some(DdlStatement), NoClause, DdlObject)
    else m
  }

  function OnClause(m: Mode, kw: string, byFollows: bool): Mode {
    if kw == "FROM" then m.(clause := From, expecting := TableName)
    else if kw == "WHERE" then m.(clause := Where, expecting := ColumnOrExpression)
    else if kw == "INTO" && m.statement == Some(Insert) then m.(clause := InsertInto, expecting := TableName)
    else if kw == "SET" && m.statement == Some(Update) then m.(clause := SetClause, expecting := ColumnName)
    else if kw == "VALUES" then m.(clause := Values, expecting := ValueList)
    else if kw == "ORDER" && byFollows then m.(clause := OrderBy, expecting := ColumnName)
    else if kw == "GROUP" && byFollows then m.(clause := GroupBy, expecting := ColumnName)
    else if kw == "HAVING" then m.(clause := Having, expecting := AggregateOrColumn)
    else if kw == "ON" && m.clause == JoinTable then m.(clause := JoinOn, expecting := JoinCondition)
    else if kw == "AS" then m.(expecting := Alias)
    else if kw == "LIMIT" then m.(clause := Limit, expecting := ANumber)
    else if kw == "OFFSET" then m.(clause := Offset, expecting := ANumber)
    else m
  }

  function OnJoin(m: Mode, kw: string): Mode {
    if kw == "JOIN" then m.(clause := JoinTable, expecting := TableName)
    else if kw in {"LEFT", "RIGHT", "INNER", "OUTER", "FULL", "CROSS", "NATURAL"} then m.(clause := JoinPending)
    else m
  }

  predicate TableContext(v: View) {
    || v.clause == From || v.clause == JoinTable || v.clause == InsertInto
    || (v.clause == NoClause && v.statement == Some(Update))
  }

  /** The alias the tokens ahead give to a table, if any. */
  function AliasAhead(ahead: seq<Token>): Option<string> {
    if |ahead| == 0 then None
    else if IsKeyword(ahead[0], "AS") && |ahead| > 1 then
      if ahead[1].kind.Identifier? then Some(ahead[1].text) else None
    else if ahead[0].kind.Identifier? then Some(ahead[0].text)
    else None
  }

  function OnIdentifier(v: View, name: string, ahead: seq<Token>): View {
    if TableContext(v) then
      v.(tables := v.tables + [name],
         aliases := match AliasAhead(ahead) case None => v.aliases case Some(alias) => v.aliases[alias := name],
         expecting := match v.clause
                      case From => ClauseOrJoin
                      case JoinTable => OnOrClause
                      case InsertInto => ValuesOrColumns
                      case _ => SetKeyword)
    else
      match v.clause
      case SelectColumns => v.(expecting := CommaOrFrom)
      case Where | JoinOn => v.(expecting := AnOperator)
      case SetClause => v.(expecting := Equals)
      case OrderBy | GroupBy => v.(expecting := OrderModifierOrComma)
      case _ => v
  }

  function Processed(v: View, t: Token, ahead: seq<Token>): View {
    match t.kind
    case Keyword(Statement) => WithMode(v, OnStatement(ModeOf(v), v.inSubquery, Upper(t.text)))
    case Keyword(Clause) => WithMode(v, OnClause(ModeOf(v), Upper(t.text), NextIs(ahead, "BY")))
    case Keyword(Join) => WithMode(v, OnJoin(ModeOf(v), Upper(t.text)))
    case Identifier => OnIdentifier(v, t.text, ahead)
    case Star => if v.clause == SelectColumns then v.(expecting := FromKeyword) else v
    case _ => v
  }

  /** Look-back and parentheses, before the token itself is processed. */
  function Tracked(v: View, t: Token, ahead: seq<Token>): View {
    var w := v.(prevToken := v.lastToken, lastToken := Some(t));
    match t.kind
    case OpenParen => w.(parenDepth := w.parenDepth + 1, inSubquery := w.inSubquery || NextIs(ahead, "SELECT"))
    case CloseParen =>
      var depth := if w.parenDepth - 1 > 0 then w.parenDepth - 1 else 0;
      w.(parenDepth := depth, inSubquery := w.inSubquery && depth != 0)
    case _ => w
  }

  function Step(v: View, t: Token, ahead: seq<Token>): View {
    if t.kind.Semicolon? then Fresh else Processed(Tracked(v, t, ahead), t, ahead)
  }

  function Fold(v: View, ts: seq<Token>): View
    decreases |ts|
  {
    if ts == [] then v else Fold(Step(v, ts[0], ts[1..]), ts[1..])
  }

  /** The last token's say. */
  function Determined(v: View): View {
    var expecting :=
      if v.lastToken.None? then v.expecting
      else
        match v.lastToken.value.kind
        case Comma =>
          (match v.clause
           case SelectColumns => ColumnOrStar
           case From => TableName
           case OrderBy | GroupBy | SetClause => ColumnName
           case _ => v.expecting)
        case Operator =>
          if v.lastToken.value.text == "=" && (v.clause == Where || v.clause == JoinOn || v.clause == SetClause)
          then AValue else v.expecting
        case Keyword(Logical) => if v.clause == Where then ColumnOrExpression else v.expecting
        case Dot => QualifiedColumn
        case _ => v.expecting;
    v.(expecting := if v.statement.None? && !v.inSubquery then AStatement else expecting)
  }

  function Analyzed(v: View, ts: seq<Token>): View {
    if ts == [] then v.(expecting := AStatement) else Determined(Fold(v, ts))
  }

  function FromTokens(ts: seq<Token>): View { Analyzed(Fresh, ts) }

  // ---------------------------------------------------------------- the context in place

  class Context {
    var statement: Option<StatementKind>
    var clause: ClauseKind
    var expecting: Expecting
    var tables: seq<string>
    var aliases: map<string, string>
    var parenDepth: int
    var inSubquery: bool
    var lastToken: Option<Token>
    var prevToken: Option<Token>

    ghost function Now(): View
      reads this
    {
      View(statement, clause, expecting, tables, aliases, parenDepth, inSubquery, lastToken, prevToken)
    }

    constructor ()
      ensures Now() == Fresh
    {
      statement, clause, expecting := None, NoClause, AStatement;
      tables, aliases := [], map[];
      parenDepth, inSubquery := 0, false;
      lastToken, prevToken := None, None;
    }

    method Analyze(tokens: seq<Token>)
      modifies this
      ensures Now() == Analyzed(old(Now()), tokens)
    {
      if tokens == [] {
        expecting := AStatement;
        return;
      }
      hide Determined;
      hide Processed;
      var i := 0;
      assert tokens[0..] == tokens;
      while i < |tokens|
        invariant 0 <= i <= |tokens|
        invariant Fold(Now(), tokens[i..]) == Fold(old(Now()), tokens)
      {
        var token := tokens[i];
        ghost var ahead := tokens[i + 1..];
        ghost var before := Now();
        FoldAhead(before, tokens, i);
        prevToken := lastToken;
        lastToken := Some(token);
        match token.kind {
          case OpenParen =>
            parenDepth := parenDepth + 1;
            if i + 1 < |tokens| && IsKeyword(tokens[i + 1], "SELECT") {
              inSubquery := true;
            }
          case CloseParen =>
            parenDepth := if parenDepth - 1 > 0 then parenDepth - 1 else 0;
            if parenDepth == 0 {
              inSubquery := false;
            }
          case _ =>
        }
        if token.kind.Semicolon? {
          ResetForNewStatement();
          i := i + 1;
          continue;
        }
        assert Now() == Tracked(before, token, ahead);
        ProcessToken(token, tokens, i);
        i := i + 1;
      }
      assert tokens[i..] == [];
      DetermineExpectation();
    }

    method ResetForNewStatement()
      modifies this
      ensures Now() == Fresh
    {
      statement, clause, expecting := None, NoClause, AStatement;
      tables, aliases := [], map[];
      parenDepth, inSubquery := 0, false;
      lastToken, prevToken := None, None;
    }

    method ProcessToken(token: Token, tokens: seq<Token>, idx: nat)
      requires idx < |tokens|
      modifies this
      ensures Now() == Processed(old(Now()), token, tokens[idx + 1..])
    {
      var upper := Upper(token.text);
      match token.kind {
        case Keyword(Statement) => ProcessStatementKeyword(upper);
        case Keyword(Clause) => ProcessClauseKeyword(upper, tokens, idx);
        case Keyword(Join) => ProcessJoinKeyword(upper);
        case Identifier => ProcessIdentifier(token, tokens, idx);
        case Star =>
          if clause == SelectColumns {
            expecting := FromKeyword;
          }
        case _ =>
      }
    }

    method ProcessStatementKeyword(kw: string)
      modifies this
      ensures Now() == WithMode(old(Now()), OnStatement(ModeOf(old(Now())), old(inSubquery), kw))
    {
      if kw == "SELECT" {
        if !inSubquery {
          statement := Some(Select);
        }
        clause, expecting := SelectColumns, ColumnOrStar;
      } else if kw == "INSERT" {
        statement, clause, expecting := Some(Insert), NoClause, IntoKeyword;
      } else if kw == "UPDATE" {
        statement, clause, expecting := Some(Update), NoClause, TableName;
      } else if kw == "DELETE" {
        statement, clause, expecting := Some(Delete), NoClause, FromKeyword;
      } else if kw == "CREATE" || kw == "DROP" || kw == "ALTER" || kw == "TRUNCATE" {
        statement, clause, expecting := Some(DdlStatement), NoClause, DdlObject;
      }
    }

    method ProcessClauseKeyword(kw: string, tokens: seq<Token>, idx: nat)
      requires idx < |tokens|
      modifies this
      ensures Now() == WithMode(old(Now()), OnClause(ModeOf(old(Now())), kw, NextIs(tokens[idx + 1..], "BY")))
    {
      if kw == "FROM" {
        clause, expecting := From, TableName;
      } else if kw == "WHERE" {
        clause, expecting := Where, ColumnOrExpression;
      } else if kw == "INTO" && statement == Some(Insert) {
        clause, expecting := InsertInto, TableName;
      } else if kw == "SET" && statement == Some(Update) {
        clause, expecting := SetClause, ColumnName;
      } else if kw == "VALUES" {
        clause, expecting := Values, ValueList;
      } else if kw == "ORDER" && idx + 1 < |tokens| && IsKeyword(tokens[idx + 1], "BY") {
        clause, expecting := OrderBy, ColumnName;
      } else if kw == "GROUP" && idx + 1 < |tokens| && IsKeyword(tokens[idx + 1], "BY") {
        clause, expecting := GroupBy, ColumnName;
      } else if kw == "HAVING" {
        clause, expecting := Having, AggregateOrColumn;
      } else if kw == "ON" && clause == JoinTable {
        clause, expecting := JoinOn, JoinCondition;
      } else if kw == "AS" {
        expecting := Alias;
      } else if kw == "LIMIT" {
        clause, expecting := Limit, ANumber;
      } else if kw == "OFFSET" {
        clause, expecting := Offset, ANumber;
      }
    }

    method ProcessJoinKeyword(kw: string)
      modifies this
      ensures Now() == WithMode(old(Now()), OnJoin(ModeOf(old(Now())), kw))
    {
      if kw == "JOIN" {
        clause, expecting := JoinTable, TableName;
      } else if kw in {"LEFT", "RIGHT", "INNER", "OUTER", "FULL", "CROSS", "NATURAL"} {
        clause := JoinPending;
      }
    }

    method ProcessIdentifier(token: Token, tokens: seq<Token>, idx: nat)
      requires idx < |tokens|
      modifies this
      ensures Now() == OnIdentifier(old(Now()), token.text, tokens[idx + 1..])
    {
      var name := token.text;
      var isTableContext := match clause
        case From | JoinTable | InsertInto => true
        case NoClause => statement == Some(Update)
        case _ => false;
      if isTableContext {
        tables := tables + [name];
        if idx + 1 < |tokens| {
          var next := tokens[idx + 1];
          if IsKeyword(next, "AS") && idx + 2 < |tokens| {
            var aliasToken := tokens[idx + 2];
            if aliasToken.kind.Identifier? {
              aliases := aliases[aliasToken.text := name];
            }
          } else if next.kind.Identifier? && !next.kind.Keyword? {
            aliases := aliases[next.text := name];
          }
        }
        if clause == From {
          expecting := ClauseOrJoin;
        } else if clause == JoinTable {
          expecting := OnOrClause;
        } else if clause == InsertInto {
          expecting := ValuesOrColumns;
        } else {
          clause, expecting := NoClause, SetKeyword;
        }
      } else {
        match clause {
          case SelectColumns => expecting := CommaOrFrom;
          case Where | JoinOn => expecting := AnOperator;
          case SetClause => expecting := Equals;
          case OrderBy | GroupBy => expecting := OrderModifierOrComma;
          case _ =>
        }
      }
    }

    method DetermineExpectation()
      modifies this
      ensures Now() == Determined(old(Now()))
    {
      if lastToken.Some? {
        var token := lastToken.value;
        match token.kind {
          case Comma =>
            match clause {
              case SelectColumns => expecting := ColumnOrStar;
              case From => expecting := TableName;
              case OrderBy | GroupBy | SetClause => expecting := ColumnName;
              case _ =>
            }
          case Operator =>
            if token.text == "=" && (clause == Where || clause == JoinOn || clause == SetClause) {
              expecting := AValue;
            }
          case Keyword(Logical) =>
            if clause == Where {
              expecting := ColumnOrExpression;
            }
          case Dot => expecting := QualifiedColumn;
          case _ =>
        }
      }
      if statement.None? && !inSubquery {
        expecting := AStatement;
      }
    }
  }

  lemma FoldAhead(v: View, tokens: seq<Token>, i: nat)
    requires i < |tokens|
    ensures Fold(v, tokens[i..]) == Fold(Step(v, tokens[i], tokens[i + 1..]), tokens[i + 1..])
  {
    hide Step;
    assert tokens[i..][1..] == tokens[i + 1..];
  }
}
