/** What each kind of token is, said from the text: keywords by their spelling, quoted
    text, comments, numbers, operators and punctuation by how they are written. */
module SqlTokens {
  import opened Wrappers
  import opened Chars
  import opened SqlKeywords
  import opened SqlLexer
  import opened SqlLexerLaws

  // ---------------------------------------------------------------- words

  predicate InWord(c: char) {
    'a' <= c <= 'z' || 'A' <= c <= 'Z' || '0' <= c <= '9' || c == '_' || c == '$'
  }

  predicate IsBareWord(w: string) {
    && |w| > 0 && (forall i | 0 <= i < |w| :: InWord(w[i]))
    && !('0' <= w[0] <= '9') && w[0] != '$'
  }

  /** `rest` does not go on with a character of a word. */
  predicate WordEnds(rest: string) { rest == "" || !InWord(rest[0]) }

  lemma {:induction false} SpanWordOf(w: string, rest: string)
    requires (forall i | 0 <= i < |w| :: InWord(w[i])) && WordEnds(rest)
    ensures SpanWord(w + rest) == |w|
  {
    if w == [] {
      assert w + rest == rest;
    } else {
      SpanWordOf(w[1..], rest);
      assert (w + rest)[1..] == w[1..] + rest;
    }
  }

  lemma WordStarts(s: string)
    requires |s| > 0 && InWord(s[0]) && !('0' <= s[0] <= '9') && s[0] != '$'
    ensures Lex(s) == WordLexeme(s)
  {
    hide WordLexeme;
  }

  /** A word is read whole, and its kind depends on the word alone. */
  lemma {:induction false} WordLexes(w: string, rest: string)
    requires IsBareWord(w) && WordEnds(rest)
    ensures Lex(w + rest) == Lexeme(ClassifyWord(w), w, |w|)
  {
    hide Lex;
    hide ClassifyWord;
    hide SpanWord;
    var s := w + rest;
    SpanWordOf(w[1..], rest);
    WordStarts(s);
    assert s[1..] == w[1..] + rest && s[..|w|] == w;
  }

  /** The kinds the state machine expects of the words it acts on. */
  function MachineWord(u: string): Option<KeywordKind> {
    if u in {"SELECT", "INSERT", "UPDATE", "DELETE", "CREATE", "DROP", "ALTER", "TRUNCATE"} then Some(Statement)
    else if u in {"JOIN", "LEFT", "RIGHT", "INNER", "OUTER", "FULL", "CROSS", "NATURAL"} then Some(Join)
    else if u in {"FROM", "WHERE", "INTO", "SET", "VALUES", "ORDER", "GROUP", "BY", "HAVING", "ON", "AS", "LIMIT", "OFFSET"}
    then Some(Clause)
    else if u in {"AND", "OR", "NOT"} then Some(Logical)
    else None
  }

  lemma StatementWords(w: string)
    requires MachineWord(Upper(w)) == Some(Statement)
    ensures Classify(w) == Is(Statement)
  {
    hide Upper;
  }

  lemma JoinsAreNotStatements(u: string)
    ensures u in {"JOIN", "LEFT", "FULL"} ==> u !in StatementKeywords()
    ensures u in {"RIGHT", "INNER", "OUTER"} ==> u !in StatementKeywords()
    ensures u in {"CROSS", "NATURAL"} ==> u !in StatementKeywords()
  {
    if u in {"JOIN", "LEFT", "FULL"} {
      assert |u| == 4;
    } else if u in {"RIGHT", "INNER", "OUTER"} {
      assert |u| == 5;
    } else if u in {"CROSS", "NATURAL"} {
      assert |u| == 5 || |u| == 7;
    }
  }

  lemma JoinWords(w: string)
    requires MachineWord(Upper(w)) == Some(Join)
    ensures Classify(w) == Is(Join)
  {
    hide Upper;
    JoinsAreNotStatements(Upper(w));
    hide StatementKeywords;
    assert Upper(w) in JoinTypes();
  }

  lemma ClausesAreNotEarlier(u: string)
    ensures u in {"BY", "ON", "AS"} ==> u !in StatementKeywords() && u !in JoinTypes()
    ensures u in {"SET", "FROM", "INTO"} ==> u !in StatementKeywords() && u !in JoinTypes()
    ensures u in {"WHERE", "ORDER"} ==> u !in StatementKeywords() && u !in JoinTypes()
    ensures u in {"GROUP", "LIMIT"} ==> u !in StatementKeywords() && u !in JoinTypes()
    ensures u in {"VALUES", "HAVING", "OFFSET"} ==> u !in StatementKeywords() && u !in JoinTypes()
  {
    if u in {"BY", "ON", "AS"} {
      assert |u| == 2;
    } else if u in {"SET", "FROM", "INTO"} {
      assert |u| == 3 || |u| == 4;
    } else if u in {"WHERE", "ORDER"} {
      assert |u| == 5;
    } else if u in {"GROUP", "LIMIT"} {
      assert |u| == 5;
    } else if u in {"VALUES", "HAVING", "OFFSET"} {
      assert |u| == 6;
    }
  }

  lemma ClauseWords(w: string)
    requires MachineWord(Upper(w)) == Some(Clause)
    ensures Classify(w) == Is(Clause)
  {
    hide Upper;
    ClausesAreNotEarlier(Upper(w));
    hide StatementKeywords;
    hide JoinTypes;
    assert Upper(w) in ClauseKeywords();
  }

  lemma LogicalsAreNotEarlier(u: string)
    ensures u in {"AND", "OR", "NOT"} ==> u !in StatementKeywords() && u !in JoinTypes() && u !in ClauseKeywords()
  {
    if u in {"AND", "OR", "NOT"} {
      assert |u| == 2 || |u| == 3;
    }
  }

  lemma LogicalWords(w: string)
    requires MachineWord(Upper(w)) == Some(Logical)
    ensures Classify(w) == Is(Logical)
  {
    hide Upper;
    LogicalsAreNotEarlier(Upper(w));
    hide StatementKeywords;
    hide JoinTypes;
    hide ClauseKeywords;
    assert Upper(w) in LogicalOperators();
  }

  lemma MachineWords(w: string)
    requires MachineWord(Upper(w)).Some?
    ensures ClassifyWord(w) == Keyword(MachineWord(Upper(w)).value)
  {
    hide Upper;
    hide Classify;
    match MachineWord(Upper(w)).value
    case Statement => StatementWords(w);
    case Join => JoinWords(w);
    case Clause => ClauseWords(w);
    case Logical => LogicalWords(w);
    case _ =>
  }

  lemma MachineWordsAreBare(w: string)
    requires MachineWord(Upper(w)).Some?
    ensures IsBareWord(w)
  {
    var u := Upper(w);
    MachineWordsAreLetters(u);
    hide MachineWord;
    assert forall i | 0 <= i < |w| :: 'A' <= UpperChar(w[i]) <= 'Z' by {
      assert forall i | 0 <= i < |w| :: u[i] == UpperChar(w[i]);
    }
    hide Upper;
  }

  lemma MachineWordsAreLetters(u: string)
    requires MachineWord(u).Some?
    ensures |u| > 0 && forall i | 0 <= i < |u| :: 'A' <= u[i] <= 'Z'
  {
  }

  /** Every spelling of a word the state machine acts on is read as that keyword. */
  lemma KeywordLexes(w: string, rest: string)
    requires MachineWord(Upper(w)).Some? && WordEnds(rest)
    ensures Lex(w + rest) == Lexeme(Keyword(MachineWord(Upper(w)).value), w, |w|)
  {
    hide Lex;
    hide Upper;
    hide MachineWord;
    hide ClassifyWord;
    MachineWordsAreBare(w);
    WordLexes(w, rest);
    MachineWords(w);
  }

  /** Case does not matter. */
  lemma CaseDoesNotMatter(v: string, w: string, rest: string)
    requires IsBareWord(v) && IsBareWord(w) && Upper(v) == Upper(w) && WordEnds(rest)
    ensures Lex(v + rest).kind == Lex(w + rest).kind
  {
    hide Lex;
    WordLexes(v, rest);
    WordLexes(w, rest);
    hide Upper;
  }

  /** The words of all tables. */
  predicate IsReserved(u: string) {
    || u in StatementKeywords() || u in JoinTypes() || u in ClauseKeywords() || u in LogicalOperators()
    || u in Modifiers() || u in Functions() || u in DdlKeywords() || u in DataTypes() || u in OtherKeywords()
  }

  /** A bare word is an identifier exactly when no table has it. */
  lemma IdentifierIff(w: string, rest: string)
    requires IsBareWord(w) && WordEnds(rest)
    ensures Lex(w + rest).kind == Identifier <==> !IsReserved(Upper(w))
  {
    hide Lex;
    hide Upper;
    WordLexes(w, rest);
    hide StatementKeywords;
    hide JoinTypes;
    hide ClauseKeywords;
    hide LogicalOperators;
    hide Modifiers;
    hide Functions;
    hide DdlKeywords;
    hide DataTypes;
    hide OtherKeywords;
  }

  lemma OthersAreNotStatements(u: string)
    requires u in {"DISTINCT", "ALL", "COUNT", "DATE", "CASE", "TABLE", "INT", "NULL"}
    ensures u !in StatementKeywords()
  {
  }

  lemma OthersAreNotJoins(u: string)
    requires u in {"DISTINCT", "ALL", "COUNT", "DATE", "CASE", "TABLE", "INT", "NULL"}
    ensures u !in JoinTypes()
  {
  }

  lemma OthersAreNotClauses(u: string)
    requires u in {"DISTINCT", "ALL", "COUNT", "DATE", "CASE", "TABLE", "INT", "NULL"}
    ensures u !in ClauseKeywords()
  {
  }

  lemma OthersAreNotLogical(u: string)
    requires u in {"DISTINCT", "ALL", "COUNT", "DATE", "CASE", "TABLE", "INT", "NULL"}
    ensures u !in LogicalOperators()
  {
  }

  lemma OthersAreNotModifiers(u: string)
    requires u in {"COUNT", "DATE", "CASE", "TABLE", "INT", "NULL"}
    ensures u !in Modifiers()
  {
  }

  lemma OthersAreNotFunctions(u: string)
    requires u in {"TABLE", "INT", "NULL"}
    ensures u !in Functions()
  {
  }

  lemma OthersAreNotDdl(u: string)
    requires u in {"INT", "NULL"}
    ensures u !in DdlKeywords()
  {
  }

  lemma OthersAreNotTypes(u: string)
    requires u in {"NULL"}
    ensures u !in DataTypes()
  {
  }

  lemma OthersAreListed()
    ensures "DISTINCT" in Modifiers() && "ALL" in Modifiers()
    ensures "COUNT" in Functions() && "DATE" in Functions() && "CASE" in Functions()
    ensures "TABLE" in DdlKeywords() && "INT" in DataTypes() && "NULL" in OtherKeywords()
  {
  }

  lemma UpperStays(w: string)
    requires forall i | 0 <= i < |w| :: 'A' <= w[i] <= 'Z'
    ensures Upper(w) == w
  {
  }

  /** One word for each of the other kinds, and of the words that stand in two tables. */
  lemma OtherKinds(w: string)
    ensures w == "DISTINCT" || w == "ALL" ==> ClassifyWord(w) == Keyword(Modifier)
    ensures w == "COUNT" || w == "DATE" || w == "CASE" ==> ClassifyWord(w) == Keyword(Function)
    ensures w == "TABLE" ==> ClassifyWord(w) == Keyword(Ddl)
    ensures w == "INT" ==> ClassifyWord(w) == Keyword(DataType)
    ensures w == "NULL" ==> ClassifyWord(w) == Keyword(Other)
  {
    hide Upper;
    hide StatementKeywords;
    hide JoinTypes;
    hide ClauseKeywords;
    hide LogicalOperators;
    hide Modifiers;
    hide Functions;
    hide DdlKeywords;
    hide DataTypes;
    hide OtherKeywords;
    OthersAreListed();
    if w in {"DISTINCT", "ALL", "COUNT", "DATE", "CASE", "TABLE", "INT", "NULL"} {
      UpperStays(w);
      OthersAreNotStatements(w);
      OthersAreNotJoins(w);
      OthersAreNotClauses(w);
      OthersAreNotLogical(w);
      if w != "DISTINCT" && w != "ALL" {
        OthersAreNotModifiers(w);
      }
      if w == "TABLE" || w == "INT" || w == "NULL" {
        OthersAreNotFunctions(w);
      }
      if w == "INT" || w == "NULL" {
        OthersAreNotDdl(w);
      }
      if w == "NULL" {
        OthersAreNotTypes(w);
      }
    }
  }

  // ---------------------------------------------------------------- quoted text

  /** `x` with every quote doubled. */
  function Doubled(x: string, q: char): string {
    if x == [] then [] else (if x[0] == q then [q, q] else [x[0]]) + Doubled(x[1..], q)
  }

  lemma ScanPlain(c: char, s: string, q: char)
    requires c != q
    ensures ScanQuoted([c] + s, q) == ScanQuoted(s, q).Plus(1)
  {
    assert ([c] + s)[1..] == s;
  }

  lemma ScanPair(s: string, q: char)
    ensures ScanQuoted([q, q] + s, q) == ScanQuoted(s, q).Plus(2)
  {
    assert ([q, q] + s)[2..] == s;
  }

  lemma ScanClosing(rest: string, q: char)
    requires rest == "" || rest[0] != q
    ensures ScanQuoted([q] + rest, q) == Scan(1, true) && ScanQuoted("", q) == Scan(0, false)
  {
  }

  lemma Joined(a: string, b: string, c: string, d: string)
    ensures a + b + c + d == a + (b + c + d)
  {
  }

  lemma {:induction false} ScanDoubled(x: string, q: char, rest: string)
    requires rest == "" || rest[0] != q
    ensures ScanQuoted(Doubled(x, q) + [q] + rest, q) == Scan(|Doubled(x, q)| + 1, true)
    ensures ScanQuoted(Doubled(x, q), q) == Scan(|Doubled(x, q)|, false)
  {
    hide ScanQuoted;
    if x == [] {
      ScanClosing(rest, q);
      assert Doubled(x, q) + [q] + rest == [q] + rest;
    } else {
      var tail := Doubled(x[1..], q);
      var more := tail + [q] + rest;
      ScanDoubled(x[1..], q, rest);
      if x[0] == q {
        ScanPair(tail, q);
        ScanPair(more, q);
        Joined([q, q], tail, [q], rest);
      } else {
        ScanPlain(x[0], tail, q);
        ScanPlain(x[0], more, q);
        Joined([x[0]], tail, [q], rest);
      }
    }
  }

  lemma QuoteStarts(s: string)
    requires |s| > 0 && (s[0] == '\'' || s[0] == '"')
    ensures Lex(s) == Quoted(s, if s[0] == '"' then Identifier else String)
  {
    hide Quoted;
  }

  /** Any text, with its quotes doubled and quotes around it, is one token: a string in
      single quotes, an identifier in double ones; without the closing quote it is partial. */
  lemma {:induction false} QuotedLexes(x: string, q: char, rest: string)
    requires (q == '\'' || q == '"') && (rest == "" || rest[0] != q)
    ensures var t := [q] + Doubled(x, q) + [q];
            Lex(t + rest) == Lexeme(if q == '"' then Identifier else String, t, |t|)
    ensures var t := [q] + Doubled(x, q); Lex(t) == Lexeme(Partial, t, |t|)
  {
    hide Lex;
    hide Doubled;
    hide ScanQuoted;
    ScanDoubled(x, q, rest);
    var d := Doubled(x, q);
    var t, u := [q] + d + [q], [q] + d;
    QuoteStarts(t + rest);
    QuoteStarts(u);
    assert (t + rest)[1..] == d + [q] + rest && (t + rest)[..|t|] == t;
    assert u[1..] == d && u[..|u|] == u;
  }

  // ---------------------------------------------------------------- comments

  lemma {:induction false} SpanLineOf(x: string, rest: string)
    requires (forall i | 0 <= i < |x| :: x[i] != '\n') && (rest == "" || rest[0] == '\n')
    ensures SpanLine(x + rest) == |x|
  {
    if x == [] {
      assert x + rest == rest;
    } else {
      SpanLineOf(x[1..], rest);
      assert (x + rest)[1..] == x[1..] + rest;
    }
  }

  lemma CommentStarts(s: string)
    requires |s| > 1
    ensures s[0] == '-' && s[1] == '-' ==> Lex(s) == LineComment(s)
    ensures s[0] == '/' && s[1] == '*' ==> Lex(s) == BlockComment(s)
  {
    hide LineComment;
    hide BlockComment;
  }

  /** Two dashes start a comment up to the end of the line, whose newline goes with it. */
  lemma {:induction false} LineCommentLexes(x: string, rest: string)
    requires forall i | 0 <= i < |x| :: x[i] != '\n'
    ensures Lex("--" + x + "\n" + rest) == Lexeme(Comment, "--" + x, |x| + 3)
    ensures Lex("--" + x) == Lexeme(Comment, "--" + x, |x| + 2)
  {
    hide Lex;
    hide SpanLine;
    SpanLineOf(x, "\n" + rest);
    SpanLineOf(x, "");
    assert x + "" == x;
    var s, t := "--" + x + "\n" + rest, "--" + x;
    CommentStarts(s);
    CommentStarts(t);
    assert s == t + ("\n" + rest);
    assert s[..|t|] == t && s[2..] == x + ("\n" + rest) && t[2..] == x && t[..|t|] == t;
  }

  /** No end mark starts within the first `n` characters of `s`. */
  predicate NoEndMark(s: string, n: nat) {
    forall i | 0 <= i < n && i + 1 < |s| :: !(s[i] == '*' && s[i + 1] == '/')
  }

  lemma {:induction false} ScanBlockOf(s: string, n: nat)
    requires n <= |s| && NoEndMark(s, n)
    ensures n + 2 <= |s| && s[n] == '*' && s[n + 1] == '/' ==> ScanBlock(s) == Scan(n + 2, true)
    ensures n == |s| ==> ScanBlock(s) == Scan(n, false)
  {
    if n > 0 {
      assert forall i | 0 <= i < |s| - 1 :: s[1..][i] == s[i + 1];
      ScanBlockOf(s[1..], n - 1);
    }
  }

  /** A block comment ends at its first end mark; without one it is partial. */
  lemma {:induction false} BlockCommentLexes(x: string, rest: string)
    requires NoEndMark(x + "*/", |x|)
    ensures Lex("/*" + x + "*/" + rest) == Lexeme(Comment, "/*" + x + "*/", |x| + 4)
    ensures Lex("/*" + x) == Lexeme(Partial, "/*" + x, |x| + 2)
  {
    hide Lex;
    hide ScanBlock;
    BlockEnds(x, rest);
    hide NoEndMark;
    var s, t, u := "/*" + x + "*/" + rest, "/*" + x + "*/", "/*" + x;
    CommentStarts(s);
    CommentStarts(u);
    assert s[2..] == x + "*/" + rest && s[..|t|] == t && u[2..] == x && u[..|u|] == u;
  }

  lemma {:induction false} BlockEnds(x: string, rest: string)
    requires NoEndMark(x + "*/", |x|)
    ensures ScanBlock(x + "*/" + rest) == Scan(|x| + 2, true) && ScanBlock(x) == Scan(|x|, false)
  {
    hide ScanBlock;
    var b, y := x + "*/" + rest, x + "*/";
    assert forall i | 0 <= i < |y| :: b[i] == y[i];
    assert forall i | 0 <= i < |x| :: x[i] == y[i];
    assert b[|x|] == y[|x|] == '*' && b[|x| + 1] == y[|x| + 1] == '/';
    ScanBlockOf(b, |x|);
    ScanBlockOf(x, |x|);
  }

  // ---------------------------------------------------------------- numbers

  predicate Digits(s: string) { forall i | 0 <= i < |s| :: '0' <= s[i] <= '9' }

  /** `rest` does not go on with a number that has or lacks a dot and an exponent. */
  predicate NumberEnds(rest: string, hasDot: bool, hasE: bool) {
    |rest| > 0 ==>
      && !('0' <= rest[0] <= '9')
      && !(rest[0] == '.' && !hasDot && !hasE)
      && !((rest[0] == 'e' || rest[0] == 'E') && !hasE)
  }

  lemma {:induction false} SpanDigits(d: string, rest: string, hasDot: bool, hasE: bool)
    requires Digits(d)
    ensures SpanNumber(d + rest, hasDot, hasE) == |d| + SpanNumber(rest, hasDot, hasE)
    decreases |d|
  {
    if d == [] {
      assert d + rest == rest;
    } else {
      SpanDigits(d[1..], rest, hasDot, hasE);
      assert (d + rest)[1..] == d[1..] + rest;
      SpanNumberUnfolds(d + rest, hasDot, hasE);
      hide SpanNumber;
    }
  }

  lemma SpanEnds(rest: string, hasDot: bool, hasE: bool)
    requires NumberEnds(rest, hasDot, hasE)
    ensures SpanNumber(rest, hasDot, hasE) == 0
  {
  }

  /** A dot and more digits, before any exponent. */
  lemma {:induction false} SpanFraction(d: string, rest: string)
    requires Digits(d)
    ensures SpanNumber("." + d + rest, false, false) == 1 + |d| + SpanNumber(rest, true, false)
  {
    hide SpanNumber;
    SpanDigits(d, rest, true, false);
    hide Digits;
    var s := "." + d + rest;
    SpanNumberUnfolds(s, false, false);
    assert s[0] == '.' && s[1..] == d + rest;
  }

  /** An exponent: its letter, perhaps a sign, digits. */
  lemma {:induction false} SpanExponent(e: char, sign: string, d: string, rest: string, hasDot: bool)
    requires (e == 'e' || e == 'E') && (sign == "" || sign == "+" || sign == "-") && Digits(d)
    requires sign == "" && d == "" ==> rest == "" || (rest[0] != '+' && rest[0] != '-')
    ensures SpanNumber([e] + sign + d + rest, hasDot, false) == 1 + |sign| + |d| + SpanNumber(rest, hasDot, true)
  {
    hide SpanNumber;
    hide StepNumber;
    SpanDigits(d, rest, hasDot, true);
    var s := [e] + sign + d + rest;
    SpanNumberUnfolds(s, hasDot, false);
    ExponentStep(e, sign, d + rest, hasDot);
    assert [e] + sign + (d + rest) == s;
    assert s[1 + |sign|..] == d + rest;
  }

  lemma ExponentStep(e: char, sign: string, more: string, hasDot: bool)
    requires (e == 'e' || e == 'E') && (sign == "" || sign == "+" || sign == "-")
    requires sign == "" ==> more == "" || (more[0] != '+' && more[0] != '-')
    ensures StepNumber([e] + sign + more, hasDot, false) == NumberStep(1 + |sign|, hasDot, true)
  {
    var s := [e] + sign + more;
    assert s[0] == e;
    if sign == "" {
      assert s == [e] + more;
    } else {
      assert s[1] == sign[0];
    }
  }

  lemma NumberStarts(s: string)
    requires |s| > 0
    ensures '0' <= s[0] <= '9' ==> Lex(s) == Numeral(s, 1)
    ensures |s| > 1 && s[0] == '-' && '0' <= s[1] <= '9' ==> Lex(s) == Numeral(s, 2)
  {
    hide Numeral;
  }

  /** How a number may go on behind its first digits. */
  datatype Tail = Whole | Fraction(digits: string) | Exponent(e: char, sign: string, power: string)
                | Both(digits: string, e: char, sign: string, power: string)
  {
    predicate Valid() {
      && (Fraction? || Both? ==> Digits(digits))
      && (Exponent? || Both? ==> (e == 'e' || e == 'E') && (sign == "" || sign == "+" || sign == "-") && Digits(power))
    }

    function Text(): string {
      match this
      case Whole => ""
      case Fraction(d) => "." + d
      case Exponent(e, sign, p) => [e] + sign + p
      case Both(d, e, sign, p) => "." + d + ([e] + sign + p)
    }

    predicate EndsBefore(rest: string) {
      && NumberEnds(rest, Fraction? || Both?, Exponent? || Both?)
      && ((Exponent? || Both?) && sign == "" && power == "" ==> rest == "" || (rest[0] != '+' && rest[0] != '-'))
    }
  }

  lemma SpanTail(t: Tail, rest: string)
    requires t.Valid() && t.EndsBefore(rest)
    ensures SpanNumber(t.Text() + rest, false, false) == |t.Text()|
  {
    hide SpanNumber;
    match t
    case Whole =>
      assert "" + rest == rest;
      SpanEnds(rest, false, false);
    case Fraction(d) =>
      SpanFraction(d, rest);
      SpanEnds(rest, true, false);
    case Exponent(e, sign, p) =>
      SpanExponent(e, sign, p, rest, false);
      SpanEnds(rest, false, true);
    case Both(d, e, sign, p) =>
      var x := [e] + sign + p;
      assert "." + d + x + rest == "." + d + (x + rest);
      SpanFraction(d, x + rest);
      SpanExponent(e, sign, p, rest, true);
      SpanEnds(rest, true, true);
  }

  /** A number is digits with at most one fraction and then at most one exponent, read
      whole; a minus sign right before a digit belongs to it. */
  lemma NumberLexes(d: string, t: Tail, rest: string)
    requires |d| > 0 && Digits(d) && t.Valid() && t.EndsBefore(rest)
    ensures Lex(d + t.Text() + rest) == Lexeme(Number, d + t.Text(), |d| + |t.Text()|)
    ensures Lex("-" + (d + t.Text()) + rest) == Lexeme(Number, "-" + (d + t.Text()), 1 + |d| + |t.Text()|)
  {
    hide Lex;
    hide SpanNumber;
    hide Tail.EndsBefore;
    var x := t.Text();
    SpanTail(t, rest);
    hide Tail.Text;
    hide Tail.Valid;
    SpanDigits(d[1..], x + rest, false, false);
    NumeralOf("", d, x, rest);
    NumeralOf("-", d, x, rest);
    var s, u := d + x + rest, "-" + (d + x) + rest;
    NumberStarts(s);
    NumberStarts(u);
    assert "" + (d + x) == d + x;
    assert s[0] == d[0] && u[1] == d[0];
  }

  lemma {:induction false} NumeralOf(sign: string, d: string, x: string, rest: string)
    requires |d| > 0 && SpanNumber(d[1..] + (x + rest), false, false) == |d| - 1 + |x|
    ensures Numeral(sign + (d + x) + rest, |sign| + 1) == Lexeme(Number, sign + (d + x), |sign| + |d| + |x|)
  {
    hide SpanNumber;
    var s, t := sign + (d + x) + rest, sign + (d + x);
    assert s[..|t|] == t;
    assert s == sign + ([d[0]] + (d[1..] + (x + rest)));
    assert s[|sign| + 1..] == d[1..] + (x + rest);
  }

  // ---------------------------------------------------------------- operators and punctuation

  const LongOperators: set<string> := {"<=", "<>", "<<", ">=", ">>", "!=", "||", "::"}

  /** Operators: two characters if they are one of the long ones, else the first alone. A
      minus is one unless a minus or a digit follows, a slash unless a star does. */
  lemma OperatorLexes(s: string)
    requires |s| > 0
    ensures |s| > 1 && s[..2] in LongOperators ==> Lex(s) == Lexeme(Operator, s[..2], 2)
    ensures s[0] in "<>!|:" && !(|s| > 1 && s[..2] in LongOperators) ==> Lex(s) == Lexeme(Operator, s[..1], 1)
    ensures s[0] in "=+%" ==> Lex(s) == Lexeme(Operator, s[..1], 1)
    ensures s[0] == '-' && !(|s| > 1 && (s[1] == '-' || '0' <= s[1] <= '9')) ==> Lex(s) == Lexeme(Operator, "-", 1)
    ensures s[0] == '/' && !(|s| > 1 && s[1] == '*') ==> Lex(s) == Lexeme(Operator, "/", 1)
  {
    hide WhiteLexeme;
    hide Quoted;
    hide LineComment;
    hide BlockComment;
    hide Numeral;
    hide WordLexeme;
    assert s[..1] == [s[0]];
    if |s| > 1 { assert s[..2] == [s[0], s[1]]; }
  }

  /** Punctuation is one character each. */
  lemma PunctuationLexes(rest: string)
    ensures Lex("(" + rest) == Lexeme(OpenParen, "(", 1)
    ensures Lex(")" + rest) == Lexeme(CloseParen, ")", 1)
    ensures Lex("," + rest) == Lexeme(Comma, ",", 1)
    ensures Lex(";" + rest) == Lexeme(Semicolon, ";", 1)
    ensures Lex("*" + rest) == Lexeme(Star, "*", 1)
    ensures Lex("." + rest) == Lexeme(Dot, ".", 1)
  {
    hide WhiteLexeme;
    hide Quoted;
    hide Numeral;
    hide WordLexeme;
  }

  lemma {:induction false} SpanWhiteOf(w: string, rest: string)
    requires (forall i | 0 <= i < |w| :: IsWhite(w[i])) && (rest == "" || !IsWhite(rest[0]))
    ensures SpanWhite(w + rest) == |w|
  {
    hide IsWhite;
    if w == [] {
      assert w + rest == rest;
    } else {
      SpanWhiteOf(w[1..], rest);
      assert (w + rest)[1..] == w[1..] + rest;
    }
  }

  /** A blank, tab, newline or carriage return takes the whole whitespace run with it. */
  lemma {:induction false} WhitespaceLexes(c: char, w: string, rest: string)
    requires c == ' ' || c == '\t' || c == '\n' || c == '\r'
    requires (forall i | 0 <= i < |w| :: IsWhite(w[i])) && (rest == "" || !IsWhite(rest[0]))
    ensures Lex([c] + w + rest) == Lexeme(Whitespace, [c] + w, 1 + |w|)
  {
    hide Lex;
    hide SpanWhite;
    hide IsWhite;
    SpanWhiteOf(w, rest);
    var s := [c] + w + rest;
    WhiteStarts(s);
    assert s[1..] == w + rest;
    assert s == ([c] + w) + rest && s[..1 + |w|] == [c] + w;
  }

  lemma WhiteStarts(s: string)
    requires |s| > 0 && (s[0] == ' ' || s[0] == '\t' || s[0] == '\n' || s[0] == '\r')
    ensures Lex(s) == WhiteLexeme(s)
  {
    hide WhiteLexeme;
  }

  /** Every other character is a partial token of its own. */
  lemma UnknownLexes(s: string)
    requires |s| > 0 && (s[0] == '$' || !InWord(s[0])) && s[0] !in " \t\n\r(),;*.'\"-/<>!=+%|:"
    ensures Lex(s) == Lexeme(Partial, s[..1], 1)
  {
    hide WhiteLexeme;
    hide Quoted;
    hide LineComment;
    hide BlockComment;
    hide Numeral;
    hide WordLexeme;
    hide Op;
  }
}
