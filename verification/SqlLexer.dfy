/** The SQL tokenizer as a function of the text: each reader is a scan of the
    characters ahead, and a token depends on nothing behind it. */
module SqlLexer {
  import opened Chars
  import opened SqlKeywords

  datatype TokenKind =
    | Keyword(kw: KeywordKind)
    | Identifier
    | String
    | Number
    | Operator
    | Star
    | Dot
    | Comma
    | Semicolon
    | OpenParen
    | CloseParen
    | Comment
    | Whitespace
    | Partial

  datatype Token = Token(kind: TokenKind, text: string, start: nat, end: nat) {
    function Shift(delta: nat): Token { Token(kind, text, start + delta, end + delta) }
  }

  /** A token without its place: `len` characters are consumed. */
  datatype Lexeme = Lexeme(kind: TokenKind, text: string, len: nat)

  /** What opens a whitespace token; `IsWhite` is what it swallows. */
  predicate IsBlank(c: char) {
    c == ' ' || c == '\t' || c == '\n' || c == '\r'
  }

  predicate IsLetter(c: char) { 'a' <= c <= 'z' || 'A' <= c <= 'Z' }

  predicate IsWordChar(c: char) { IsLetter(c) || IsDigit(c) || c == '_' || c == '$' }

  predicate IsSign(c: char) { c == '+' || c == '-' }

  // ---------------------------------------------------------------- scans

  datatype Scan = Scan(len: nat, closed: bool) {
    function Plus(n: nat): Scan { Scan(len + n, closed) }
  }

  function SpanWhite(s: string): (n: nat)
    ensures n <= |s|
  {
    if s == [] || !IsWhite(s[0]) then 0 else 1 + SpanWhite(s[1..])
  }

  function SpanWord(s: string): (n: nat)
    ensures n <= |s|
  {
    if s == [] || !IsWordChar(s[0]) then 0 else 1 + SpanWord(s[1..])
  }

  /** Characters before the end of the line. */
  function SpanLine(s: string): (n: nat)
    ensures n <= |s|
    ensures n < |s| ==> s[n] == '\n'
  {
    if s == [] || s[0] == '\n' then 0 else 1 + SpanLine(s[1..])
  }

  /** From behind an opening quote to behind the closing one; a doubled quote is text. */
  function ScanQuoted(s: string, quote: char): (r: Scan)
    ensures r.len <= |s|
    ensures !r.closed ==> r.len == |s|
  {
    if s == [] then Scan(0, false)
    else if s[0] != quote then ScanQuoted(s[1..], quote).Plus(1)
    else if |s| > 1 && s[1] == quote then ScanQuoted(s[2..], quote).Plus(2)
    else Scan(1, true)
  }

  /** From behind the opening of a block comment to behind its end. */
  function ScanBlock(s: string): (r: Scan)
    ensures r.len <= |s|
    ensures !r.closed ==> r.len == |s|
  {
    if s == [] then Scan(0, false)
    else if s[0] == '*' && |s| > 1 && s[1] == '/' then Scan(2, true)
    else ScanBlock(s[1..]).Plus(1)
  }

  /** How far one step of a number reaches, and what it has seen by then. */
  datatype NumberStep = NumberStep(len: nat, hasDot: bool, hasE: bool)

  function StepNumber(s: string, hasDot: bool, hasE: bool): (r: NumberStep)
    ensures r.len <= |s|
  {
    if s == [] then NumberStep(0, hasDot, hasE)
    else if IsDigit(s[0]) then NumberStep(1, hasDot, hasE)
    else if s[0] == '.' && !hasDot && !hasE then NumberStep(1, true, hasE)
    else if (s[0] == 'e' || s[0] == 'E') && !hasE then
      NumberStep(if |s| > 1 && IsSign(s[1]) then 2 else 1, hasDot, true)
    else NumberStep(0, hasDot, hasE)
  }

  /** The rest of a number behind its first digit. */
  function SpanNumber(s: string, hasDot: bool, hasE: bool): (n: nat)
    ensures n <= |s|
    decreases |s|
  {
    var step := StepNumber(s, hasDot, hasE);
    if step.len == 0 then 0 else step.len + SpanNumber(s[step.len..], step.hasDot, step.hasE)
  }

  // ---------------------------------------------------------------- one token

  function Single(kind: TokenKind, s: string): Lexeme
    requires |s| > 0
  {
    Lexeme(kind, s[..1], 1)
  }

  /** An operator of two characters when the second is one of `seconds`. */
  function Op(s: string, seconds: string): Lexeme
    requires |s| > 0
  {
    if |s| > 1 && s[1] in seconds then Lexeme(Operator, s[..2], 2) else Lexeme(Operator, s[..1], 1)
  }

  function Quoted(s: string, kind: TokenKind): Lexeme
    requires |s| > 0
  {
    var scan := ScanQuoted(s[1..], s[0]);
    Lexeme(if scan.closed then kind else Partial, s[..1 + scan.len], 1 + scan.len)
  }

  function LineComment(s: string): Lexeme
    requires |s| > 1
  {
    var n := 2 + SpanLine(s[2..]);
    Lexeme(Comment, s[..n], if n < |s| then n + 1 else n)
  }

  function BlockComment(s: string): Lexeme
    requires |s| > 1
  {
    var scan := ScanBlock(s[2..]);
    Lexeme(if scan.closed then Comment else Partial, s[..2 + scan.len], 2 + scan.len)
  }

  /** A number whose sign and first digit are the first `n` characters. */
  function Numeral(s: string, n: nat): Lexeme
    requires n <= |s|
  {
    var len := n + SpanNumber(s[n..], false, false);
    Lexeme(Number, s[..len], len)
  }

  function WhiteLexeme(s: string): Lexeme
    requires |s| > 0
  {
    var n := 1 + SpanWhite(s[1..]);
    Lexeme(Whitespace, s[..n], n)
  }

  function WordLexeme(s: string): Lexeme
    requires |s| > 0
  {
    var n := 1 + SpanWord(s[1..]);
    Lexeme(ClassifyWord(s[..n]), s[..n], n)
  }

  function ClassifyWord(word: string): TokenKind {
    match Classify(word)
    case NotKeyword => Identifier
    case Is(kw) => Keyword(kw)
  }

  /** The token at the start of `s`. */
  function Lex(s: string): (l: Lexeme)
    requires |s| > 0
    ensures 0 < l.len <= |s|
    ensures 0 < |l.text| <= l.len
  {
    var c := s[0];
    if IsBlank(c) then WhiteLexeme(s)
    else if c == '(' then Single(OpenParen, s)
    else if c == ')' then Single(CloseParen, s)
    else if c == ',' then Single(Comma, s)
    else if c == ';' then Single(Semicolon, s)
    else if c == '*' then Single(Star, s)
    else if c == '.' then Single(Dot, s)
    else if c == '\'' then Quoted(s, String)
    else if c == '"' then Quoted(s, Identifier)
    else if c == '-' then
      if |s| > 1 && s[1] == '-' then LineComment(s)
      else if |s| > 1 && IsDigit(s[1]) then Numeral(s, 2)
      else Single(Operator, s)
    else if c == '/' then
      if |s| > 1 && s[1] == '*' then BlockComment(s) else Single(Operator, s)
    else if c == '<' then Op(s, "=><")
    else if c == '>' then Op(s, "=>")
    else if c == '!' then Op(s, "=")
    else if c == '=' || c == '+' || c == '%' then Single(Operator, s)
    else if c == '|' then Op(s, "|")
    else if c == ':' then Op(s, ":")
    else if IsDigit(c) then Numeral(s, 1)
    else if IsLetter(c) || c == '_' then WordLexeme(s)
    else Single(Partial, s)
  }

  /** All tokens of `s`, which starts at offset `at`; whitespace included. */
  function TokensFrom(s: string, at: nat): seq<Token> {
    if s == [] then []
    else
      var l := Lex(s);
      [Token(l.kind, l.text, at, at + l.len)] + TokensFrom(s[l.len..], at + l.len)
  }

  function Significant(tokens: seq<Token>): seq<Token> {
    if tokens == [] then []
    else if tokens[0].kind.Whitespace? then Significant(tokens[1..])
    else [tokens[0]] + Significant(tokens[1..])
  }

  function Shifted(tokens: seq<Token>, delta: nat): (r: seq<Token>)
    ensures |r| == |tokens|
    ensures forall i | 0 <= i < |tokens| :: r[i] == tokens[i].Shift(delta)
  {
    seq(|tokens|, i requires 0 <= i < |tokens| => tokens[i].Shift(delta))
  }
}

/** The keyword tables and the word classifier. */
module SqlKeywords {
  datatype KeywordKind = Statement | Clause | Join | Logical | Modifier | Function | Ddl | DataType | Other

  datatype Class = NotKeyword | Is(kw: KeywordKind)

  function UpperChar(c: char): char {
    if 'a' <= c <= 'z' then (c as int - 32) as char else c
  }

  function Upper(s: string): (r: string)
    ensures |r| == |s|
    ensures forall i | 0 <= i < |s| :: r[i] == UpperChar(s[i])
  {
    seq(|s|, i requires 0 <= i < |s| => UpperChar(s[i]))
  }

  function StatementKeywords(): set<string> {
    {
      "SELECT", "INSERT", "UPDATE", "DELETE", "CREATE", "DROP", "ALTER", "TRUNCATE", "BEGIN",
      "COMMIT", "ROLLBACK", "EXPLAIN", "ANALYZE", "GRANT", "REVOKE", "VACUUM", "REINDEX", "WITH"
    }
  }

  function JoinTypes(): set<string> {
    {"JOIN", "INNER", "LEFT", "RIGHT", "FULL", "CROSS", "NATURAL", "OUTER"}
  }

  function ClauseKeywords(): set<string> {
    {
      "FROM", "WHERE", "HAVING", "ORDER", "GROUP", "BY", "LIMIT", "OFFSET", "ON", "USING", "AS",
      "INTO", "SET", "VALUES"
    }
  }

  function LogicalOperators(): set<string> {
    {"AND", "OR", "NOT"}
  }

  function Modifiers(): set<string> {
    {"DISTINCT", "ALL", "ASC", "DESC", "NULLS", "FIRST", "LAST"}
  }

  function Functions(): set<string> {
    {
      "COUNT", "SUM", "AVG", "MIN", "MAX", "ARRAY_AGG", "STRING_AGG", "JSON_AGG", "BOOL_AND",
      "BOOL_OR", "EVERY", "STDDEV", "VARIANCE",
      "COALESCE", "NULLIF", "CAST", "CONVERT", "UPPER", "LOWER", "TRIM", "SUBSTRING", "LENGTH",
      "CONCAT", "NOW", "CURRENT_DATE", "CURRENT_TIME", "CURRENT_TIMESTAMP", "DATE", "TIME",
      "EXTRACT", "DATE_TRUNC", "ABS", "ROUND", "CEIL", "FLOOR", "MOD", "CASE", "WHEN", "THEN",
      "ELSE", "END"
    }
  }

  function DdlKeywords(): set<string> {
    {
      "TABLE", "INDEX", "UNIQUE", "VIEW", "MATERIALIZED", "SCHEMA", "DATABASE", "SEQUENCE",
      "FUNCTION", "PROCEDURE", "TRIGGER", "TYPE", "EXTENSION", "ROLE", "USER",
      "ADD", "DROP", "ALTER", "RENAME", "SET", "RESET", "COLUMN", "CONSTRAINT", "OWNER"
    }
  }

  function DataTypes(): set<string> {
    {
      "INT", "INTEGER", "BIGINT", "SMALLINT", "DECIMAL", "NUMERIC", "REAL", "DOUBLE", "FLOAT",
      "CHAR", "VARCHAR", "TEXT", "BYTEA", "BOOLEAN", "BOOL", "DATE", "TIME", "TIMESTAMP",
      "TIMESTAMPTZ", "INTERVAL", "UUID", "JSON", "JSONB", "XML", "ARRAY", "SERIAL", "BIGSERIAL"
    }
  }

  function OtherKeywords(): set<string> {
    {
      "NULL", "TRUE", "FALSE", "IN", "LIKE", "ILIKE", "BETWEEN", "IS", "EXISTS", "ANY", "ALL",
      "UNION", "INTERSECT", "EXCEPT", "CASE", "WHEN", "THEN", "ELSE", "END", "IF", "DEFAULT"
    }
  }

  /** The first table that lists the upper-cased word decides. */
  function Classify(word: string): Class {
    var upper := Upper(word);
    if upper in StatementKeywords() then Is(Statement)
    else if upper in JoinTypes() then Is(Join)
    else if upper in ClauseKeywords() then Is(Clause)
    else if upper in LogicalOperators() then Is(Logical)
    else if upper in Modifiers() then Is(Modifier)
    else if upper in Functions() then Is(Function)
    else if upper in DdlKeywords() then Is(Ddl)
    else if upper in DataTypes() then Is(DataType)
    else if upper in OtherKeywords() then Is(Other)
    else NotKeyword
  }
}
