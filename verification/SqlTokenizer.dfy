/** The tokenizer in place: a cursor over the text and one reading loop per token class. */
module SqlTokenizer {
  import opened Chars
  import opened Wrappers
  import opened SqlKeywords
  import opened SqlLexer
  import opened SqlLexerLaws

  class Tokenizer {
    const input: string
    /** The next character to read. */
    var pos: nat

    ghost predicate Valid()
      reads this
    {
      pos <= |input|
    }

    constructor (input: string)
      ensures Valid() && this.input == input && pos == 0
    {
      this.input := input;
      pos := 0;
    }

    /** `t` is the lexeme `l` at `start`, and the cursor stands behind it. */
    ghost predicate Read(start: nat, l: Lexeme, t: Token)
      reads this
    {
      t == Token(l.kind, l.text, start, start + l.len) && pos == start + l.len
    }

    method NextToken() returns (r: Option<Token>)
      requires Valid()
      modifies this
      ensures Valid()
      ensures old(pos) == |input| ==> r == None && pos == old(pos)
      ensures old(pos) < |input| ==> r.Some? && Read(old(pos), Lex(input[old(pos)..]), r.value)
    {
      if pos == |input| {
        return None;
      }
      var start, ch := pos, input[pos];
      pos := pos + 1;
      var t;
      hide Quoted;
      hide LineComment;
      hide BlockComment;
      hide Numeral;
      hide WordLexeme;
      ghost var s := input[start..];
      assert s[0] == ch && s[..1] == [ch];
      assert |s| > 1 ==> s[1] == input[pos];
      match ch {
        case ' ' | '\t' | '\n' | '\r' => t := ReadWhitespace(start, ch);
        case '(' => t := Token(OpenParen, "(", start, start + 1);
        case ')' => t := Token(CloseParen, ")", start, start + 1);
        case ',' => t := Token(Comma, ",", start, start + 1);
        case ';' => t := Token(Semicolon, ";", start, start + 1);
        case '*' => t := Token(Star, "*", start, start + 1);
        case '.' => t := Token(Dot, ".", start, start + 1);
        case '\'' => t := ReadString(start, '\'');
        case '"' => t := ReadQuotedIdentifier(start);
        case '-' => t := ReadMinusOrComment(start);
        case '/' => t := ReadSlashOrComment(start);
        case '<' => t := ReadOperator(start, '<', "=><");
        case '>' => t := ReadOperator(start, '>', "=>");
        case '!' => t := ReadOperator(start, '!', "=");
        case '=' => t := Token(Operator, "=", start, start + 1);
        case '+' => t := Token(Operator, "+", start, start + 1);
        case '%' => t := Token(Operator, "%", start, start + 1);
        case '|' => t := ReadOperator(start, '|', "|");
        case ':' => t := ReadOperator(start, ':', ":");
        case _ =>
          if IsDigit(ch) {
            t := ReadNumber(start, ch);
          } else if IsLetter(ch) || ch == '_' {
            t := ReadIdentifier(start, ch);
          } else {
            t := Token(Partial, [ch], start, start + 1);
          }
      }
      r := Some(t);
    }

    method ReadWhitespace(start: nat, first: char) returns (t: Token)
      requires start < |input| && pos == start + 1 && input[start] == first
      modifies this
      ensures Valid()
      ensures Read(start, WhiteLexeme(input[start..]), t)
    {
      hide SpanWhite;
      hide WhiteLexeme;
      var text, end := [first], start + 1;
      while pos < |input|
        invariant start < pos <= |input|
        invariant text == input[start..pos] && end == pos
        invariant SpanWhite(input[start + 1..]) == pos - (start + 1) + SpanWhite(input[pos..])
      {
        var ch := input[pos];
        ScansAhead(input, pos);
        if !IsWhite(ch) {
          break;
        }
        Grow(input, start, pos);
        text := text + [ch];
        end := pos + 1;
        pos := pos + 1;
      }
      ScansEnd();
      t := Token(Whitespace, text, start, end);
      WhiteEnds(input, start, pos);
    }

    method ReadString(start: nat, quote: char) returns (t: Token)
      requires start < |input| && pos == start + 1 && input[start] == quote
      modifies this
      ensures Valid() && Read(start, Quoted(input[start..], String), t)
    {
      hide ScanQuoted;
      hide Quoted;
      var text, end, closed := [quote], start + 1, false;
      while pos < |input|
        invariant start < pos <= |input|
        invariant text == input[start..pos] && end == pos && !closed
        invariant ScanQuoted(input[start + 1..], quote) == ScanQuoted(input[pos..], quote).Plus(pos - (start + 1))
      {
        var ch := input[pos];
        QuotedAhead(input, pos, quote);
        Grow(input, start, pos);
        text := text + [ch];
        end := pos + 1;
        pos := pos + 1;
        if ch == quote {
          if pos < |input| && input[pos] == quote {
            Grow(input, start, pos);
            text := text + [input[pos]];
            end := pos + 1;
            pos := pos + 1;
            continue;
          }
          closed := true;
          break;
        }
      }
      QuotedEnd(quote);
      t := Token(if closed then String else Partial, text, start, end);
      QuotedEnds(input, start, pos, closed, String);
    }

    method ReadQuotedIdentifier(start: nat) returns (t: Token)
      requires start < |input| && pos == start + 1 && input[start] == '"'
      modifies this
      ensures Valid() && Read(start, Quoted(input[start..], Identifier), t)
    {
      hide ScanQuoted;
      hide Quoted;
      var text, end, closed := "\"", start + 1, false;
      while pos < |input|
        invariant start < pos <= |input|
        invariant text == input[start..pos] && end == pos && !closed
        invariant ScanQuoted(input[start + 1..], '"') == ScanQuoted(input[pos..], '"').Plus(pos - (start + 1))
      {
        var ch := input[pos];
        QuotedAhead(input, pos, '"');
        Grow(input, start, pos);
        text := text + [ch];
        end := pos + 1;
        pos := pos + 1;
        if ch == '"' {
          if pos < |input| && input[pos] == '"' {
            Grow(input, start, pos);
            text := text + [input[pos]];
            end := pos + 1;
            pos := pos + 1;
            continue;
          }
          closed := true;
          break;
        }
      }
      QuotedEnd('"');
      t := Token(if closed then Identifier else Partial, text, start, end);
      QuotedEnds(input, start, pos, closed, Identifier);
    }

    /** The token that starts with a minus sign. */
    ghost function MinusLexeme(s: string): Lexeme
      requires |s| > 0
    {
      if |s| > 1 && s[1] == '-' then LineComment(s)
      else if |s| > 1 && IsDigit(s[1]) then Numeral(s, 2)
      else Single(Operator, s)
    }

    method ReadMinusOrComment(start: nat) returns (t: Token)
      requires start < |input| && pos == start + 1 && input[start] == '-'
      modifies this
      ensures Valid() && Read(start, MinusLexeme(input[start..]), t)
    {
      hide LineComment;
      hide Numeral;
      ghost var s := input[start..];
      assert |s| > 1 ==> s[1] == input[pos];
      if pos < |input| && input[pos] == '-' {
        pos := pos + 1;
        t := ReadLineComment(start);
      } else if pos < |input| && IsDigit(input[pos]) {
        var digit := input[pos];
        pos := pos + 1;
        t := ReadNumberContinuing(start, ['-', digit], pos);
      } else {
        t := Token(Operator, "-", start, start + 1);
        assert s[..1] == "-";
      }
    }

    method ReadLineComment(start: nat) returns (t: Token)
      requires start + 1 < |input| && pos == start + 2 && input[start] == '-' && input[start + 1] == '-'
      modifies this
      ensures Valid() && Read(start, LineComment(input[start..]), t)
    {
      hide SpanLine;
      var text, end := "--", start + 2;
      while pos < |input|
        invariant start + 2 <= pos <= |input|
        invariant text == input[start..pos] && end == pos
        invariant SpanLine(input[start + 2..]) == pos - (start + 2) + SpanLine(input[pos..])
      {
        var ch := input[pos];
        ScansAhead(input, pos);
        Grow(input, start, pos);
        end := pos + 1;
        pos := pos + 1;
        if ch == '\n' {
          break;
        }
        text := text + [ch];
      }
      ScansEnd();
      t := Token(Comment, text, start, end);
      Slices(input, start, 2, |text|);
    }

    method ReadSlashOrComment(start: nat) returns (t: Token)
      requires start < |input| && pos == start + 1 && input[start] == '/'
      modifies this
      ensures Valid()
      ensures var s := input[start..];
              Read(start, if |s| > 1 && s[1] == '*' then BlockComment(s) else Single(Operator, s), t)
    {
      hide ScanBlock;
      hide BlockComment;
      if pos < |input| && input[pos] == '*' {
        pos := pos + 1;
        var text, end, closed := "/*", start + 2, false;
        while pos < |input|
          invariant start + 2 <= pos <= |input|
          invariant text == input[start..pos] && end == pos && !closed
          invariant ScanBlock(input[start + 2..]) == ScanBlock(input[pos..]).Plus(pos - (start + 2))
        {
          var ch := input[pos];
          BlockAhead(input, pos);
          Grow(input, start, pos);
          text := text + [ch];
          end := pos + 1;
          pos := pos + 1;
          if ch == '*' && pos < |input| && input[pos] == '/' {
            Grow(input, start, pos);
            text := text + [input[pos]];
            end := pos + 1;
            pos := pos + 1;
            closed := true;
            break;
          }
        }
        BlockEnd();
        t := Token(if closed then Comment else Partial, text, start, end);
        BlockEnds(input, start, pos, closed);
      } else {
        t := Token(Operator, "/", start, start + 1);
        assert input[start..][..1] == "/";
      }
    }

    /** The five readers of one- and two-character operators. */
    method ReadOperator(start: nat, first: char, seconds: string) returns (t: Token)
      requires start < |input| && pos == start + 1 && input[start] == first
      modifies this
      ensures Valid() && Read(start, Op(input[start..], seconds), t)
    {
      if pos < |input| && input[pos] in seconds {
        t := Token(Operator, [first, input[pos]], start, start + 2);
        pos := pos + 1;
        assert input[start..][..2] == t.text;
      } else {
        t := Token(Operator, [first], start, start + 1);
        assert input[start..][..1] == t.text;
      }
    }

    method ReadNumber(start: nat, first: char) returns (t: Token)
      requires start < |input| && pos == start + 1 && input[start] == first
      modifies this
      ensures Valid() && Read(start, Numeral(input[start..], 1), t)
    {
      t := ReadNumberContinuing(start, [first], start + 1);
    }

    method ReadNumberContinuing(start: nat, begun: string, endSoFar: nat) returns (t: Token)
      requires start < pos <= |input| && begun == input[start..pos] && endSoFar == pos
      modifies this
      ensures Valid() && Read(start, Numeral(input[start..], old(pos) - start), t)
    {
      hide SpanNumber;
      hide Numeral;
      var text, end, hasDot, hasE := begun, endSoFar, false, false;
      ghost var from := pos;
      while pos < |input|
        invariant start < from <= pos <= |input|
        invariant text == input[start..pos] && end == pos
        invariant SpanNumber(input[from..], false, false) == pos - from + SpanNumber(input[pos..], hasDot, hasE)
      {
        var ch := input[pos];
        Grow(input, start, pos);
        if IsDigit(ch) {
          DigitAhead(input, pos, hasDot, hasE);
          text := text + [ch];
          end := pos + 1;
          pos := pos + 1;
        } else if ch == '.' && !hasDot && !hasE {
          DotAhead(input, pos);
          hasDot := true;
          text := text + [ch];
          end := pos + 1;
          pos := pos + 1;
        } else if (ch == 'e' || ch == 'E') && !hasE {
          ExponentAhead(input, pos, hasDot);
          hasE := true;
          text := text + [ch];
          end := pos + 1;
          pos := pos + 1;
          if pos < |input| && IsSign(input[pos]) {
            Grow(input, start, pos);
            text := text + [input[pos]];
            end := pos + 1;
            pos := pos + 1;
          }
        } else {
          NumberStops(input, pos, hasDot, hasE);
          break;
        }
      }
      NumberEnd(hasDot, hasE);
      t := Token(Number, text, start, end);
      NumeralEnds(input, start, from, pos);
    }

    method ReadIdentifier(start: nat, first: char) returns (t: Token)
      requires start < |input| && pos == start + 1 && input[start] == first
      modifies this
      ensures Valid() && Read(start, WordLexeme(input[start..]), t)
    {
      hide ClassifyWord;
      hide SpanWord;
      hide WordLexeme;
      var text, end := [first], start + 1;
      while pos < |input|
        invariant start < pos <= |input|
        invariant text == input[start..pos] && end == pos
        invariant SpanWord(input[start + 1..]) == pos - (start + 1) + SpanWord(input[pos..])
      {
        var ch := input[pos];
        ScansAhead(input, pos);
        if !IsWordChar(ch) {
          break;
        }
        Grow(input, start, pos);
        text := text + [ch];
        end := pos + 1;
        pos := pos + 1;
      }
      ScansEnd();
      WordEnds(input, start, pos);
      t := Token(ClassifyWord(text), text, start, end);
    }
  }

  // ---------------------------------------------------------------- the loops one character on

  lemma Grow(input: string, start: nat, pos: nat)
    requires start <= pos < |input|
    ensures input[start..pos] + [input[pos]] == input[start..pos + 1]
  {
  }

  lemma Slices(input: string, start: nat, skip: nat, len: nat)
    requires start + skip <= |input| && start + len <= |input|
    ensures input[start..][skip..] == input[start + skip..]
    ensures input[start..][..len] == input[start..start + len]
  {
  }

  lemma WhiteEnds(input: string, start: nat, pos: nat)
    requires start < pos <= |input| && SpanWhite(input[start + 1..]) == pos - (start + 1)
    ensures WhiteLexeme(input[start..]) == Lexeme(Whitespace, input[start..pos], pos - start)
  {
    hide SpanWhite;
    Slices(input, start, 1, pos - start);
  }

  lemma WordEnds(input: string, start: nat, pos: nat)
    requires start < pos <= |input| && SpanWord(input[start + 1..]) == pos - (start + 1)
    ensures WordLexeme(input[start..]) == Lexeme(ClassifyWord(input[start..pos]), input[start..pos], pos - start)
  {
    hide ClassifyWord;
    hide SpanWord;
    Slices(input, start, 1, pos - start);
  }

  lemma NumeralEnds(input: string, start: nat, from: nat, pos: nat)
    requires start < from <= pos <= |input| && SpanNumber(input[from..], false, false) == pos - from
    ensures Numeral(input[start..], from - start) == Lexeme(Number, input[start..pos], pos - start)
  {
    hide SpanNumber;
    Slices(input, start, from - start, pos - start);
  }

  lemma QuotedEnds(input: string, start: nat, pos: nat, closed: bool, kind: TokenKind)
    requires start < pos <= |input| && ScanQuoted(input[start + 1..], input[start]) == Scan(pos - (start + 1), closed)
    ensures Quoted(input[start..], kind) == Lexeme(if closed then kind else Partial, input[start..pos], pos - start)
  {
    hide ScanQuoted;
    Slices(input, start, 1, pos - start);
  }

  lemma BlockEnds(input: string, start: nat, pos: nat, closed: bool)
    requires start + 2 <= pos <= |input| && ScanBlock(input[start + 2..]) == Scan(pos - (start + 2), closed)
    ensures BlockComment(input[start..]) == Lexeme(if closed then Comment else Partial, input[start..pos], pos - start)
  {
    hide ScanBlock;
    Slices(input, start, 2, pos - start);
  }

  lemma ScansAhead(input: string, pos: nat)
    requires pos < |input|
    ensures SpanWhite(input[pos..]) == if IsWhite(input[pos]) then 1 + SpanWhite(input[pos + 1..]) else 0
    ensures SpanWord(input[pos..]) == if IsWordChar(input[pos]) then 1 + SpanWord(input[pos + 1..]) else 0
    ensures SpanLine(input[pos..]) == if input[pos] == '\n' then 0 else 1 + SpanLine(input[pos + 1..])
  {
    assert input[pos..][1..] == input[pos + 1..];
  }

  lemma ScansEnd()
    ensures SpanWhite("") == SpanWord("") == SpanLine("") == 0
  {
  }

  lemma BlockAhead(input: string, pos: nat)
    requires pos < |input|
    ensures ScanBlock(input[pos..]) ==
            if input[pos] == '*' && pos + 1 < |input| && input[pos + 1] == '/' then Scan(2, true)
            else ScanBlock(input[pos + 1..]).Plus(1)
  {
    assert input[pos..][1..] == input[pos + 1..];
  }

  lemma BlockEnd()
    ensures ScanBlock("") == Scan(0, false)
  {
  }

  lemma DigitAhead(input: string, pos: nat, hasDot: bool, hasE: bool)
    requires pos < |input| && IsDigit(input[pos])
    ensures SpanNumber(input[pos..], hasDot, hasE) == 1 + SpanNumber(input[pos + 1..], hasDot, hasE)
  {
    hide SpanNumber;
    SpanNumberUnfolds(input[pos..], hasDot, hasE);
    assert input[pos..][1..] == input[pos + 1..];
  }

  lemma DotAhead(input: string, pos: nat)
    requires pos < |input| && input[pos] == '.'
    ensures SpanNumber(input[pos..], false, false) == 1 + SpanNumber(input[pos + 1..], true, false)
  {
    hide SpanNumber;
    SpanNumberUnfolds(input[pos..], false, false);
    assert input[pos..][1..] == input[pos + 1..];
  }

  lemma ExponentAhead(input: string, pos: nat, hasDot: bool)
    requires pos < |input| && (input[pos] == 'e' || input[pos] == 'E')
    ensures SpanNumber(input[pos..], hasDot, false) ==
            if pos + 1 < |input| && IsSign(input[pos + 1]) then 2 + SpanNumber(input[pos + 2..], hasDot, true)
            else 1 + SpanNumber(input[pos + 1..], hasDot, true)
  {
    hide SpanNumber;
    var ahead := input[pos..];
    SpanNumberUnfolds(ahead, hasDot, false);
    assert ahead[1..] == input[pos + 1..];
    assert pos + 1 < |input| ==> ahead[1] == input[pos + 1] && ahead[2..] == input[pos + 2..];
  }

  lemma NumberStops(input: string, pos: nat, hasDot: bool, hasE: bool)
    requires pos < |input| && !IsDigit(input[pos])
    requires !(input[pos] == '.' && !hasDot && !hasE) && !((input[pos] == 'e' || input[pos] == 'E') && !hasE)
    ensures SpanNumber(input[pos..], hasDot, hasE) == 0
  {
    hide SpanNumber;
    SpanNumberUnfolds(input[pos..], hasDot, hasE);
  }

  lemma NumberEnd(hasDot: bool, hasE: bool)
    ensures SpanNumber("", hasDot, hasE) == 0
  {
  }

  /** The string loop one character on. */
  lemma QuotedAhead(input: string, pos: nat, quote: char)
    requires pos < |input|
    ensures ScanQuoted(input[pos..], quote) ==
            if input[pos] != quote then ScanQuoted(input[pos + 1..], quote).Plus(1)
            else if pos + 1 < |input| && input[pos + 1] == quote then ScanQuoted(input[pos + 2..], quote).Plus(2)
            else Scan(1, true)
  {
    var ahead := input[pos..];
    assert ahead[1..] == input[pos + 1..];
    assert pos + 1 < |input| ==> ahead[1] == input[pos + 1] && ahead[2..] == input[pos + 2..];
  }

  lemma QuotedEnd(quote: char)
    ensures ScanQuoted("", quote) == Scan(0, false)
  {
  }

  /** All tokens but whitespace. */
  method Tokenize(input: string) returns (tokens: seq<Token>)
    ensures tokens == Significant(TokensFrom(input, 0))
  {
    hide Lex;
    hide Significant;
    hide TokensFrom;
    var tokenizer := new Tokenizer(input);
    tokens := [];
    assert input[0..] == input;
    while true
      invariant tokenizer.Valid() && tokenizer.input == input
      invariant tokens + Significant(TokensFrom(input[tokenizer.pos..], tokenizer.pos)) ==
                Significant(TokensFrom(input, 0))
      decreases |input| - tokenizer.pos
    {
      ghost var at := tokenizer.pos;
      var next := tokenizer.NextToken();
      if next == None {
        TokensOfNothing(input, at);
        SignificantNil();
        break;
      }
      var token := next.value;
      TokensUnfold(input, at);
      SignificantCons(token, TokensFrom(input[tokenizer.pos..], tokenizer.pos));
      if !token.kind.Whitespace? {
        AppendCons(tokens, token, Significant(TokensFrom(input[tokenizer.pos..], tokenizer.pos)));
        tokens := tokens + [token];
      }
    }
  }

  lemma TokensOfNothing(input: string, at: nat)
    requires at == |input|
    ensures TokensFrom(input[at..], at) == []
  {
  }

  lemma AppendCons(a: seq<Token>, t: Token, b: seq<Token>)
    ensures a + ([t] + b) == (a + [t]) + b
  {
  }

  lemma TokensUnfold(input: string, at: nat)
    requires at < |input|
    ensures var l := Lex(input[at..]);
            TokensFrom(input[at..], at) ==
            [Token(l.kind, l.text, at, at + l.len)] + TokensFrom(input[at + l.len..], at + l.len)
  {
    hide Lex;
    var l := Lex(input[at..]);
    assert input[at..][l.len..] == input[at + l.len..];
  }

  /** All tokens, whitespace included. */
  method TokenizeWithWhitespace(input: string) returns (tokens: seq<Token>)
    ensures tokens == TokensFrom(input, 0)
    ensures Tiles(tokens, input, 0)
  {
    hide Lex;
    hide TokensFrom;
    var tokenizer := new Tokenizer(input);
    tokens := [];
    assert input[0..] == input;
    while true
      invariant tokenizer.Valid() && tokenizer.input == input
      invariant tokens + TokensFrom(input[tokenizer.pos..], tokenizer.pos) == TokensFrom(input, 0)
      decreases |input| - tokenizer.pos
    {
      ghost var at := tokenizer.pos;
      var next := tokenizer.NextToken();
      if next == None {
        TokensOfNothing(input, at);
        break;
      }
      TokensUnfold(input, at);
      AppendCons(tokens, next.value, TokensFrom(input[tokenizer.pos..], tokenizer.pos));
      tokens := tokens + [next.value];
    }
    TokensTile(input, 0);
  }
}
