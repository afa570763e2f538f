/** Laws of the tokenizer: tiling, statement locality, and the printer round trip. */
module SqlLexerLaws {
  import opened Chars
  import opened SqlKeywords
  import opened SqlLexer

  // ---------------------------------------------------------------- tiling

  /** A line comment whose text stops short of the newline it consumes. */
  predicate LineCommentText(kind: TokenKind, text: string) {
    kind.Comment? && |text| >= 2 && text[..2] == "--"
  }

  /** The token's text is its slice of the input, up to a line comment's newline. */
  predicate TextIsSlice(t: Token, input: string)
    requires t.start <= t.end <= |input|
  {
    || t.text == input[t.start..t.end]
    || (LineCommentText(t.kind, t.text) && t.text + "\n" == input[t.start..t.end])
  }

  /** `tokens` cover `input` from `at` to its end with no gap and no overlap. */
  predicate Tiles(tokens: seq<Token>, input: string, at: nat)
    decreases |tokens|
  {
    if tokens == [] then at == |input|
    else
      && tokens[0].start == at < tokens[0].end <= |input|
      && TextIsSlice(tokens[0], input)
      && Tiles(tokens[1..], input, tokens[0].end)
  }

  lemma LexTextIsSlice(s: string)
    requires |s| > 0
    ensures var l := Lex(s);
            || l.text == s[..l.len]
            || (LineCommentText(l.kind, l.text) && l.text + "\n" == s[..l.len])
  {
    if s[0] == '-' && |s| > 1 && s[1] == '-' {
      var n := 2 + SpanLine(s[2..]);
      assert s[..n][..2] == "--";
      if n < |s| {
        assert s[n] == s[2..][n - 2] == '\n';
        assert s[..n] + "\n" == s[..n + 1];
      }
    }
  }

  /** The tokens, whitespace included, tile the text. */
  lemma {:induction false} TokensTile(input: string, at: nat)
    requires at <= |input|
    ensures Tiles(TokensFrom(input[at..], at), input, at)
    decreases |input| - at
  {
    hide Lex;
    if at < |input| {
      var s := input[at..];
      var l := Lex(s);
      LexTextIsSlice(s);
      assert s[..l.len] == input[at..at + l.len];
      assert s[l.len..] == input[at + l.len..];
      TokensTile(input, at + l.len);
      assert TokensFrom(s, at)[1..] == TokensFrom(input[at + l.len..], at + l.len);
    } else {
      assert input[at..] == [];
    }
  }

  // ---------------------------------------------------------------- what lies behind does not matter

  lemma {:induction false} SpanWhiteExtends(s: string, q: string)
    requires SpanWhite(s) < |s|
    ensures SpanWhite(s + q) == SpanWhite(s)
  {
    if IsWhite(s[0]) {
      SpanWhiteExtends(s[1..], q);
      assert (s + q)[1..] == s[1..] + q;
    }
  }

  lemma {:induction false} SpanWordExtends(s: string, q: string)
    requires SpanWord(s) < |s|
    ensures SpanWord(s + q) == SpanWord(s)
  {
    if IsWordChar(s[0]) {
      SpanWordExtends(s[1..], q);
      assert (s + q)[1..] == s[1..] + q;
    }
  }

  lemma {:induction false} SpanLineExtends(s: string, q: string)
    requires SpanLine(s) < |s|
    ensures SpanLine(s + q) == SpanLine(s)
  {
    if s[0] != '\n' {
      SpanLineExtends(s[1..], q);
      assert (s + q)[1..] == s[1..] + q;
    }
  }

  lemma {:induction false} ScanQuotedExtends(s: string, quote: char, q: string)
    requires ScanQuoted(s, quote).len < |s|
    ensures ScanQuoted(s + q, quote) == ScanQuoted(s, quote)
  {
    if s[0] != quote {
      ScanQuotedExtends(s[1..], quote, q);
      assert (s + q)[1..] == s[1..] + q;
    } else if |s| > 1 && s[1] == quote {
      ScanQuotedExtends(s[2..], quote, q);
      assert (s + q)[2..] == s[2..] + q;
    }
  }

  lemma {:induction false} ScanBlockExtends(s: string, q: string)
    requires ScanBlock(s).closed
    ensures ScanBlock(s + q) == ScanBlock(s)
  {
    if !(s[0] == '*' && |s| > 1 && s[1] == '/') {
      ScanBlockExtends(s[1..], q);
      assert (s + q)[1..] == s[1..] + q;
    }
  }

  lemma {:induction false} SpanNumberExtends(s: string, hasDot: bool, hasE: bool, q: string)
    requires SpanNumber(s, hasDot, hasE) < |s|
    ensures SpanNumber(s + q, hasDot, hasE) == SpanNumber(s, hasDot, hasE)
    decreases |s|
  {
    var step := StepNumber(s, hasDot, hasE);
    assert StepNumber(s + q, hasDot, hasE) == step;
    if step.len > 0 {
      SpanNumberExtends(s[step.len..], step.hasDot, step.hasE, q);
      assert (s + q)[step.len..] == s[step.len..] + q;
    }
  }

  lemma QuotedExtends(s: string, kind: TokenKind, q: string)
    requires |s| > 0 && Quoted(s, kind).len < |s|
    ensures Quoted(s + q, kind) == Quoted(s, kind)
  {
    assert (s + q)[1..] == s[1..] + q;
    ScanQuotedExtends(s[1..], s[0], q);
    var n := Quoted(s, kind).len;
    assert (s + q)[..n] == s[..n];
  }

  lemma LineCommentExtends(s: string, q: string)
    requires |s| > 1 && 2 + SpanLine(s[2..]) < |s|
    ensures LineComment(s + q) == LineComment(s)
  {
    assert (s + q)[2..] == s[2..] + q;
    SpanLineExtends(s[2..], q);
    var n := 2 + SpanLine(s[2..]);
    assert (s + q)[..n] == s[..n];
  }

  lemma BlockCommentExtends(s: string, q: string)
    requires |s| > 1 && BlockComment(s).len < |s|
    ensures BlockComment(s + q) == BlockComment(s)
  {
    assert (s + q)[2..] == s[2..] + q;
    ScanBlockExtends(s[2..], q);
    var n := BlockComment(s).len;
    assert (s + q)[..n] == s[..n];
  }

  lemma NumeralExtends(s: string, n: nat, q: string)
    requires n <= |s| && Numeral(s, n).len < |s|
    ensures Numeral(s + q, n) == Numeral(s, n)
  {
    hide SpanNumber;
    hide StepNumber;
    assert (s + q)[n..] == s[n..] + q;
    SpanNumberExtends(s[n..], false, false, q);
    var len := Numeral(s, n).len;
    assert (s + q)[..len] == s[..len];
  }

  lemma WordLexemeExtends(s: string, q: string)
    requires |s| > 0 && WordLexeme(s).len < |s|
    ensures WordLexeme(s + q) == WordLexeme(s)
  {
    hide ClassifyWord;
    assert (s + q)[1..] == s[1..] + q;
    SpanWordExtends(s[1..], q);
    var n := WordLexeme(s).len;
    assert (s + q)[..n] == s[..n];
  }

  /** A token that ends before the end of `s` is the same whatever follows `s`. */
  lemma LexExtends(s: string, q: string)
    requires |s| > 0 && (Lex(s).len < |s| || s[0] == ';')
    ensures Lex(s + q) == Lex(s)
  {
    hide Quoted;
    hide LineComment;
    hide BlockComment;
    hide Numeral;
    hide WordLexeme;
    var c := s[0];
    assert (s + q)[0] == c;
    assert (s + q)[..1] == s[..1];
    if IsBlank(c) {
      assert (s + q)[1..] == s[1..] + q;
      SpanWhiteExtends(s[1..], q);
      var n := Lex(s).len;
      assert (s + q)[..n] == s[..n];
    } else if c == '\'' {
      QuotedExtends(s, String, q);
    } else if c == '"' {
      QuotedExtends(s, Identifier, q);
    } else if c == ';' {
    } else if |s| > 1 {
      assert (s + q)[1] == s[1];
      assert (s + q)[..2] == s[..2];
      if c == '-' && s[1] == '-' {
        LineCommentShort(s);
        LineCommentExtends(s, q);
      } else if c == '-' && IsDigit(s[1]) {
        NumeralExtends(s, 2, q);
      } else if c == '/' && s[1] == '*' {
        BlockCommentExtends(s, q);
      } else if IsDigit(c) {
        NumeralExtends(s, 1, q);
      } else if IsLetter(c) || c == '_' {
        WordLexemeExtends(s, q);
      }
    }
  }

  lemma LineCommentShort(s: string)
    requires |s| > 1
    ensures LineComment(s).len < |s| ==> 2 + SpanLine(s[2..]) < |s|
  {
  }

  // ---------------------------------------------------------------- statement locality

  lemma {:induction false} TokensShift(s: string, at: nat, delta: nat)
    ensures TokensFrom(s, at + delta) == Shifted(TokensFrom(s, at), delta)
    decreases |s|
  {
    hide Lex;
    if s != [] {
      var l := Lex(s);
      TokensShift(s[l.len..], at + l.len, delta);
    }
  }

  /** Text that lexes with a final semicolon is a boundary: what follows is lexed as
      if it stood alone, and what precedes is not changed by it. */
  lemma {:induction false} SemicolonSplitsTokens(p: string, q: string, at: nat)
    requires p != [] && TokensFrom(p, at)[|TokensFrom(p, at)| - 1].kind.Semicolon?
    ensures TokensFrom(p + q, at) == TokensFrom(p, at) + Shifted(TokensFrom(q, 0), at + |p|)
    decreases |p|
  {
    hide Lex;
    var l := Lex(p);
    var first := Token(l.kind, l.text, at, at + l.len);
    var rest := p[l.len..];
    if rest == [] {
      assert TokensFrom(p, at) == [first];
      OnlySemicolons(p);
      LexExtends(p, q);
      assert (p + q)[1..] == q;
      TokensShift(q, 0, at + 1);
    } else {
      LexExtends(p, q);
      assert (p + q)[l.len..] == rest + q;
      assert TokensFrom(p, at)[1..] == TokensFrom(rest, at + l.len);
      SemicolonSplitsTokens(rest, q, at + l.len);
      assert TokensFrom(p + q, at) == [first] + TokensFrom(rest + q, at + l.len);
    }
  }

  lemma OnlySemicolons(s: string)
    requires |s| > 0 && Lex(s).kind.Semicolon?
    ensures s[0] == ';' && Lex(s).len == 1
  {
  }

  lemma {:induction false} SignificantSplits(a: seq<Token>, b: seq<Token>)
    ensures Significant(a + b) == Significant(a) + Significant(b)
  {
    if a == [] {
      assert a + b == b;
    } else {
      assert (a + b)[1..] == a[1..] + b;
      SignificantSplits(a[1..], b);
    }
  }

  lemma {:induction false} SignificantShifts(a: seq<Token>, delta: nat)
    ensures Significant(Shifted(a, delta)) == Shifted(Significant(a), delta)
  {
    if a != [] {
      assert Shifted(a, delta)[1..] == Shifted(a[1..], delta);
      SignificantShifts(a[1..], delta);
    }
  }

  // ---------------------------------------------------------------- the printer

  datatype Word = Word(kind: TokenKind, text: string)

  /** Kind and text of each token that is not whitespace. */
  function Words(s: string): seq<Word> {
    if s == [] then []
    else
      var l := Lex(s);
      if l.kind.Whitespace? then Words(s[l.len..])
      else [Word(l.kind, l.text)] + Words(s[l.len..])
  }

  function WordsOf(tokens: seq<Token>): (r: seq<Word>)
    ensures |r| == |tokens|
    ensures forall i | 0 <= i < |tokens| :: r[i] == Word(tokens[i].kind, tokens[i].text)
  {
    seq(|tokens|, i requires 0 <= i < |tokens| => Word(tokens[i].kind, tokens[i].text))
  }

  lemma SignificantCons(t: Token, rest: seq<Token>)
    ensures Significant([t] + rest) == if t.kind.Whitespace? then Significant(rest) else [t] + Significant(rest)
  {
    assert ([t] + rest)[1..] == rest;
  }

  lemma WordsOfCons(t: Token, rest: seq<Token>)
    ensures WordsOf([t] + rest) == [Word(t.kind, t.text)] + WordsOf(rest)
  {
  }

  lemma {:induction false} WordsAreTokens(s: string, at: nat)
    ensures WordsOf(Significant(TokensFrom(s, at))) == Words(s)
    decreases |s|
  {
    hide Lex;
    hide Significant;
    if s != [] {
      var l := Lex(s);
      var t, rest := Token(l.kind, l.text, at, at + l.len), TokensFrom(s[l.len..], at + l.len);
      WordsAreTokens(s[l.len..], at + l.len);
      SignificantCons(t, rest);
      assert TokensFrom(s, at) == [t] + rest;
      hide TokensFrom;
      WordsOfCons(t, Significant(rest));
    } else {
      assert Significant([]) == [] by { SignificantNil(); }
    }
  }

  lemma SignificantNil()
    ensures Significant([]) == []
  {
  }

  /** The words, one per line. */
  function Printed(ws: seq<Word>): string {
    if ws == [] then ""
    else if |ws| == 1 then ws[0].text
    else ws[0].text + "\n" + Printed(ws[1..])
  }

  // ---------------------------------------------------------------- a token cut out of its text

  lemma CutDrop(s: string, n: nat, k: nat, v: string)
    requires k <= n <= |s|
    ensures (s[..n] + v)[k..] == s[k..][..n - k] + v
  {
  }

  lemma {:induction false} SpanWordCut(s: string, v: string)
    requires v == [] || v[0] == '\n'
    ensures SpanWord(s[..SpanWord(s)] + v) == SpanWord(s)
  {
    var n := SpanWord(s);
    if n > 0 {
      SpanWordCut(s[1..], v);
      CutDrop(s, n, 1, v);
    } else {
      assert s[..0] + v == v;
    }
  }

  lemma {:induction false} SpanLineCut(s: string, v: string)
    requires v == [] || v[0] == '\n'
    ensures SpanLine(s[..SpanLine(s)] + v) == SpanLine(s)
  {
    var n := SpanLine(s);
    if n > 0 {
      SpanLineCut(s[1..], v);
      CutDrop(s, n, 1, v);
    } else {
      assert s[..0] + v == v;
    }
  }

  lemma {:induction false} ScanQuotedCut(s: string, quote: char, v: string)
    requires quote != '\n' && (v == [] || (v[0] == '\n' && ScanQuoted(s, quote).closed))
    ensures ScanQuoted(s[..ScanQuoted(s, quote).len] + v, quote) == ScanQuoted(s, quote)
  {
    var n := ScanQuoted(s, quote).len;
    if s == [] {
      assert s[..0] + v == v;
    } else if s[0] != quote {
      ScanQuotedCut(s[1..], quote, v);
      CutDrop(s, n, 1, v);
    } else if |s| > 1 && s[1] == quote {
      ScanQuotedCut(s[2..], quote, v);
      CutDrop(s, n, 2, v);
    }
  }

  lemma StepNumberCut(s: string, hasDot: bool, hasE: bool, n: nat, v: string)
    requires v == [] || v[0] == '\n'
    requires StepNumber(s, hasDot, hasE).len <= n <= |s|
    requires StepNumber(s, hasDot, hasE).len == 0 ==> n == 0
    ensures StepNumber(s[..n] + v, hasDot, hasE) == StepNumber(s, hasDot, hasE)
  {
    var cut := s[..n] + v;
    if n == 0 {
      assert cut == v;
      if v != [] { NewlineEndsTokens(v[0]); }
    } else {
      assert cut[0] == s[0];
      if n > 1 {
        assert cut[1] == s[1];
      } else if v != [] {
        assert cut[1] == v[0];
        NewlineEndsTokens(v[0]);
      }
    }
  }

  lemma NewlineEndsTokens(c: char)
    requires c == '\n'
    ensures !IsSign(c) && !IsDigit(c) && !IsWordChar(c) && c != '.' && c != 'e' && c != 'E'
  {
  }

  lemma SpanNumberUnfolds(s: string, hasDot: bool, hasE: bool)
    ensures var step := StepNumber(s, hasDot, hasE);
            SpanNumber(s, hasDot, hasE) ==
            if step.len == 0 then 0 else step.len + SpanNumber(s[step.len..], step.hasDot, step.hasE)
  {
    hide StepNumber;
  }

  lemma {:induction false} SpanNumberCut(s: string, hasDot: bool, hasE: bool, v: string)
    requires v == [] || v[0] == '\n'
    ensures SpanNumber(s[..SpanNumber(s, hasDot, hasE)] + v, hasDot, hasE) == SpanNumber(s, hasDot, hasE)
    decreases |s|
  {
    hide StepNumber;
    hide SpanNumber;
    var n, step := SpanNumber(s, hasDot, hasE), StepNumber(s, hasDot, hasE);
    var cut := s[..n] + v;
    SpanNumberUnfolds(s, hasDot, hasE);
    SpanNumberUnfolds(cut, hasDot, hasE);
    StepNumberCut(s, hasDot, hasE, n, v);
    if step.len > 0 {
      SpanNumberCut(s[step.len..], step.hasDot, step.hasE, v);
      CutDrop(s, n, step.len, v);
    }
  }

  lemma QuotedCut(s: string, kind: TokenKind, v: string)
    requires |s| > 0 && s[0] != '\n' && (v == [] || (v[0] == '\n' && Quoted(s, kind).len < |s|))
    ensures Quoted(Quoted(s, kind).text + v, kind) == Quoted(s, kind)
  {
    var n := Quoted(s, kind).len;
    CutDrop(s, n, 1, v);
    ScanQuotedCut(s[1..], s[0], v);
    assert (s[..n] + v)[..n] == s[..n];
  }

  lemma LineCommentCut(s: string, v: string)
    requires |s| > 1 && (v == [] || v[0] == '\n')
    ensures var l := LineComment(s);
            && LineComment(l.text + v) == Lexeme(Comment, l.text, if v == [] then |l.text| else |l.text| + 1)
            && |l.text| >= 2 && l.kind.Comment?
  {
    var n := 2 + SpanLine(s[2..]);
    CutDrop(s, n, 2, v);
    SpanLineCut(s[2..], v);
    assert (s[..n] + v)[..n] == s[..n];
  }

  lemma BlockCommentCut(s: string, v: string)
    requires |s| > 1 && (v == [] || BlockComment(s).len < |s|)
    ensures BlockComment(BlockComment(s).text + v) == BlockComment(s)
    ensures |BlockComment(s).text| >= 2
  {
    var n := BlockComment(s).len;
    CutDrop(s, n, 2, v);
    LexCutBlock(s[2..], v);
    assert (s[..n] + v)[..n] == s[..n];
  }

  lemma NumeralCut(s: string, n: nat, v: string)
    requires n <= |s| && (v == [] || v[0] == '\n')
    ensures Numeral(Numeral(s, n).text + v, n) == Numeral(s, n)
    ensures |Numeral(s, n).text| >= n
  {
    var len := Numeral(s, n).len;
    CutDrop(s, len, n, v);
    SpanNumberCut(s[n..], false, false, v);
    assert (s[..len] + v)[..len] == s[..len];
  }

  lemma WordLexemeCut(s: string, v: string)
    requires |s| > 0 && (v == [] || v[0] == '\n')
    ensures WordLexeme(WordLexeme(s).text + v) == WordLexeme(s)
  {
    hide ClassifyWord;
    var n := WordLexeme(s).len;
    CutDrop(s, n, 1, v);
    SpanWordCut(s[1..], v);
    assert (s[..n] + v)[..n] == s[..n];
  }

  predicate StartsLineComment(s: string) { |s| > 1 && s[0] == '-' && s[1] == '-' }

  lemma LineCommentsStart(s: string)
    requires |s| > 0
    ensures LineCommentText(Lex(s).kind, Lex(s).text) <==> StartsLineComment(s)
    ensures Lex(s).text == s[..|Lex(s).text|]
    ensures !StartsLineComment(s) ==> Lex(s).len == |Lex(s).text|
  {
    hide ClassifyWord;
    var l := Lex(s);
    assert l.text == s[..|l.text|];
    assert l.text[0] == s[0];
    if StartsLineComment(s) {
      assert l.text[..2] == "--";
    } else if |l.text| > 1 && l.text[..2] == "--" {
      assert l.text[..2][1] == '-';
    }
  }

  /** A token's text followed by nothing, or by a newline, lexes to that token. Only
      an unclosed string or comment needs the end of the text. */
  lemma LexCut(s: string, v: string)
    requires |s| > 0 && !Lex(s).kind.Whitespace?
    requires v == [] || (v[0] == '\n' && Lex(s).len < |s|)
    ensures var l, cut := Lex(s), Lex(s).text + v;
            Lex(cut) == Lexeme(l.kind, l.text, if StartsLineComment(s) && v != [] then |l.text| + 1 else |l.text|)
  {
    hide Quoted;
    hide LineComment;
    hide BlockComment;
    hide Numeral;
    hide WordLexeme;
    LineCommentsStart(s);
    var l, c := Lex(s), s[0];
    var n := |l.text|;
    var cut := l.text + v;
    assert cut[0] == c;
    assert cut[..1] == s[..1];
    assert n > 1 ==> cut[1] == s[1] && cut[..2] == s[..2];
    assert n == 1 && v != [] ==> cut[1] == '\n';
    if c == '\'' {
      QuotedCut(s, String, v);
    } else if c == '"' {
      QuotedCut(s, Identifier, v);
    } else if StartsLineComment(s) {
      LineCommentCut(s, v);
    } else if c == '-' && |s| > 1 && IsDigit(s[1]) {
      NumeralCut(s, 2, v);
    } else if c == '/' && |s| > 1 && s[1] == '*' {
      BlockCommentCut(s, v);
    } else if IsDigit(c) {
      NumeralCut(s, 1, v);
    } else if IsLetter(c) || c == '_' {
      WordLexemeCut(s, v);
    }
  }

  lemma LexCutBlock(s: string, v: string)
    requires v == [] || ScanBlock(s).closed
    ensures ScanBlock(s[..ScanBlock(s).len] + v) == ScanBlock(s)
  {
    var n := ScanBlock(s).len;
    if ScanBlock(s).closed {
      ScanBlockCut(s);
      ScanBlockExtends(s[..n], v);
    } else {
      assert s[..n] + v == s;
    }
  }

  lemma {:induction false} ScanBlockCut(s: string)
    requires ScanBlock(s).closed
    ensures ScanBlock(s[..ScanBlock(s).len]) == ScanBlock(s)
  {
    var n := ScanBlock(s).len;
    if !(s[0] == '*' && |s| > 1 && s[1] == '/') {
      ScanBlockCut(s[1..]);
      assert s[..n][1..] == s[1..][..n - 1];
    }
  }

  // ---------------------------------------------------------------- the round trip

  /** The text of `w` alone is lexed as `w`. */
  predicate Reprints(w: Word) {
    && |w.text| > 0 && !w.kind.Whitespace?
    && Lex(w.text) == Lexeme(w.kind, w.text, |w.text|)
  }

  /** The text of `w` followed by a newline is lexed as `w`, whatever comes next. */
  ghost predicate Separates(w: Word) {
    forall u: string :: LexesBefore(w, u)
  }

  predicate LexesBefore(w: Word, u: string) {
    Lex(w.text + "\n" + u) ==
    Lexeme(w.kind, w.text, if LineCommentText(w.kind, w.text) then |w.text| + 1 else |w.text|)
  }

  /** Each word of a text can be printed on its own line. */
  ghost predicate Printable(ws: seq<Word>) {
    && (forall k | 0 <= k < |ws| :: Reprints(ws[k]))
    && (forall k | 0 <= k < |ws| - 1 :: Separates(ws[k]))
  }

  lemma {:induction false} WordsArePrintable(s: string)
    ensures Printable(Words(s))
    decreases |s|
  {
    hide Lex;
    if s != [] {
      var l := Lex(s);
      WordsArePrintable(s[l.len..]);
      if !l.kind.Whitespace? {
        var w := Word(l.kind, l.text);
        LineCommentsStart(s);
        LexCut(s, "");
        assert l.text + "" == l.text;
        if l.len < |s| {
          forall u: string ensures LexesBefore(w, u) {
            LexCut(s, "\n" + u);
            assert l.text + "\n" + u == l.text + ("\n" + u);
          }
        }
        assert forall k | 0 < k < |Words(s)| :: Words(s)[k] == Words(s[l.len..])[k - 1];
      }
    }
  }

  /** No word starts with a whitespace character, except right after a line comment
      (whose newline is consumed by the comment) or at the very start. */
  predicate NoHiddenWhite(ws: seq<Word>) {
    forall k | 1 <= k < |ws| && |ws[k].text| > 0 && IsWhite(ws[k].text[0]) ::
      LineCommentText(ws[k - 1].kind, ws[k - 1].text)
  }

  lemma WordsStep(s: string, w: Word, len: nat)
    requires |s| > 0 && !w.kind.Whitespace? && Lex(s) == Lexeme(w.kind, w.text, len)
    ensures len <= |s| && Words(s) == [w] + Words(s[len..])
  {
    hide Lex;
  }

  lemma SeparatorLexes(w: Word, u: string)
    requires Separates(w)
    ensures Lex(w.text + "\n" + u) ==
            Lexeme(w.kind, w.text, if LineCommentText(w.kind, w.text) then |w.text| + 1 else |w.text|)
  {
    hide Lex;
    assert LexesBefore(w, u);
  }

  /** What the lexer sees after the first printed word. */
  lemma {:induction false} PrintedTail(ws: seq<Word>)
    requires Printable(ws) && |ws| > 1
    ensures var p := Printed(ws[1..]);
            Words(Printed(ws)) ==
            [ws[0]] + Words(if LineCommentText(ws[0].kind, ws[0].text) then p else "\n" + p)
  {
    hide Lex;
    hide Words;
    hide LexesBefore;
    hide Separates;
    var p, w := Printed(ws[1..]), ws[0];
    var n := |w.text|;
    var t := w.text + "\n" + p;
    SeparatorLexes(w, p);
    assert Reprints(w);
    hide Reprints;
    hide LineCommentText;
    WordsStep(t, w, if LineCommentText(w.kind, w.text) then n + 1 else n);
    AfterNewline(w.text, p);
  }

  lemma AfterNewline(a: string, p: string)
    ensures (a + "\n" + p)[|a|..] == "\n" + p
    ensures (a + "\n" + p)[|a| + 1..] == p
  {
  }

  lemma PrintedStart(ws: seq<Word>)
    requires Printable(ws) && ws != []
    ensures |Printed(ws)| > 0 && Printed(ws)[0] == ws[0].text[0]
  {
    assert Reprints(ws[0]);
  }

  lemma WordsSkipNewline(p: string)
    ensures Words("\n" + p) == Words(p[SpanWhite(p)..])
  {
    hide ClassifyWord;
    var s := "\n" + p;
    assert s[1..] == p;
    assert s[1 + SpanWhite(p)..] == p[SpanWhite(p)..];
  }

  lemma {:induction false} SpanWhiteStops(s: string)
    ensures SpanWhite(s) < |s| ==> !IsWhite(s[SpanWhite(s)])
  {
    if s != [] && IsWhite(s[0]) {
      SpanWhiteStops(s[1..]);
    }
  }

  /** Printing one word per line and lexing again gives the same words exactly when
      no word hides a whitespace character behind a newline. */
  lemma {:induction false} PrintedWordsLexBack(ws: seq<Word>)
    requires Printable(ws)
    ensures Words(Printed(ws)) == ws <==> NoHiddenWhite(ws)
  {
    hide Lex;
    if |ws| == 1 {
      assert Reprints(ws[0]);
      assert Printed(ws)[|ws[0].text|..] == [];
    } else if |ws| > 1 {
      var rest := ws[1..];
      var p := Printed(rest);
      PrintedTail(ws);
      PrintedStart(rest);
      assert Printable(rest) by {
        assert forall k | 0 <= k < |rest| :: rest[k] == ws[k + 1];
      }
      PrintedWordsLexBack(rest);
      assert NoHiddenWhite(ws) <==>
             NoHiddenWhite(rest) && (IsWhite(rest[0].text[0]) ==> LineCommentText(ws[0].kind, ws[0].text)) by {
        HiddenWhiteSplits(ws);
      }
      if !LineCommentText(ws[0].kind, ws[0].text) {
        WordsSkipNewline(p);
        if IsWhite(p[0]) {
          SpanWhiteStops(p);
          var tail := p[SpanWhite(p)..];
          FirstWordStarts(tail);
          assert Words(tail) != rest;
        } else {
          assert p[0..] == p;
        }
      }
      assert Words(Printed(ws)) == ws <==>
             Words(Printed(ws))[1..] == rest;
    }
  }

  lemma HiddenWhiteSplits(ws: seq<Word>)
    requires Printable(ws) && |ws| > 1
    ensures NoHiddenWhite(ws) <==>
            && NoHiddenWhite(ws[1..])
            && (IsWhite(ws[1].text[0]) ==> LineCommentText(ws[0].kind, ws[0].text))
  {
    hide ClassifyWord;
    var rest := ws[1..];
    assert Reprints(ws[1]);
    assert forall k | 0 <= k < |rest| :: rest[k] == ws[k + 1];
    if NoHiddenWhite(rest) && (IsWhite(ws[1].text[0]) ==> LineCommentText(ws[0].kind, ws[0].text)) {
      forall k | 1 <= k < |ws| && |ws[k].text| > 0 && IsWhite(ws[k].text[0])
        ensures LineCommentText(ws[k - 1].kind, ws[k - 1].text)
      {
        if k > 1 {
          assert rest[k - 1] == ws[k] && rest[k - 2] == ws[k - 1];
        }
      }
    }
    if NoHiddenWhite(ws) {
      forall k | 1 <= k < |rest| && |rest[k].text| > 0 && IsWhite(rest[k].text[0])
        ensures LineCommentText(rest[k - 1].kind, rest[k - 1].text)
      {
        assert ws[k + 1] == rest[k] && ws[k] == rest[k - 1];
      }
    }
  }

  lemma VisibleIsNotWhitespace(s: string)
    requires |s| > 0 && !IsWhite(s[0])
    ensures !Lex(s).kind.Whitespace?
  {
    hide Classify;
    hide SpanWord;
    hide SpanLine;
    hide SpanNumber;
    hide ScanQuoted;
    hide ScanBlock;
  }

  /** A text that does not start with whitespace gives its first character to its
      first word. */
  lemma {:induction false} FirstWordStarts(s: string)
    requires s == [] || !IsWhite(s[0])
    ensures Words(s) != [] ==> |Words(s)[0].text| > 0 && !IsWhite(Words(s)[0].text[0])
  {
    hide Lex;
    hide IsWhite;
    if s != [] {
      VisibleIsNotWhitespace(s);
      LineCommentsStart(s);
      assert Lex(s).text[0] == s[0];
    }
  }

  /** Kind and text of what the tokenizer gives back for `s`. */
  function Tokenized(s: string): seq<Word> { WordsOf(Significant(TokensFrom(s, 0))) }

  /** Printer/parser round trip for every text. */
  lemma RoundTrip(s: string)
    ensures Tokenized(Printed(Tokenized(s))) == Tokenized(s) <==> NoHiddenWhite(Tokenized(s))
  {
    hide Tokenized;
    hide Printed;
    TokenizedIsWords(s);
    TokenizedIsWords(Printed(Words(s)));
    WordsArePrintable(s);
    PrintedWordsLexBack(Words(s));
  }

  lemma TokenizedIsWords(s: string)
    ensures Tokenized(s) == Words(s)
  {
    WordsAreTokens(s, 0);
  }

  /** The only whitespace is blank, tab, newline and carriage return. */
  predicate PlainWhitespace(s: string) {
    forall i | 0 <= i < |s| :: IsWhite(s[i]) ==> IsBlank(s[i])
  }

  lemma {:induction false} PlainWordsStartVisibly(s: string, k: nat)
    requires PlainWhitespace(s) && k < |Words(s)|
    ensures |Words(s)[k].text| > 0 && !IsWhite(Words(s)[k].text[0])
    decreases |s|
  {
    hide ClassifyWord;
    var l := Lex(s);
    if l.kind.Whitespace? {
      PlainWordsStartVisibly(s[l.len..], k);
    } else if k > 0 {
      PlainWordsStartVisibly(s[l.len..], k - 1);
    } else {
      assert l.text[0] == s[0];
    }
  }

  /** With plain whitespace the round trip always succeeds. */
  lemma PlainTextRoundTrips(s: string)
    requires PlainWhitespace(s)
    ensures Tokenized(Printed(Tokenized(s))) == Tokenized(s)
  {
    hide Lex;
    hide Words;
    hide Printed;
    hide Tokenized;
    RoundTrip(s);
    TokenizedIsWords(s);
    forall k | 1 <= k < |Words(s)|
      ensures |Words(s)[k].text| > 0 && !IsWhite(Words(s)[k].text[0])
    {
      PlainWordsStartVisibly(s, k);
    }
  }

  /** A vertical tab is a token of its own but vanishes inside a whitespace run. */
  lemma VerticalTabDoesNotRoundTrip()
    ensures var s := ";\U{000B}"; Tokenized(Printed(Tokenized(s))) != Tokenized(s)
  {
    hide ClassifyWord;
    hide Tokenized;
    var s := ";\U{000B}";
    assert Lex(s) == Lexeme(Semicolon, ";", 1);
    assert s[1..] == "\U{000B}";
    assert Lex(s[1..]) == Lexeme(Partial, "\U{000B}", 1);
    assert s[1..][1..] == [];
    assert Words(s[1..]) == [Word(Partial, "\U{000B}")];
    assert Words(s) == [Word(Semicolon, ";"), Word(Partial, "\U{000B}")];
    TokenizedIsWords(s);
    RoundTrip(s);
  }
}
