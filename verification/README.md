# Fenrir in Dafny

A Dafny model of the stateful and arithmetic cores of the Fenrir host, with proofs about
every input, every run and every interleaving. `dafny verify dfyconfig.toml` checks all of it.
Where the source updates things in place the model has classes and loops, each proved
against a pure function; the laws are then proved about that function.

| files | what they model |
|---|---|
| `TokenStore.dfy` | the service token store, one call at a time |
| `TokenProtocol.dfy` | the same store with threads interleaving at every lock and atomic step |
| `SqlLexer.dfy`, `SqlTokenizer.dfy`, `SqlLexerLaws.dfy`, `SqlTokens.dfy`, `SqlBytes.dfy` | the SQL tokenizer |
| `SqlContext.dfy`, `SqlContextLaws.dfy`, `SqlMachine.dfy`, `SqlScope.dfy` | the statement/clause state machine |
| `Versions.dfy`, `Decimal.dfy`, `Orders.dfy` | module versions with build numbers |
| `EditDistance.dfy`, `CommandSuggestions.dfy` | "did you mean" |
| `DbConnector.dfy` | preamble sniffing and framing of the DB connector |
| `RateLimit.dfy` | the gateway and token-exchange rate limiters |
| `PublicStatus.dfy`, `StatusHistory.dfy` | component levels and incidents |
| `AuditLog.dfy`, `AuditWrites.dfy` | the bounded, persisted audit log, and its writes from several threads |
| `Cidr.dfy` | address blocks |
| `Redact.dfy`, `RedactLaws.dfy`, `RedactParams.dfy` | redaction of connection strings |
| `Chars.dfy`, `Wrappers.dfy` | shared small definitions |

## Main results

- **Tokens under concurrency.** Every interleaving of issue, validate, refresh-validate, revoke
  and sweep is a sequential history of a single-lock store: each call takes effect at exactly one
  step between its start and its return, with the answer the single-lock store gives there. The
  fast path, whose load and touch are separate steps under the read lock, takes effect at the touch.
- **Tokens over time.** Sweeping at any set of calls is unobservable, and a validation is
  accepted, refused as expired, refused as idle or not found as the times in the history of calls say.
- **SQL text.** Tokens tile the text; one word per line lexes back to the same words exactly
  when no word hides a whitespace character behind a newline; after a semicolon, context and tokens
  are those of the rest of the text alone. Statement, clause and subquery are read off the tokens:
  each is what its last effective keyword says. So are the tables and aliases in scope and what is expected
  next; in a text the spelling of the words alone decides.
- **Versions.** The release order is a total order that agrees with equality, and every
  untagged comparator accepts exactly an interval of releases, so requirements have no gaps; a tagged
  one has gaps exactly for the operators, cores and tags that `Skips` lists.
- **Edit distance.** The matrix holds the length of a shortest edit script, and it is a metric.
- **Connector, limiters, status, audit, blocks, redaction.** Independence of read chunking,
  bounds over any span of windows, cache and incident invariants over every run, a log equal to a
  filter of the full history across restarts, blocks as intervals, idempotent redaction that does not
  depend on the userinfo password, and exactly when and how far a query password shows.

## Where the code differs from its description

- A strict refusal removes the token, so it also ends the refresh grace (`GoneUntilReissued`);
  `StrictRefusalEndsGrace` gives such a run for every configuration with a grace.
- `append` writes the audit file every time: the condition `should_flush || snapshot_to_persist.is_none()`
  is always true, so the persist interval has no effect (`InMemoryAuditLog.Append`, for every interval).
- "It never redacts less" fails for `password=` query values in two ways, both only if no `@` follows the
  parameter. A value with an `@` behind an earlier colon that no other password parameter covers keeps what
  follows its last `@` (`pg://u:p@h/d?password=a@b` becomes `pg://u:***@b`). A value without one shows in full
  when the userinfo step takes the question mark away (`pg://h:1?e=a@b&password=s` becomes `pg://h:***@b&password=s`). `QueryPasswordHiddenIff` gives the exact
  condition for every place and value, `QueryPasswordOutcome` the exact output.
- `>`, `>=`, `~` and `^` with `X.Y.Z-n` accept tagged versions of X.Y.Z that the release order puts before
  X.Y.Z-n (`TaggedVersionUnderBuildFloor`; `AcceptedBelowFloorIff` for whole requirements).
- A comment between `ORDER` and `BY`, an opening parenthesis and `SELECT`, or a table and its alias hides the
  second from the first; `CommentShowsIff` says exactly when that shows. A comment at the end of the text
  takes back what a comma, a dot, `=` or a logical keyword before it asks for (`CommentsAreTransparent`,
  `TrailingCommentHidesComma`).
- The audit file is written outside the lock, so with two appends at once it can end up behind the log
  (`StaleFile`); `FileIsLastWritten` says what it holds in every interleaving, `FileIsLogIff` when that is the log.
- A component that is bad when the tracker is seeded has no incident until it recovers once;
  `OpenIffTurnedBad` says exactly when an incident is open.
- Vertical tab, form feed and other whitespace beyond blank, tab, newline and carriage return
  start a `Partial` token but vanish inside a whitespace run; `RoundTrip` gives the exact condition.

## Model

| member | source | states |
|---|---|---|
| ServiceTokens.ServiceTokenStore.constructor | src/security/service_tokens.rs:152-167 | a new store is empty and first sweeps after one interval |
| ServiceTokens.ServiceTokenStore.Issue | src/security/service_tokens.rs:169-191 | stores the claims with their expiry and the issue as last activity |
| ServiceTokens.ServiceTokenStore.Revoke | src/security/service_tokens.rs:215-222 | removes the token and nothing else |
| ServiceTokens.ServiceTokenStore.CleanupIfNeeded | src/security/service_tokens.rs:294-324 | sweeps exactly when due, keeps what survives the grace, and sets the next due time with saturation |
| ServiceTokens.ServiceTokenStore.ValidateWith | src/security/service_tokens.rs:248-266 | the read-then-recheck validation is one decision of the single-lock store |
| ServiceTokens.ServiceTokenStore.Recheck | src/security/service_tokens.rs:267-290 | the second look decides afresh: touch, or remove with the matching error (`AnswerFromHistory` says which) |
| ServiceTokens.SweepingIsUnobservable | src/security/service_tokens.rs:238-324 | in every run with a non-decreasing clock, whichever calls sweep, the same validations are accepted with the same claims; a refusal may only turn into "not found" |
| ServiceTokens.AcceptedIffHistoryAdmits | src/security/service_tokens.rs:169-290 | a validation is accepted iff the token was issued, not revoked or refused since, is before issue + lifetime (+ grace), and was last used at most idle (+ grace) ago; it returns that issue's claims |
| ServiceTokens.AnswerFromHistory | src/security/service_tokens.rs:238-324 | the exact answer for a live token, by times alone: not found iff a sweep after its last use found it past every grace, else expired iff from issue + lifetime (+ grace) on, else idle iff last used more than idle (+ grace) ago, else the claims of the issue |
| ServiceTokens.UnknownWithoutIssue | src/security/service_tokens.rs:255-275 | without a live issue the answer is "not found" |
| ServiceTokens.TrailIsTheHistory | src/security/service_tokens.rs:169-290 | the live issue and last use are unique and are what the quantified history says |
| ServiceTokens.LastActivityIsLatestUse | src/security/service_tokens.rs:118-123 | last activity is the largest of the times of the issue and its accepted validations |
| ServiceTokens.GoneUntilReissued | src/security/service_tokens.rs:267-288 | after a revocation or refusal a token is "not found" until it is issued again, grace or not |
| ServiceTokens.StrictRefusalEndsGrace | src/security/service_tokens.rs:200-288 | whatever the configuration, with a grace there is a run where a refresh alone is accepted and after a strict refusal "not found" |
| TokenProtocol.StepKeepsInv | src/security/service_tokens.rs:248-324 | every step keeps the lock's books, writer exclusion, and the entry behind a pending touch |
| TokenProtocol.StepRefinesAtomicStore | src/security/service_tokens.rs:255-290 | every step leaves the tokens alone or is one whole single-lock operation with the same answer |
| TokenProtocol.RunsAreLinearizable | src/security/service_tokens.rs:200-290 | the effects of any interleaving replay on the single-lock store with the same tokens and answers |
| TokenProtocol.CallTakesEffectOnce | src/security/service_tokens.rs:200-290 | a call takes effect at exactly one step after its start, and returns the answer of that step |
| TokenProtocol.ReturnedAnswerIsAtomic | src/security/service_tokens.rs:200-290 | every returned answer is the single-lock store's at a step between start and return |
| TokenProtocol.AcceptedClaimsAreCurrent | src/security/service_tokens.rs:238-265 | in every interleaving no accepted claims were past expiry (plus grace) when the call read the clock |
| TokenProtocol.NoValidationAfterRevoke | src/security/service_tokens.rs:193-222 | a validation that starts after revoke returned gets "not found", unless the string is issued again |
| TokenProtocol.NextCleanupNeverDecreases | src/security/service_tokens.rs:294-309 | the due time never decreases in any interleaving of load and compare-exchange |
| TokenProtocol.WinnersAreAnIntervalApart | src/security/service_tokens.rs:292-309 | the stamps of two winning sweeps are an interval apart, up to 64-bit saturation |
| TokenProtocol.SomeThreadCanStep | src/security/service_tokens.rs:255-324 | in every reachable state with a call under way some thread can take a step: the locks never deadlock |
| TokenProtocol.ValidTokenNeedsOnlyReadLock | src/security/service_tokens.rs:193-266 | while no writer holds the lock, a valid token is accepted in four steps of its own thread, whatever readers hold it |
| SqlTokenizer.Tokenizer.NextToken | src/cli/sql_completion/tokenizer.rs:157-206 | reads exactly the token the scan of the text ahead defines and stops behind it; nothing at the end |
| SqlTokenizer.Tokenizer.ReadWhitespace | src/cli/sql_completion/tokenizer.rs:208-223 | takes the whole whitespace run |
| SqlTokenizer.Tokenizer.ReadString | src/cli/sql_completion/tokenizer.rs:225-256 | ends at the first quote that is not doubled; unclosed is partial |
| SqlTokenizer.Tokenizer.ReadQuotedIdentifier | src/cli/sql_completion/tokenizer.rs:258-288 | likewise for double quotes, as an identifier |
| SqlTokenizer.Tokenizer.ReadMinusOrComment | src/cli/sql_completion/tokenizer.rs:290-319 | line comment, negative number or minus, by the next character |
| SqlTokenizer.Tokenizer.ReadLineComment | src/cli/sql_completion/tokenizer.rs:292-307 | the text stops before the newline, the cursor behind it |
| SqlTokenizer.Tokenizer.ReadSlashOrComment | src/cli/sql_completion/tokenizer.rs:321-354 | block comment to the first end mark, partial if unclosed, or a slash |
| SqlTokenizer.Tokenizer.ReadOperator | src/cli/sql_completion/tokenizer.rs:356-414 | takes two characters exactly when the second completes an operator |
| SqlTokenizer.Tokenizer.ReadNumber | src/cli/sql_completion/tokenizer.rs:416-419 | a number from its first digit |
| SqlTokenizer.Tokenizer.ReadNumberContinuing | src/cli/sql_completion/tokenizer.rs:421-463 | one dot before an exponent, one exponent with an optional sign |
| SqlTokenizer.Tokenizer.ReadIdentifier | src/cli/sql_completion/tokenizer.rs:465-482 | the longest word, with the kind `KeywordLexes` and `IdentifierIff` give it |
| SqlTokens.KeywordLexes | src/cli/sql_completion/tokenizer.rs:465-530 | every spelling of each word the state machine acts on, before anything that does not go on with the word, is read whole as a keyword of the kind the machine expects |
| SqlTokens.CaseDoesNotMatter | src/cli/sql_completion/tokenizer.rs:484-530 | words that differ in case only have the same kind |
| SqlTokens.IdentifierIff | src/cli/sql_completion/tokenizer.rs:465-560 | a bare word is an identifier iff no table has it |
| SqlTokens.OtherKinds | src/cli/sql_completion/tokenizer.rs:484-560 | sample words of the other kinds, also of words in two tables |
| SqlTokens.QuotedLexes | src/cli/sql_completion/tokenizer.rs:225-288 | any text with its quotes doubled and quotes around it is one string or identifier; without the closing quote it is partial |
| SqlTokens.LineCommentLexes | src/cli/sql_completion/tokenizer.rs:290-307 | two dashes start a comment up to the end of the line, newline consumed |
| SqlTokens.BlockCommentLexes | src/cli/sql_completion/tokenizer.rs:321-354 | a block comment ends at its first end mark, else it is partial |
| SqlTokens.NumberLexes | src/cli/sql_completion/tokenizer.rs:308-463 | digits with at most one fraction and then at most one exponent are one number, a minus before a digit included |
| SqlTokens.OperatorLexes | src/cli/sql_completion/tokenizer.rs:184-414 | which operators take two characters, and when minus and slash are operators |
| SqlTokens.PunctuationLexes | src/cli/sql_completion/tokenizer.rs:165-171 | each punctuation character is its own token |
| SqlTokens.WhitespaceLexes | src/cli/sql_completion/tokenizer.rs:163-223 | a blank takes the whole whitespace run |
| SqlTokens.UnknownLexes | src/cli/sql_completion/tokenizer.rs:198-204 | every other character is partial |
| SqlTokenizer.Tokenize | src/cli/sql_completion/tokenizer.rs:129-142 | the tokens of the text without whitespace |
| SqlTokenizer.TokenizeWithWhitespace | src/cli/sql_completion/tokenizer.rs:144-155 | all tokens, and they tile the text |
| SqlLexerLaws.TokensTile | src/cli/sql_completion/tokenizer.rs:144-482 | in characters: no gap, no overlap, each text equals its slice except a line comment's newline |
| SqlBytes.ByteRangesTileIff | src/cli/sql_completion/tokenizer.rs:157-206 | in UTF-8 bytes, where an unknown character always counts as one: the ranges tile the text iff every unknown character is a single byte |
| SqlLexerLaws.LexExtends | src/cli/sql_completion/tokenizer.rs:157-482 | a token that ends before the end of the text does not depend on what follows |
| SqlLexerLaws.SemicolonSplitsTokens | src/cli/sql_completion/tokenizer.rs:157-206 | if `p` lexes with a final semicolon, the tokens of `p` then `q` are those of `p` and the shifted tokens of `q` |
| SqlLexerLaws.LexCut | src/cli/sql_completion/tokenizer.rs:208-482 | a token's own text, alone or before a newline, lexes to that token |
| SqlLexerLaws.PrintedWordsLexBack | src/cli/sql_completion/tokenizer.rs:130-482 | printable words, one per line, lex back iff none hides whitespace behind a newline |
| SqlLexerLaws.RoundTrip | src/cli/sql_completion/tokenizer.rs:130-482 | for every text, printing the tokens and tokenizing again gives the same kinds and texts iff no word after the first starts with whitespace (except behind a line comment) |
| SqlLexerLaws.PlainTextRoundTrips | src/cli/sql_completion/tokenizer.rs:130-482 | with blank, tab, newline and carriage return as only whitespace the round trip always succeeds |
| SqlLexerLaws.VerticalTabDoesNotRoundTrip | src/cli/sql_completion/tokenizer.rs:163-223 | a concrete text that does not round trip |
| SqlContext.Context.Analyze | src/cli/sql_completion/context.rs:65-112 | the token loop is the fold whose every field the laws below pin for all token lists |
| SqlContext.Context.ResetForNewStatement | src/cli/sql_completion/context.rs:114-124 | a semicolon restores the fresh context, every field |
| SqlContext.Context.ProcessToken | src/cli/sql_completion/context.rs:126-148 | dispatch on the token's kind |
| SqlContext.Context.ProcessIdentifier | src/cli/sql_completion/context.rs:256-328 | one identifier of the fold: tables, aliases and expectations, which the next laws pin |
| SqlScope.TablesAreNamed | src/cli/sql_completion/context.rs:256-305 | for every token list the tables are exactly the identifiers since the last semicolon that stand where `FROM`, `JOIN` or `INTO` was opened last or an `UPDATE` has opened none, in order |
| SqlScope.AliasIsLastGiven | src/cli/sql_completion/context.rs:269-288 | an alias stands for a table iff that table was last given it in this statement, with or without `AS` |
| SqlScope.RemembersLastTwo | src/cli/sql_completion/context.rs:76-78 | the look-back tokens are the last two of the statement |
| SqlScope.ExpectationIff | src/cli/sql_completion/context.rs:150-363 | for every token list what is expected, as an iff: a statement if none is under way, else what the last comma, `=`, logical word or dot makes of it, else what the last word or name asked for |
| SqlScope.TextClauseIsLastSpelled | src/cli/sql_completion/context.rs:58-254 | the clause of a text is the one its words opened last, by spelling in any case |
| SqlScope.TextExpectsBehindWord | src/cli/sql_completion/context.rs:58-363 | a text that ends in `WHERE`, `FROM`, `JOIN`, `SELECT`, `VALUES` and so on, in any case, expects exactly what that word asks for |
| SqlMachine.StatementIsLastKeyword | src/cli/sql_completion/context.rs:150-183 | the statement is named by the last statement keyword since the last semicolon, where a `SELECT` inside a subquery does not count |
| SqlMachine.SubqueryIff | src/cli/sql_completion/context.rs:80-98 | a subquery is under way iff some parenthesis was followed by `SELECT` and the depth has stayed positive since |
| SqlMachine.ClauseIsLastOpened | src/cli/sql_completion/context.rs:150-254 | the clause is the one opened last, for every token list; nothing but the listed keywords and semicolons opens one |
| SqlMachine.JoinOnNeedsJoin | src/cli/sql_completion/context.rs:185-254 | in a join condition there is a `JOIN` and then its `ON`, with no clause opened between or since |
| SqlMachine.ClauseFitsStatement | src/cli/sql_completion/context.rs:150-240 | for every token list clause InsertInto means an `INSERT` is under way and SetClause an `UPDATE` |
| SqlMachine.ExpectationFitsClause | src/cli/sql_completion/context.rs:150-363 | for every token list what is expected fits the clause and the statement |
| SqlMachine.ExpectsStatementIff | src/cli/sql_completion/context.rs:330-363 | a statement is expected iff none has begun and no subquery is under way |
| SqlMachine.TextExpectsStatementIff | src/cli/sql_completion/context.rs:58-363 | the same for every text |
| SqlMachine.CommentShowsIff | src/cli/sql_completion/context.rs:66-328 | inserting a comment changes the context before it iff it hides from a parenthesis, `ORDER`, `GROUP` or a table name something ahead that makes a difference there |
| SqlMachine.CommentsAreTransparent | src/cli/sql_completion/context.rs:66-363 | a comment that hides nothing changes nothing in the end but the tokens looked back on, and what is expected iff it is the last token and the one before it has a say |
| SqlMachine.TrailingCommentHidesComma | src/cli/sql_completion/context.rs:330-363 | behind a comma in the column list a comment turns the expected columns into a comma or `FROM` |
| SqlMachine.HiddenAliasIff | src/cli/sql_completion/context.rs:256-305 | an alias hidden by a comment is all that is missing at the end, and it is missing iff no later token binds the name again or ends the statement |
| SqlMachine.CommentSplitsOrderBy | src/cli/sql_completion/context.rs:185-240 | a comment between `ORDER` and `BY` hides the clause |
| SqlContextLaws.StatementsAreIndependent | src/cli/sql_completion/context.rs:66-124 | the context of A, semicolon, B is the context of B, for all token lists |
| SqlContextLaws.OnlyLastStatementMatters | src/cli/sql_completion/context.rs:66-124 | the context is that of the tokens after the last semicolon |
| SqlContextLaws.TextAfterSemicolonIsFresh | src/cli/sql_completion/context.rs:58-124 | on text: after a `p` that lexes with a final semicolon, the context is that of `q`, moved right |
| SqlContextLaws.ContextIsSound | src/cli/sql_completion/context.rs:66-124 | for every token list alias targets are tables in scope and a subquery is inside parentheses |
| SqlContextLaws.StepKeepsSound | src/cli/sql_completion/context.rs:256-305 | each token keeps that |
| SqlContextLaws.ParenDepthIsMaxSuffixBalance | src/cli/sql_completion/context.rs:80-124 | the clamped depth is the maximum, over all suffixes since the last semicolon, of opens minus closes |
| Decimal.CanonicalValuesDiffer | src/domain/module/version.rs:54-63 | decimal parsing is injective without leading zeros |
| Decimal.ValueIsPositional | src/domain/module/version.rs:54-63 | decimal text is positional, base ten |
| Decimal.DigitsAreTheirValue | src/domain/module/version.rs:54-63 | each digit stands for itself |
| Versions.ReleaseOrderChains | src/domain/module/version.rs:72-84 | the release order is antisymmetric and transitive |
| Versions.EqualSuffixesAreSame | src/domain/module/version.rs:54-84 | equal suffixes in the order are the same suffix |
| Versions.CompareVersionsIsTotalOrder | src/domain/module/version.rs:65-84 | a total order whose Equal is structural equality |
| Versions.BuildsOrderNumerically | src/domain/module/version.rs:47-84 | `X.Y.Z-n` has build n, builds compare as numbers, every tag comes before build 0 |
| Versions.TagsFollowSemver | src/domain/module/version.rs:82-82 | tags compare by item 11 of SemVer 2.0.0 after any common identifiers |
| Versions.TaggedVersionsFollowSemver | src/domain/module/version.rs:65-84 | two tagged versions of one core compare so under `compare_versions`, both ways |
| Versions.CoresDecideFirst | src/domain/module/version.rs:72-76 | major, then minor, then patch decide before any suffix |
| Versions.MetadataBreaksTies | src/domain/module/version.rs:65-70 | build metadata decides only between otherwise equal versions |
| Versions.BuildNumberIff | src/domain/module/version.rs:47-63 | the builds are the bare core and a single number from 1 up to 64 bits |
| Orders.TextOrderIsDictionary | src/domain/module/version.rs:82-82 | text order: the first different character decides, a prefix comes first |
| Versions.ComparatorIsRange | src/domain/module/version.rs:98-138 | an untagged comparator accepts exactly the releases between its bounds, for every operator |
| Versions.ComparatorHasNoGaps | src/domain/module/version.rs:98-138 | so it accepts everything between two accepted releases |
| Versions.AcceptedReleasesHaveNoGaps | src/domain/module/version.rs:86-138 | the same for every requirement without tags |
| Versions.TaggedComparatorAccepts | src/domain/module/version.rs:98-113 | a tagged comparator accepts exactly these cores, and builds of its own core only |
| Versions.TaggedComparatorHasGapIff | src/domain/module/version.rs:98-113 | its accepted releases have a gap iff its operator, core and tag make it skip |
| Versions.TaggedRequirementHasGap | src/domain/module/version.rs:110-113 | a concrete one with a gap |
| Versions.TaggedVersionUnderBuildFloor | src/domain/module/version.rs:86-96 | `>`, `>=`, `~` or `^` with X.Y.Z-n accepts a tagged version iff it is of core X.Y.Z with a tag behind n in semver; each of them is before X.Y.Z-n in the release order |
| Versions.AcceptedBelowFloorIff | src/domain/module/version.rs:86-96 | a whole requirement accepts a tagged version below one of its build floors iff such a floor names its core and all comparators match |
| EditDistance.Levenshtein | src/cli/commands/registry.rs:414-451 | the length of a shortest insert/delete/substitute script |
| EditDistance.FillMatrix | src/cli/commands/registry.rs:428-450 | every cell of the filled matrix holds the distance of its two prefixes |
| EditDistance.ScriptsAreNoShorter | src/cli/commands/registry.rs:437-448 | no edit script is shorter than the distance |
| EditDistance.ShortestScript | src/cli/commands/registry.rs:437-448 | some edit script is exactly that long |
| EditDistance.DistanceZeroIffEqual | src/cli/commands/registry.rs:414-451 | zero iff equal |
| EditDistance.DistanceIsSymmetric | src/cli/commands/registry.rs:414-451 | symmetric |
| EditDistance.TriangleInequality | src/cli/commands/registry.rs:414-451 | triangle inequality |
| CommandSuggestions.FindSimilar | src/cli/commands/registry.rs:365-411 | the three best-ranked similar commands |
| CommandSuggestions.Closest | src/cli/commands/registry.rs:371-399 | a command's score: prefix, name within 3, or the first alias within 2 |
| CommandSuggestions.ScoreIff | src/cli/commands/registry.rs:371-399 | the score as an iff over the literal limits: 0 if name and input start alike, the name's distance up to 3, else the first alias that starts alike or is within 2 |
| CommandSuggestions.CandidatesAreTheSimilar | src/cli/commands/registry.rs:370-400 | the candidates are exactly the commands with a score |
| CommandSuggestions.SuggestionsAreTheBest | src/cli/commands/registry.rs:402-410 | suggestions come by distance and then name, and a similar command is left out only if three precede it so |
| DbConnector.Connector.ProcessStream | src/infra/db/connector.rs:137-157 | for every read chunking: framed iff the bytes start with the preamble; otherwise the request is everything sent iff within the limit |
| DbConnector.Connector.Sniff | src/infra/db/connector.rs:141-153 | never reads past the preamble, and decides by the bytes alone |
| DbConnector.Connector.ProcessLegacy | src/infra/db/connector.rs:159-183 | one request, one answer, or a refusal when over the limit |
| DbConnector.Connector.ProcessFramed | src/infra/db/connector.rs:185-219 | answers exactly the complete in-limit frames in order and stops for the right reason |
| DbConnector.Connector.WriteFrame | src/infra/db/connector.rs:221-233 | length prefix and payload, or an error when the length does not fit |
| DbConnector.HeaderRoundTrip | src/infra/db/connector.rs:203-228 | the length prefix reads back |
| DbConnector.HeaderIsBigEndian | src/infra/db/connector.rs:203-228 | the prefix is the number whose first byte weighs most, read and written; below 256 it is three zero bytes and the length |
| DbConnector.ShortFrameParses | src/infra/db/connector.rs:189-218 | three zero bytes, a length and that many bytes are one request |
| DbConnector.WhyItStops | src/infra/db/connector.rs:189-212 | closed iff fewer than four bytes are left, refused iff the big-endian length is over the limit, cut short iff the body is |
| DbConnector.ParseRecoversFrames | src/infra/db/connector.rs:189-218 | any concatenation of in-limit frames parses to its bodies, in order |
| DbConnector.ParseIsExact | src/infra/db/connector.rs:189-218 | the input is the frames of its bodies plus a rest without a further frame |
| DbConnector.OneAnswerEach | src/infra/db/connector.rs:185-218 | the output is one answer frame per request, and then the refusal if a frame over the limit follows |
| DbConnector.ClientReadsItsAnswers | src/infra/db/connector.rs:185-233 | a client that takes the output apart finds exactly its answers |
| RateLimit.GatewayRateLimiter.TryAcquireWithLimit | src/infra/http/gateway.rs:52-71 | one step of the fixed-window machine, where a limit of zero admits and leaves no bucket |
| RateLimit.TokenExchange.CheckRateLimit | src/services/token_exchange.rs:127-143 | one step with limit 60 and an inclusive 30 s window |
| RateLimit.TokenExchange.ForceRefresh | src/services/token_exchange.rs:104-125 | a successful refresh restarts an existing bucket |
| RateLimit.RateIsBounded | src/infra/http/gateway.rs:52-71 | over any half-open span of n windows at most (n + 1 + restarts) limits are admitted per key under a limit; requests with limit zero, always admitted, do not change that |
| RateLimit.GatewayRateIsBounded | src/infra/http/gateway.rs:52-71 | at most (n + 1) * L admissions under limits from 1 to L; those with limit zero are not counted |
| RateLimit.ExchangeRateIsBounded | src/services/token_exchange.rs:104-143 | at most 60 * (n + 1 + r) with r forced refreshes in the span |
| RateLimit.RefusalsAreDeserved | src/infra/http/gateway.rs:62-68 | a call is refused only if as many admissions as its limit lie within the last window |
| RateLimit.RestartForgets | src/services/token_exchange.rs:119-123 | after a forced refresh a request is refused only if as many admissions as its limit lie between the two |
| PublicStatus.PublicStatusTracker.SeedLevelsFromSnapshot | src/services/public_status.rs:254-271 | service and component levels from the snapshot, incidents untouched |
| PublicStatus.PublicStatusTracker.ApplyTransition | src/services/public_status.rs:273-316 | open, update or resolve by the component's old and new level, and trim the resolved list |
| PublicStatus.PublicStatusTracker.TrimResolved | src/services/public_status.rs:311-313 | drops the oldest resolved incidents over the limit |
| PublicStatus.RecomputedIsMax | src/services/public_status.rs:318-333 | the recomputed level is the worst of the component's services |
| PublicStatus.CacheStaysRight | src/services/public_status.rs:254-292 | after any seed and events each cached level equals the recomputed one |
| StatusHistory.LevelFromReports | src/services/public_status.rs:238-343 | a component is down iff one of its services last failed or stopped, else degraded iff one is degraded or starting, else up iff one is active |
| StatusHistory.IncidentSays | src/services/public_status.rs:64-143 | the severity and title of an open incident, in words, from the current level |
| StatusHistory.IncidentIsFromItsStart | src/services/public_status.rs:133-298 | an open incident bears the number and time of the event that turned its component bad |
| StatusHistory.RecoveryResolves | src/services/public_status.rs:306-315 | a recovery closes the incident at the time of the event, in front of the older ones; nothing else touches the list |
| StatusHistory.IdsLookLike | src/services/public_status.rs:136-136 | ids are `inc-` and the number, zero-padded to six digits and no further |
| PublicStatus.IncidentsAlwaysFit | src/services/public_status.rs:294-315 | an open incident means an incident level and carries its severity and title; the resolved list is bounded |
| PublicStatus.OpenIffTurnedBad | src/services/public_status.rs:254-315 | an incident is open iff the component is bad and was not bad at some moment since the seed |
| PublicStatus.SeededBadHasNoIncident | src/services/public_status.rs:254-271 | a concrete seed with a bad level and no incident |
| PublicStatus.SequenceCountsIncidents | src/services/public_status.rs:294-315 | the sequence number is open incidents plus all resolutions, up to saturation |
| PublicStatus.IncidentIdsAreDistinct | src/services/public_status.rs:133-143 | all known incidents have different ids until 64 bits are exhausted |
| PublicStatus.IdsAreUnique | src/services/public_status.rs:136-136 | the padded id determines its number |
| AuditLog.InMemoryAuditLog.PruneRetention | src/audit/log.rs:59-75 | drops expired events from the front, then the oldest over capacity |
| AuditLog.InMemoryAuditLog.ShouldPersist | src/audit/persistence.rs:45-53 | due exactly when the interval has run out, which starts it again |
| AuditLog.InMemoryAuditLog.Append | src/audit/log.rs:79-102 | append and prune; the file gets the new log for every interval and every answer of `should_persist` |
| AuditLog.InMemoryAuditLog.Recent | src/audit/log.rs:104-111 | the newest events, newest first |
| AuditLog.InMemoryAuditLog.Drop | src/audit/log.rs:114-123 | the destructor persists the log |
| AuditLog.LoadPersistedEvents | src/audit/persistence.rs:99-129 | filter, stable sort by time, keep the newest |
| AuditLog.SortSorts | src/audit/persistence.rs:119-124 | loading orders any file by time and loses nothing |
| AuditLog.SortIsStableByTime | src/audit/persistence.rs:119-124 | the sort is stable, and by time from the epoch on |
| AuditLog.KeptByTimes | src/audit/log.rs:59-75 | what is kept is the longest end of the history with at most `capacity` events and none older than the retention |
| AuditLog.AppendedIsKept | src/audit/log.rs:59-102 | appending to the kept part of a history keeps the right part of the longer history |
| AuditLog.LoadingIsPruning | src/audit/persistence.rs:111-127 | loading a snapshot equals pruning it at the same instant |
| AuditLog.LogIsNewestHistory | src/audit/log.rs:59-102 | after any run with restarts the log is the newest `capacity` unexpired events of the full history |
| AuditLog.RestartsDoNotShow | src/audit/persistence.rs:99-129 | after every append the log equals that of the run without restarts |
| AuditWrites.FileIsLastWritten | src/audit/log.rs:79-102 | in every interleaving of appends the file is the log as the append of the last writer left it |
| AuditWrites.FileIsLog | src/audit/log.rs:79-102 | the file is the current log when the last write is that of the last append |
| AuditWrites.FileIsLogIff | src/audit/log.rs:79-102 | and, for events unexpired when appended and unlike the one written last, only then |
| AuditWrites.SequentialFileIsLog | src/audit/log.rs:79-102 | when one thread appends at a time the file is the log after every write |
| AuditWrites.LogIsKept | src/audit/log.rs:59-102 | in every interleaving the log is the newest unexpired part of all appends, in lock order |
| AuditWrites.CrashLosesOnlyOverlapping | src/audit/log.rs:79-102 | a crash at any point loses only appends still under way or overlapping the one written last; the loaded log is what is kept of all appends up to that one |
| AuditWrites.CleanRestartLosesNothing | src/audit/log.rs:114-123 | after the destructor's write the loaded log is what is kept of all appends |
| AuditWrites.StaleFile | src/audit/log.rs:79-102 | a concrete interleaving that leaves the file one event behind |
| Cidr.AcceptedIffAligned | src/config/edge.rs:152-202 | the parser accepts iff the prefix is in range and the address is a multiple of the block size |
| Cidr.RefusedBecause | src/config/edge.rs:155-178 | each of the three errors, as an iff |
| Cidr.CanonicalUnmapsIPv4 | src/config/edge.rs:128-165 | exactly the IPv4-mapped addresses become IPv4 addresses |
| Cidr.BlockIsInterval | src/config/edge.rs:127-150 | a block holds exactly the same-family addresses in [network, network + 2^(bits-prefix)), prefix 0 included |
| Cidr.BlocksNestOrAreDisjoint | src/config/edge.rs:127-202 | any two accepted blocks are nested or disjoint |
| Cidr.MaskIsHighOnes | src/config/edge.rs:183-201 | the checked shift gives the mask of the high bits, zero for prefix 0 |
| Cidr.AndHighOnes | src/config/edge.rs:183-201 | masking clears the low bits |
| Redact.PasswordDoesNotShow | src/utils/redact.rs:13-32 | for every scheme, user, tail and password the redacted URI does not depend on the password |
| RedactParams.QueryPasswordOutcome | src/utils/redact.rs:13-87 | the exact redacted URI for every place, spelling and value of a `password=` parameter behind the scheme |
| RedactParams.KeySpellings | src/utils/redact.rs:66-80 | the key is `password=` in any mix of cases and nothing else |
| RedactParams.QueryPasswordHiddenIff | src/utils/redact.rs:13-87 | the output is the same for all values of the same shape iff the place and value do not expose it: no `@` follows and the userinfo step cuts into the value from an uncovered colon before it, or cuts the question mark away |
| RedactParams.ExposedIff | src/utils/redact.rs:13-87 | something of the value shows iff exposed, and then all behind its last `@` (unless it has a query of its own) |
| RedactParams.ToldApartByExposed | src/utils/redact.rs:13-87 | two values of the same shape give the same output iff the same of them is exposed |
| RedactParams.EarlyPasswordIsMasked | src/utils/redact.rs:13-87 | a password parameter in front of the first separator is always masked |
| RedactParams.UserinfoExposesQueryPassword | src/utils/redact.rs:17-32 | a concrete URI with userinfo that shows part of its query password |
| RedactParams.EarlierParamExposesQueryPassword | src/utils/redact.rs:17-32 | a concrete URI that shows all of its query password |
| RedactLaws.UriIdempotent | src/utils/redact.rs:13-32 | redacting a URI twice is redacting it once |
| RedactLaws.ParamsIdempotent | src/utils/redact.rs:66-87 | the same for query parameters |
| RedactLaws.RedactUrisInText | src/utils/redact.rs:34-56 | the scanning loop redacts each whitespace-separated run |
| RedactLaws.PushToken | src/utils/redact.rs:58-64 | a run is redacted iff it contains `://` |
| RedactLaws.TextKeepsItsPieces | src/utils/redact.rs:34-64 | whitespace and runs without `://` stay in place, each other run is redacted on its own |
| RedactLaws.TextIdempotent | src/utils/redact.rs:34-64 | redacting a text twice is redacting it once |

## Assumptions

- Clock readings, random token strings, lower-casing, the service's answers and the outcome of a
  refresh are parameters. The token protocol assumes nothing about clocks; the sequential token theorems,
  the limiters and the audit log assume readings that do not decrease.
- The semver crate's comparator evaluation (`MatchesImpl`, `SemverMatches`, `SemverReqMatches`) is
  modelled from its documented behaviour. Build metadata is represented by its rank in its total order.
- The framed preamble (1 to 64 bytes) and the request limit come from another crate and are parameters.
- Seeds of the status tracker have distinct service ids, as the registry's map guarantees.

## Left out

- ServiceTokens.ServiceTokenStore.Issue: times before 1677 or after 2262, where the nanosecond stamp saturates, are not modelled.
- SqlTokenizer.Tokenizer.NextToken: positions count characters, which are bytes for ASCII; `SqlBytes` translates them.
- SqlLexerLaws.TokensTile: speaks of characters; the byte ranges of the source have a gap behind a non-ASCII unknown character (`ByteRangesTileIff`).
- SqlMachine.CommentShowsIff: exact at the comment; what later tokens make of a hidden `SELECT` or `BY` is not followed to the end, a hidden alias is (`HiddenAliasIff`).
- SqlContext.Context.Analyze: keyword text is upper-cased as ASCII, which is what the tokenizer's keywords are; 32-bit overflow of the depth is not modelled.
- AuditLog.InMemoryAuditLog.PruneRetention: a retention so long that the cutoff is not representable falls back to the epoch in the source; the model subtracts without that limit.
- DbConnector.Connector.ProcessStream: I/O errors and the idle and body timeouts are not modelled; JSON decoding and the service are one answer function of everything asked so far.
- AuditLog.RestartsDoNotShow: appends one at a time; `AuditWrites` covers several threads up to a crash or restart.
- Lock poisoning, failed file writes, a crash between an append and its write, and JSON encoding are not modelled.
- `recent_incidents` (a sort for display), the status tracker's subscription and its agreement with the live registry.
- Tagged versions apart from build floors: plain semver, the crate's. Version numbers are unbounded here.
- The suggestion lists of `engine.rs`, the rest of the command registry, client-address resolution behind `is_trusted_peer`, and `request_target`: table lookups, single branches or foreign decoders.
- Boot, transports, the HTTP layer, configuration loading, cryptography, sessions and the user interface.
