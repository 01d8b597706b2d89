# A verified model of sqlguard's lexer, scoping and runtime guard

sqlguard reads SQL text and reports risky queries. Three parts of it carry the weight, and this project models
and proves them in Dafny:

1. **The literal lexer** (`analyzer/redact.go`, `analyzer/fallback.go`, `analyzer/suppress.go`). Several passes
   read the same bytes: comments are stripped, literals blanked, literals redacted, and ignore directives found.
   All of them are proved against one lexer, `Lexing`, whose `Reading` says what each dialect disagrees about.
   Its theorem `Relex` says that rewritten chunks lex to themselves in any context. From it follow that
   stripping keeps meaning, that blanking is exact, and that neither redaction nor the fingerprint depends on what
   the redacted literals hold, on which numbers stand in the query or on how long its value lists are.
2. **Parenthesis scoping** (`analyzer/fallback.go`). One-pass stacks and counters are proved equal to a naive
   rescan and to a declarative notion of an enclosing parenthesis, on balanced and unbalanced text.
3. **The runtime guard** (`middleware/`). The cache, the deduper and the N+1 tracker each have a short exact
   specification over whole runs; the guard composes them, and the driver wrapper decides when a query counts.

The text is a sequence of bytes. A method is the source's loop or state change; the function in its `ensures` is
its specification, and the lemmas say what that function means. Times, windows and thresholds are integers of one
unit, and each call takes the clock readings it makes. Each locked section is one atomic step.

## Layout

| files | source |
|---|---|
| Bytes, Spelling, Sets, Wrappers | byte classes, folding, trimming, searching; words in any case; set sizes; results that may be missing |
| Lexing, Scanners, Tokens, Passes | the shared lexer, the scanning loops, and what the lexer cuts and each pass reads and writes, in bytes |
| Strip, Blank | comment stripping, literal blanking, statement separators |
| Queries, Separators | whole queries as a database reads them, and which of their separators are found |
| Spans, Numbers, Redact, ChunkWalk, Fold, FoldBytes | redaction and fingerprints |
| NonInterference, Interchange, ListLengths, Origins, Idempotence | what redaction depends on, where its output comes from, redacting twice |
| Steps, Inputs | texts, written out, that show why conditions are needed |
| Suppress, Directives | ignore directives |
| Parens, Unwrap, Regions, RowSource, RowWords, Scope | parenthesis scoping in the fallback parser |
| Analyzer | rules over one query |
| Cache, Lru, Dedup, DedupClock, Tracker, Guard, Reports, Driver | the runtime guard |

`dafny verify dfyconfig.toml` checks everything.

## Where the code differs from what one might expect

- Comments are stripped under a reading without escapes and without names in backticks, so stripping and the database
  can disagree about what is a comment. Redaction meets the query's own literals exactly when they agree
  (`Queries.ReadsTheQuery`), and then no byte of a literal is copied (`Origins.QueryProvenance`). When they do not
  agree a literal can stay in the output: `Inputs.MarkInName` and `Inputs.MarkBehindEscape` give a query each, and
  what a literal holds can decide how much is redacted: `Inputs.QuoteInName`. Names in which nothing opens a literal
  or a comment are harmless (`Queries.PlainNamesSuffice`).
- For the same reason IsMultiStatement can miss a separator: `Inputs.MissedBehindEscape`, `Inputs.MissedBehindName`.
  `Separators.NoneMissed` says when it misses none.
- Redaction is not always idempotent. `Idempotence.IdempotentExactly` says when it is, wherever the two backslash
  readings redact alike. There are two causes: a "?" takes the place of a number that kept a "$" behind it from
  opening a string (`Inputs.NumberCause`), and a quote kept in a name uncovers a comment mark once a literal is gone
  (`Inputs.BacktickCause`). Where nothing in a name opens a literal or a comment only the first one is left
  (`Idempotence.IdempotentWithPlainNames`). Where the readings differ a name can be redacted in part, which is a third
  cause (`Inputs.ReadingsCause`).
- Without a backslash the single pass covers the bytes the union of two passes would, but the span lists are
  equal only when no two redacted literals are neighbours: `Spans.FastPathExact` states exactly when, and
  `Spans.FastPathDiffers` gives a text where they are not.
- The deduper keeps the passes of a finding apart on exactly the clocks that, once the map can be full, never run past
  an entry's window and return into it: `DedupClock.SpacedExactly`. One reading that goes back is enough for a run
  that lets a finding through twice, whatever the capacity: `DedupClock.ClockMustNotGoBack`. The guard reads the
  clock before the deduper's lock (`middleware/guard.go:137`), so two callers can swap their readings. The tracker
  reads its clock under its lock (`middleware/n_plus_one.go:60`).
- The first execution of an epoch never reports, so a threshold of one acts like a threshold of two:
  `Tracker.TrackedExactly` says max(2, threshold).

## Model

| member | source | states |
|---|---|---|
| Scanners.ScanQuotedRunClosed | analyzer/redact.go:256-274 | where a quoted run ends and whether its own quote closed it: past the first quote that is neither doubled nor, if backslashes escape, escaped; at the end of the text otherwise |
| Scanners.ScanDollarQuoted | analyzer/redact.go:291-311 | a dollar quote opens exactly when no identifier byte stands before it and a tag that does not start with a digit follows; it ends past the next copy of its delimiter or with the text |
| Scanners.SkipLineComment | analyzer/fallback.go:767-772 | a line comment ends before the first newline, or with the text |
| Scanners.SkipBlockComment | analyzer/fallback.go:776-782 | a block comment ends past the first "*/" after its opening, or beyond the text when there is none |
| Tokens.RunExactly | analyzer/redact.go:245-274 | in bytes: a run ends there, closed or not, exactly when whole units stand before (another byte, the quote twice, an escaped byte) and a quote that is not doubled, or the end, stands there |
| Tokens.TagExactly | analyzer/redact.go:276-301 | in bytes, which text is a delimiter: "$", a tag of "_", letters, digits and bytes that are not ASCII, which does not start with a digit, "$" |
| Tokens.QuotedExactly | analyzer/redact.go:186-218 | which byte opens a quoted run under a reading, and that it ends as Tokens.RunExactly says |
| Tokens.DollarExactly | analyzer/redact.go:283-311 | a dollar quote opens exactly at a delimiter with no byte of a name before it, and ends past the next copy of that delimiter or open at the end |
| Tokens.LineExactly | analyzer/fallback.go:715-725 | which bytes open a line comment under a reading, and that it ends before the first byte 10 or with the text |
| Tokens.BlockExactly | analyzer/fallback.go:774-782 | a block comment opens exactly at "/*" and ends past the first "*/" behind these two bytes, or open at the end |
| Passes.RedactionReads | analyzer/redact.go:186-218 | in bytes, what opens and ends where redaction looks for literals: three quotes, of which "'" and, but under Postgres, the double one have escapes in one reading, and dollar quotes; no comments |
| Passes.StrippingReads | analyzer/fallback.go:707-740 | the same for comment stripping: two quotes without escapes, dollar quotes, "--" and "/*"; no backticks and no "#" |
| Passes.BlankingReads | analyzer/fallback.go:809-831 | the same for blanking: two quotes without escapes, dollar quotes if told to, and, if told to, a backtick with another one behind it |
| Passes.SuppressionReads | analyzer/suppress.go:80-111 | the same for the search for directives, for each of its four flags |
| Passes.QueryReads | analyzer/redact.go:186-218 | the same for a whole query under one backslash reading: what redaction looks for, and the two comments that stripping does |
| Passes.StrippingWrites | analyzer/fallback.go:707-740 | a comment becomes one byte 32 and every other chunk stays as it is |
| Passes.BlankingWrites | analyzer/fallback.go:809-856 | a quoted run becomes its two quotes, with an x between backticks, a dollar quote its delimiter twice, and every other byte stays as it is |
| Lexing.Relex | analyzer/fallback.go:703-782 | rewriting the chunks of a text (literals into complete literals with the same opening, comments into a space) and lexing the result gives exactly the rewritten chunks, for every reading and every surrounding text |
| Strip.StripComments | analyzer/fallback.go:707-740 | the loop returns the text of the chunks with each comment turned into one space |
| Strip.CopyStringLiteral | analyzer/fallback.go:746-763 | appends the literal byte for byte and stops just past it |
| Strip.StripLexes | analyzer/fallback.go:703-740 | the stripped text lexes to the chunks of the original with a space for each comment: same literals, same plain bytes, same order |
| Strip.StripLeavesNoComment | analyzer/fallback.go:703-740 | no comment opens outside a literal of the stripped text |
| Strip.StripKeepsLiterals | analyzer/fallback.go:703-763 | the literals before and after are equal, byte for byte and in order |
| Strip.StripShrinks | analyzer/fallback.go:707-740 | the result is never longer, and equals its input exactly when that has no comment |
| Strip.StripIdempotent | analyzer/fallback.go:707-740 | stripping twice is stripping once |
| Blank.BlankQuoted | analyzer/fallback.go:809-831 | the loop returns the text with each literal replaced by its emptied form, under each of the four flag combinations |
| Blank.BlankQuotedRun | analyzer/fallback.go:836-856 | appends the two quotes of the run (with an x between backticks) and stops just past it |
| Blank.BlankLexes | analyzer/fallback.go:785-856 | the blanked text lexes to the same plain bytes in the same places and to the emptied form of each literal |
| Blank.BlankIdempotent | analyzer/fallback.go:799-856 | blanking twice is blanking once |
| Blank.IsMultiStatement | analyzer/redact.go:132-136 | true exactly when, in the comment-free text, under the dollar or the non-dollar reading, some ";" outside all literals has a byte other than white space after it |
| Blank.SeparatorIsOutsideLiterals | analyzer/redact.go:140-145 | looking for the first ";" of the blanked text decides exactly that, although blanking moves and removes bytes |
| Separators.NoneMissed | analyzer/redact.go:111-130 | no separator of a query is missed under a reading whose comments stripping sees, whose escapes change no literal and in whose names nothing opens a literal or a comment |
| Inputs.MissedBehindEscape | analyzer/redact.go:111-130 | where backslashes escape, the ";" behind an escaped quote is missed |
| Inputs.MissedBehindName | analyzer/redact.go:111-130 | under every reading the ";" behind a name that holds a quote is missed |
| Spans.LiteralSpans | analyzer/redact.go:186-218 | the two lists are the spans of the value chunks and of the kept-name chunks of the text under the given reading and dialect |
| Spans.SpansOrdered | analyzer/redact.go:186-218 | for every byte string each list is ascending, disjoint, non-empty and in bounds |
| Spans.SpansCover | analyzer/redact.go:186-218 | a byte is covered exactly when the chunk it lies in is of that class |
| Spans.UnionSpans | analyzer/redact.go:315-340 | the merging loop computes the specified union of two ordered lists |
| Spans.UnionCovers | analyzer/redact.go:313-340 | the union is ordered, covers exactly the bytes of both lists, and has no touching spans when neither list is empty |
| Spans.ApartUnique | analyzer/redact.go:313-340 | a list without touching spans is determined by the bytes it covers |
| Spans.RedactSpans | analyzer/redact.go:167-177 | the single pass, or the union of the two, as a backslash occurs; names come from the reading without escapes |
| Spans.RedactedSpansExact | analyzer/redact.go:147-177 | for every text the redacted spans are ordered and cover exactly the bytes that are in a literal under one of the two backslash readings |
| Spans.SameWithoutBackslash | analyzer/redact.go:167-177 | without a backslash both readings give the same list |
| Spans.OneReadingExactly | analyzer/redact.go:147-177 | the redacted spans are those of the reading without escapes exactly when there is no backslash, or every byte the escaping reading puts into a literal is in a literal of the other and, if there is one, no two of that reading's literals are neighbours |
| Spans.FastPathExact | analyzer/redact.go:167-177 | the fast path always covers what the union would, and returns the same list exactly when no two neighbouring chunks of the text are redacted literals |
| Spans.FastPathDiffers | analyzer/redact.go:167-177 | under every dialect $$a$$'' is two spans on the fast path and one span in the union |
| Spans.MySQLCoversUnknown | analyzer/redact.go:186-243 | every byte redacted for the unknown dialect is redacted for MySQL, with or without backslashes |
| Spans.PostgresIsUnknown | analyzer/redact.go:186-243 | without a double quote Postgres gives the list of the unknown dialect |
| Spans.PostgresNames | analyzer/redact.go:191-243 | under Postgres a kept quoted name ends at its first undoubled quote, whichever backslash reading |
| Spans.KeptExactly | analyzer/redact.go:186-243 | of the runs in double quotes those of Postgres are kept exactly when they are closed, those of MySQL never, and those of the unknown dialect exactly when they are closed, start with "_" or a letter and hold letters, digits, "_" and "$" only; runs in backticks are always kept, the others never |
| Spans.NoneLeftOut | analyzer/redact.go:186-218 | the two lists together cover the bytes of every quoted run and dollar quote, closed or not, and no others |
| Numbers.ScanNumber | analyzer/redact.go:375-395 | where the numeric literal ends: a radix literal, else digits and points with an optional exponent |
| Numbers.ScanRadixNumber | analyzer/redact.go:400-416 | a radix prefix counts exactly when a digit of its radix follows |
| Numbers.NumberForm | analyzer/redact.go:373-416 | in bytes: with "0x" or "0b" and a digit of that radix all such digits belong to the number; otherwise all digits and points, and an "e" with an optional sign when a digit follows, with all its digits |
| Redact.RedactStripped | analyzer/redact.go:35-76 | the walk with its two cursors writes what the specified pieces of the text give |
| Redact.Redact | analyzer/redact.go:35-76 | redaction is that walk on the stripped text |
| Redact.Provenance | analyzer/redact.go:35-76 | one output byte per piece; the pieces tile the text in order; the literal pieces are exactly the redacted spans, one "?" each; a copied byte is in no literal of either backslash reading |
| Redact.CopiedDigits | analyzer/redact.go:356-371 | a digit outside the kept names is copied only behind an output byte in 48..57, 65..90 or 97..122, or "_", "$" or "@" |
| Redact.NumbersStandAlone | analyzer/redact.go:60-69 | and a number is redacted only behind an output byte that is none of those, or at the start, and as a whole (Numbers.NumberForm) |
| Redact.RedactShrinks | analyzer/redact.go:35-76 | redaction never lengthens a query |
| ChunkWalk.RedactedIsOut | analyzer/redact.go:35-76 | where the two backslash readings give one list of spans (Spans.OneReadingExactly) the walk over spans and the chunk-by-chunk form, one "?" per redacted literal whatever it holds, write the same text |
| NonInterference.NonInterference | analyzer/redact.go:35-76 | rewriting any redacted quoted or dollar-quoted literals of comment-free text into other complete ones with the same opening leaves the redacted text unchanged, whatever surrounds them, if backslashes make neither text ambiguous |
| NonInterference.ReplaceLiteral | analyzer/redact.go:186-218 | the same for one literal and any complete literal of its kind in its place |
| NonInterference.QueryNonInterference | analyzer/redact.go:35-76 | the same for whole queries, names in backticks included, whose comments may become spaces too, if stripping sees the comments of both (Queries.SameComments) |
| NonInterference.PlainNamesStay | analyzer/fallback.go:703-740 | where nothing in a name in backticks opens a literal or a comment, that holds of the query and of every such rewriting |
| Interchange.NumbersDoNotMatter | analyzer/redact.go:60-69 | a redacted number may become any other that is read in its place and disturbs nothing before it: the redacted text is unchanged exactly when a "$" behind it that could open a string meets a word before it with both numbers or with none |
| Interchange.StillANumber | analyzer/redact.go:60-69 | another number in place of a redacted one is redacted exactly when no copied "$" before it becomes a delimiter and every number before it still ends where it did |
| Interchange.UndisturbedWithoutWord | analyzer/redact.go:60-69 | that is so wherever no word ends before the number |
| Interchange.WordBeforeMatters | analyzer/redact.go:291-301 | behind a word it need not be: a "$", a byte that is not ASCII and 1.5$ redact to four bytes and a "?", and with 15 they open a string |
| ListLengths.ListRedacted | analyzer/redact.go:35-76 | a parenthesised list of quoted, dollar-quoted or numeric values, each behind a comma with or without a space, redacts to a list of as many "?", and the texts around it redact by themselves |
| Queries.ReadsTheQuery | analyzer/fallback.go:703-740 | under either backslash reading redaction meets exactly the literals and names of the query, with a space for each of its comments, exactly when stripping leaves what taking out the comments of that reading would |
| Queries.PlainNamesSuffice | analyzer/fallback.go:703-740 | without escapes that is so where nothing in a name in backticks opens a literal or a comment |
| Queries.NoNames | analyzer/fallback.go:703-740 | in particular where no backtick stands outside the literals that stripping sees |
| Origins.QueryProvenance | analyzer/redact.go:3-22 | for every query and either backslash reading under which that is so: each output byte is a "?" or comes, in strictly ascending order, from a byte of the query in no comment and no redacted literal of that reading, but for one space per comment |
| Inputs.MarkInName | analyzer/fallback.go:703-740 | under every reading a comment mark in a name in backticks leaves the literal on the next line in the output, and stripping does not see the query's comments |
| Inputs.MarkBehindEscape | analyzer/fallback.go:703-763 | where backslashes escape, so does a comment behind an escaped quote that holds quotes of its own with the literal behind it |
| Inputs.NothingToHide | analyzer/fallback.go:703-740 | a query without literals and comments for which stripping does not see the query's comments either, so that the condition is not needed |
| Inputs.QuoteInName | analyzer/fallback.go:703-763 | a query with a quote in a name and one that differs in a literal only redact differently, and stripping does not see the comments of the second |
| Idempotence.TextIdempotent | analyzer/redact.go:35-76 | for every text with one reading: redacting its redacted text again changes nothing when no number of it hides a delimiter that survives redaction, and shortens it otherwise |
| Idempotence.IdempotentExactly | analyzer/redact.go:35-76 | for every query whose stripped text has one reading: redacting twice is redacting once exactly when that holds and the redacted text has no comment |
| Idempotence.IdempotentWithPlainNames | analyzer/redact.go:35-76 | where nothing in a name in backticks opens a literal or a comment the redacted text has no comment, and the condition on the numbers alone decides it |
| Inputs.NumberCause | analyzer/redact.go:35-76 | the condition on the numbers fails, and so does idempotence, for 1$$abc under every dialect |
| Inputs.BacktickCause | analyzer/redact.go:35-76 | a concrete query without a number and with a single quote in a backtick name: its redacted text has a comment, and redacting that removes it |
| Inputs.ReadingsCause | analyzer/redact.go:147-177 | where the backslash readings differ, a name that is redacted in part leaves a digit that the second pass takes for a number |
| Fold.JoinedFields | analyzer/redact.go:99-103 | joining the fields collapses each stretch of white space to one space and drops it at both ends |
| Fold.FoldLeavesNone | analyzer/redact.go:78-103 | folding leaves no placeholder list that could be folded |
| Fold.FoldedShape | analyzer/redact.go:99-103 | the result has single inner spaces, no foldable list and no trailing ";" or space |
| Fold.FoldIdempotent | analyzer/redact.go:97-103 | folding twice is folding once |
| Fold.AnyListLength | analyzer/redact.go:78-103 | in any context a parenthesised list of any number of placeholders, separated by "," or ", ", gives the text a single one gives |
| FoldBytes.FieldsExactly | analyzer/redact.go:99-100 | the fields stand in the text in order, white bytes (9 to 13 and 32) between and around them and none in them |
| FoldBytes.JoinedExactly | analyzer/redact.go:99-100 | joining puts a single space between the fields and nothing else: the result has no other white space and the same fields |
| FoldBytes.FoldedAreLists | analyzer/redact.go:78-103 | "(?)" is written for each list found, which is "(?" with one or more of ",?" and ", ?" and a ")", and every other byte is copied |
| FoldBytes.FoldedBytes | analyzer/redact.go:97-103 | in bytes: single spaces between other bytes and no other white space, no list left, and exactly the semicolons and spaces at the end are cut off |
| Suppress.LexSQL | analyzer/suppress.go:82-111 | the comment spans and the literal spans under one of the sixteen readings |
| Suppress.RangesCover | analyzer/suppress.go:80-111 | those spans cover exactly the bytes of comments, or of literals, of that reading |
| Suppress.InAnySpans | analyzer/suppress.go:124-133 | whether some span of some reading contains the position |
| Suppress.CommentDirective | analyzer/suppress.go:46-78 | what the directives that count under one backslash and dollar reading switch off together |
| Suppress.ContainsToken | analyzer/suppress.go:180-190 | whether the directive's token occurs anywhere, in any case |
| Suppress.IntersectDirectives | analyzer/suppress.go:135-155 | the loop over names computes the meet |
| Suppress.MeetLaws | analyzer/suppress.go:135-155 | the meet is commutative, associative and idempotent, has "everything" as its top, and suppresses exactly what both sides do |
| Suppress.ParseIgnoreDirective | analyzer/suppress.go:17-39 | the result is the meet of all four backslash and dollar readings, although up to three are not run |
| Suppress.SkippedReadings | analyzer/suppress.go:22-30 | a reading that is skipped for want of a backslash or a dollar would have found the same directives |
| Suppress.NothingWithoutToken | analyzer/suppress.go:17-20 | leaving early without the token is what the readings would have given |
| Suppress.SuppressionIsGenuine | analyzer/suppress.go:13-78 | a suppressed rule has, under every reading, a directive naming it that stands in a comment and in no literal under any of the four marker variants |
| Suppress.EveryReading | analyzer/suppress.go:17-39 | a rule is suppressed exactly when all four readings suppress it |
| Directives.SuppressedExactly | analyzer/suppress.go:13-78 | a rule is switched off exactly when under each backslash and dollar reading some match in a comment, in a literal under none of the four marker variants, has a list that names the rule or is white |
| Directives.TokenExactly | analyzer/suppress.go:8-11 | the token is sqlguard:ignore, in any case |
| Directives.ListExactly | analyzer/suppress.go:8-11 | its list is the longest run of list bytes behind a colon, and there is none exactly when no colon follows it or no list byte the colon |
| Directives.MatchesExactly | analyzer/suppress.go:55-56 | the matches are tokens with their lists, one behind the other, and every token of the text is one of them or stands inside one |
| Directives.SplitExactly | analyzer/suppress.go:70 | the pieces of a list are exactly what stands between two commas, or a comma and an end |
| Directives.NamesExactly | analyzer/suppress.go:70-74 | a list names exactly the pieces that are not empty once the white space around them is gone |
| Directives.HitsExactly | analyzer/suppress.go:55-59 | a directive counts exactly when it is a match in a comment and in no literal of the four marker variants |
| Directives.BareDirective | analyzer/suppress.go:13-78 | a query whose only token stands in a block comment at its start, with no list or a white one, has everything switched off |
| Directives.DirectiveWithList | analyzer/suppress.go:13-78 | with another list exactly the names in the list are switched off |
| Parens.ParenDepthBefore | analyzer/fallback.go:648-663 | the clamped depth at an index |
| Parens.DepthInSlice | analyzer/fallback.go:353-366 | a slice that starts at depth zero has the depths of the whole text, however unbalanced both are |
| Parens.OpenIsEnclosing | analyzer/fallback.go:562-583 | the positions on the stack are exactly the parentheses from which every prefix up to here stays open |
| Parens.ParenContent | analyzer/fallback.go:426-443 | the first ")" that brings the balance from the opening to zero, or none |
| Parens.SplitTopLevelCommas | analyzer/fallback.go:282-304 | the one-pass loop computes the specified pieces |
| Parens.CutsExactly | analyzer/fallback.go:285-304 | there is one piece more than there are commas at depth zero, and the pieces lie between those commas |
| Parens.EveryTopComma | analyzer/fallback.go:285-304 | every comma at depth zero is such a cut |
| Parens.SplitJoins | analyzer/fallback.go:285-304 | joining the pieces with commas restores the text |
| Parens.PiecesAreWhole | analyzer/fallback.go:285-304 | splitting a piece again gives the piece |
| Unwrap.UnwrapStatementParens | analyzer/fallback.go:445-462 | the loop ends, with the specified innermost text |
| Unwrap.UnwrapIdempotent | analyzer/fallback.go:445-462 | no parenthesis around the whole result is left, and unwrapping again changes nothing |
| Unwrap.UnwrapShape | analyzer/fallback.go:445-462 | the result is one slice; before it stand only white space and k "(", after it only white space, ";" and k ")"; every depth in the original is k more than in the result |
| Unwrap.ParenthesesDoNotMatter | analyzer/fallback.go:445-462 | parentheses put around any balanced statement do not change what unwrapping gives, with any white space around them and with a semicolon behind them or not |
| Regions.KeywordsAreMatches | analyzer/fallback.go:26-29 | the matches of a keyword between word boundaries are ascending, disjoint and free of parentheses |
| Regions.KeywordsExactly | analyzer/fallback.go:26-29 | they are exactly the places where the word stands in any case with no letter, digit or "_" before or behind it |
| Regions.KeepTopLevel | analyzer/fallback.go:504-522 | the kept matches overwrite the front of the array that is being read, and are those at depth zero |
| Regions.TopLevelMatches | analyzer/fallback.go:502-522 | the one pass gives the matches that a rescan from the start puts at depth zero |
| Regions.TopOfMeaning | analyzer/fallback.go:502-522 | a match is in the result exactly when the naive depth at its start is zero, and the order is kept |
| Regions.FromRegions | analyzer/fallback.go:483-500 | one region per top-level FROM, up to the first top-level end keyword behind it |
| Regions.RegionMeaning | analyzer/fallback.go:464-500 | a region starts behind a top-level FROM, contains the start of no top-level end keyword and is followed by one or by the end; depth in its slice is depth in the text |
| Regions.HasTopLevel | analyzer/fallback.go:342-383 | some match has naive depth zero, which is when the one-pass list is not empty |
| RowSource.RowSourceWords | analyzer/fallback.go:593-637 | exactly which words before a parenthesis make it a row source, as a list of phrases |
| RowSource.CTEBodyMeaning | analyzer/fallback.go:617-623 | AS with optional NOT and MATERIALIZED, and nothing else |
| RowSource.SetOperandMeaning | analyzer/fallback.go:608-613 | a set operator with optional DISTINCT and ALL, and nothing else |
| RowWords.RowSourceExactly | analyzer/fallback.go:593-637 | in bytes, words spelled out: a parenthesis opens a row source exactly behind nothing, a comma of a FROM clause, FROM without DISTINCT, JOIN, LATERAL, UNION, INTERSECT or EXCEPT with optional DISTINCT and ALL, or AS with optional NOT and MATERIALIZED, each in any case, at a word boundary and with any blanks between and behind |
| RowWords.CaseDoesNotMatter | analyzer/fallback.go:632-637 | texts that differ in the case of ASCII letters only open row sources alike |
| Scope.RowSourceIs | analyzer/fallback.go:524-558 | the parenthesis at a position is a row source exactly when the statement is a SELECT and one of those stands before it; the comma counts only in a FROM clause and where no parenthesis encloses it |
| Scope.FromsExactly | analyzer/fallback.go:483-500 | a position is in a FROM region exactly when a FROM that no parenthesis encloses stands before it and no such end keyword starts between them or at it |
| Scope.DepthZeroExactly | analyzer/fallback.go:524-558 | depth zero means that no parenthesis encloses the position |
| Scope.RowScope.Push | analyzer/fallback.go:567-572 | the flag is on top and the count of set flags stays exact |
| Scope.RowScope.Pop | analyzer/fallback.go:574-583 | the top flag is gone, an empty stack stays empty, the count stays exact |
| Scope.TracksBounding | analyzer/fallback.go:560-583 | no flag is set exactly when every parenthesis that encloses the position is a row source |
| Scope.ScopedBounds | analyzer/fallback.go:524-558 | a WHERE, and a LIMIT, bounds the rows exactly when some match has only row sources around it |
| Scope.NonSelectIsTopLevel | analyzer/fallback.go:342-351 | for other statements than SELECT that is what hasTopLevelWhere answers |
| Scope.OutsideParentheses | analyzer/fallback.go:524-529 | a keyword at depth zero always bounds |
| Analyzer.PrepareQuery | analyzer/analyzer.go:107-124 | one redaction yields both the display and the fingerprint that Fingerprint gives |
| Analyzer.Analyze | analyzer/analyzer.go:217-266 | the findings of the firing, not ignored rules in order, with severity and identity, although the query is redacted lazily and at most once |
| Analyzer.FindingsExactly | analyzer/analyzer.go:217-266 | the findings are, once each and in order, what the rules say about the parsed statement, or the fallback's, unless it is switched off; the profile's severity for the rule comes first, then the registry's, then the finding's own |
| Analyzer.OneIdentity | analyzer/analyzer.go:217-266 | every finding carries the query's own fingerprint and display, and none is of a switched-off rule |
| Analyzer.MissingOnlyIfIgnored | analyzer/analyzer.go:217-266 | a rule that fires is missing only when all four readings switch it off |
| Analyzer.LiteralsDoNotMatter | analyzer/redact.go:80-95 | queries that differ only in redacted quoted or dollar-quoted literals and in comments have one fingerprint, names in backticks included, if stripping sees the comments of both |
| Analyzer.NumbersDoNotMatter | analyzer/redact.go:80-95 | so have queries that differ in a redacted number and in comments |
| Analyzer.ListLengthsDoNotMatter | analyzer/redact.go:80-95 | so have queries that differ in comments and in one parenthesised list, in its values and in how many there are |
| Cache.AnalysisCache.Get | middleware/cache.go:50-58 | a hit returns the stored results and moves the entry to the front, a miss changes nothing; map and list stay in bijection |
| Cache.AnalysisCache.Put | middleware/cache.go:60-78 | the entry is first, the others keep their order, and past the capacity exactly the last is gone from list and map |
| Cache.EntriesAreAnalyses | middleware/cache.go:47-78 | under any interleaving of gets and puts each entry holds the analysis of its own query, keys are distinct and the capacity holds |
| Lru.HoldsMostRecent | middleware/guard.go:114-129 | after any sequence of analyses the cache is the front of an unbounded one, in recency order |
| Lru.Inclusion | middleware/guard.go:114-129 | a larger cache holds what a smaller one holds, and never misses where that hits |
| Lru.CachedExactly | middleware/guard.go:114-129 | a query hits exactly when it was analyzed before and fewer distinct queries than the capacity were analyzed since |
| Dedup.Deduper.Allow | middleware/dedup.go:32-65 | the new map and the answer of one call |
| Dedup.Deduper.EvictExpired | middleware/dedup.go:67-74 | exactly the entries whose window has not elapsed remain |
| Dedup.AllowedWhen | middleware/dedup.go:32-65 | for any clock and positive window a finding passes exactly when its key is not live and fewer than maxKeys keys are |
| Dedup.OffExactly | middleware/dedup.go:32-40 | every call of every run passes exactly when the window is not positive, and then no run leaves anything in the map |
| Dedup.OthersStay | middleware/dedup.go:43-65 | a call sets the entry of its own key to its time when it passes, and of the others drops exactly those whose window has elapsed, only when the map is full |
| Dedup.RunBounded | middleware/dedup.go:46-57 | the map never exceeds maxKeys, whatever the clock does |
| Dedup.AllowExactly | middleware/dedup.go:32-65 | over every run on a non-decreasing clock a finding passes exactly when it did not pass within the window and fewer than maxKeys keys did |
| Dedup.AllowancesApart | middleware/dedup.go:32-36 | two passes of one finding are more than the window apart |
| DedupClock.SpacedExactly | middleware/dedup.go:32-65 | for a positive window and a capacity of two or more: every run with the given clock readings keeps the passes of each finding more than the window apart exactly when no reading, at or behind the capacity, is past the window of an earlier one and followed by one within it |
| DedupClock.ClockMustNotGoBack | middleware/dedup.go:46-57 | for every such window and capacity there are readings, one of which goes back, and a run with them that lets a finding pass twice within the window |
| Dedup.KeyInjective | middleware/dedup.go:41 | the NUL-joined key determines fingerprint and rule when rule names hold no NUL |
| Dedup.NulCollides | middleware/dedup.go:41 | every key of a rule name that holds a NUL belongs to another finding too |
| Tracker.QueryTracker.TrackFingerprint | middleware/n_plus_one.go:55-113 | the new records and the outcome (started, dropped, counted, reported) of one execution |
| Tracker.QueryTracker.EvictExpired | middleware/n_plus_one.go:115-122 | exactly the live records remain |
| Tracker.QueryTracker.Reset | middleware/n_plus_one.go:124-129 | nothing is tracked any more |
| Tracker.RunRefines | middleware/n_plus_one.go:55-113 | over every run of executions and Resets on a non-decreasing clock, evicting only when full gives the outcomes of evicting at once |
| Tracker.TrackedExactly | middleware/n_plus_one.go:55-113 | an execution in a live epoch is counted, also when the map is full, and reports exactly when its number is max(2, threshold); without a live epoch it is dropped exactly when maxKeys epochs are live |
| Tracker.TrackedAt | middleware/n_plus_one.go:55-113 | the same for each execution of a run |
| Tracker.EpochsApart | middleware/n_plus_one.go:83-90 | between Resets the epochs of one key start more than the window apart |
| Tracker.OneReport | middleware/n_plus_one.go:92-97 | no epoch is reported twice |
| Tracker.ReportsApart | middleware/n_plus_one.go:83-97 | between two reports of one key, Resets or not, an epoch starts that has max(2, threshold) executions of its own |
| Tracker.ReportHappens | middleware/n_plus_one.go:92-97 | an epoch with max(2, threshold) executions was reported, at the execution of that number |
| Tracker.OthersStay | middleware/n_plus_one.go:62-113 | an execution changes the record of its own key only, and drops exactly the others whose window has elapsed, only when the map is full |
| Tracker.RunBounded | middleware/n_plus_one.go:62-81 | the map never exceeds maxKeys, whatever the clock does |
| Guard.Guard.AnalyzeQuery | middleware/guard.go:114-129 | the results are the cached ones or the analysis, and the cache makes one recency step |
| Guard.Guard.Report | middleware/guard.go:131-147 | one batch of the findings the deduper lets through, none when it lets none through |
| Guard.Guard.Check | middleware/guard.go:98-112 | cache, deduper, tracker and reports after one query |
| Guard.Guard.CheckLatency | middleware/guard.go:149-163 | one slow-query finding with the query's display and fingerprint exactly when the rule is on and the threshold reached |
| Guard.Guard.ResetN1 | middleware/guard.go:181-189 | only the tracker's records are cleared |
| Guard.CheckReports | middleware/guard.go:98-147 | the batches of one Check: what the deduper let through, if anything, and behind it a finding called n-plus-one exactly when the tracker reports |
| Guard.LatencyReports | middleware/guard.go:149-163 | the batch of one latency: a finding called slow-query exactly when the rule is on and the threshold reached, and no other change |
| Guard.CacheIsInvisible | middleware/guard.go:98-189 | over any sequence of Checks, CheckLatencies and ResetN1s and for any cache size the reports, the deduper and the tracker are those of a guard without cache that fingerprints each query anew |
| Guard.CachedInRun | middleware/guard.go:114-129 | after any such run a query is in the cache exactly when it was checked and fewer distinct queries than the capacity were checked since |
| Guard.GuardRuns | middleware/guard.go:98-189 | over any such run the guard's maps and reports are those of one deduper run over all findings and one tracker run over all fingerprints and resets, batch by batch, with the slow queries between them |
| Reports.FindingsApart | middleware/guard.go:131-147 | over any such run whose report clock does not go back, two reports of one finding come from different Checks that are more than the window apart |
| Reports.RepetitionsApart | middleware/guard.go:98-112 | over any such run whose tracker clock does not go back, between two repetition reports of one fingerprint it is checked max(2, threshold) times |
| Driver.NamedToValues | middleware/driver.go:434-445 | the values in order, or a rejection exactly when some argument has a name |
| Driver.AnalyzeExecuted | middleware/driver.go:397-432 | nothing after ErrSkip or ErrBadConn, one Check otherwise; after a success, and only then, one slow-query finding if the rule is on and the end of that very call is the threshold or more behind its start |
| Driver.AnswerMeaning | middleware/driver.go:424-432 | the same of the specification: answer by answer, which batches are added and how cache, deduper and tracker move |
| Driver.Wrapped.Call | middleware/driver.go:227-271 | the answer passed on; the guard moves only when the call reached the base and the query ran |
| Driver.LogicalQuery | middleware/driver.go:397-422 | one logical query, with its fallbacks and retries, changes the guard as its last base call says and not at all if that did not run: Driver.LastCallDecides |
| Driver.LastCallDecides | middleware/driver.go:397-432 | if the last base call was done or failed, cache, deduper and tracker move as by one Check at its times; the reports gain its findings and, exactly if it was done, the rule is on and its own duration reaches the threshold, a slow-query finding; otherwise nothing changes |
| Driver.OneConnection | middleware/driver.go:227-271 | which calls reach the base on one connection, when the connection is bad and what the answer is otherwise |
| Driver.FirstGoodDecides | middleware/driver.go:397-422 | bad connections are left for the next one, and the first that is not bad makes the last calls and gives the answer; without one the answer is ErrBadConn |
| Driver.CheckedOnce | middleware/driver.go:397-422 | whatever the base answers, at most one call, the last, means that the query ran, and LogicalQuery finds that call exactly when there is one |

## Left out

- White space and letter case are ASCII only; the source's `strings.Fields`, `strings.TrimSpace`, `strings.EqualFold` and `(?i)` know Unicode.
- Regular expressions other than the directive token and the placeholder list: WHERE, LIMIT, FROM, JOIN and the region ends are any functions from a text to ascending, disjoint, non-empty matches without parentheses; `Regions.KeywordsAreMatches` shows that keywords between word boundaries are such a function.
- Statement kinds: `scopedBounds` gets whether the statement is a SELECT as a parameter; `detectKind` is not part of this model.
- NonInterference.NonInterference: for texts with one reading, as Spans.OneReadingExactly says; a text whose backslash readings differ in what they redact is not covered.
- Interchange.NumbersDoNotMatter: for texts with one reading too.
- Interchange.StillANumber: for texts with one reading too.
- ListLengths.ListRedacted: for texts with one reading too, and with every literal in front of the list closed.
- Idempotence.IdempotentExactly: for queries whose stripped text has one reading, and with the comments of the redacted text in its condition; IdempotentWithPlainNames has no such part.
- Idempotence.TextIdempotent: for texts with one reading.
- NonInterference.ReplaceLiteral: for texts with one reading too.
- NonInterference.QueryNonInterference: for queries whose stripped texts have one reading.
- Analyzer.LiteralsDoNotMatter: as NonInterference.QueryNonInterference.
- Analyzer.NumbersDoNotMatter: for queries whose stripped text has one reading.
- Analyzer.ListLengthsDoNotMatter: for queries whose stripped text has one reading.
- Origins.QueryProvenance: in one direction, because a query without literals loses none whatever stripping does (Inputs.NothingToHide).
- Separators.NoneMissed: in one direction, because a literal that is read differently need not hide a separator.
- Suppress.SuppressionIsGenuine: in one direction only, because a token inside the rule list of an earlier directive is consumed with that list and never looked at; Directives.SuppressedExactly has both directions.
- Analyzer.Analyze: parsers and rule bodies are pure functions, parameters of the model; the built-in rules, the registry and the profiles are not part of it.
- Cache.AnalysisCache.Get: the doubly linked list is a sequence of element objects; element identity and in-place update are kept, the links between elements are not.
- Tracker.QueryTracker.TrackFingerprint: the records are values in the map instead of objects behind pointers, and the reporter's call is the returned outcome.
- Driver.Wrapped.Call: one method stands for the Query and the Exec paths of connection and statement, which differ only in the base entry point they ask for; results and rows are not modelled, and an error that wraps ErrSkip or ErrBadConn is the error itself.
- Driver.LogicalQuery: `database/sql` as described at `middleware/driver.go:397-422`, with any number of attempts instead of three.
- `Guard.Observe`, which hands out a closure around Check and CheckLatency.
- Saturation of `time.Duration` and the granularity of clocks.
- Mutex internals, goroutine scheduling and races on the clock.
- `ParseIgnoreComment`, the LIKE, OFFSET, INSERT and non-sargable heuristics, and the join heuristics built on regions and commas.
- The rest of the driver wrapper: Ping, ResetSession, transactions, connectors and argument checkers only pass calls on.
- The pgparser and mysqlparser modules, explain, reporters, the command line, configuration, the pgx, gorm and other integrations.
