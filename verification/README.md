# goboot: a verified model

goboot compiles annotations in Go comments into dependency-injection wiring: plain Go source that constructs every
component of an application in dependency order, wraps intercepted services in proxies, implements repositories from SQL,
and starts and stops components. This project models the logic of that pipeline and of the small runtime the generated code
calls, and proves what they are for.

`dafny verify dfyconfig.toml` checks everything. Where the source updates state in place, the model is a class or a method
with loops, proved equal to a function on values; the results are lemmas about those functions.

| part | modules |
|---|---|
| shared model | `Model`, `Ordering` |
| annotation language | `Lexer`, `Tokens`, `Value`, `Parser`, `Arguments`, `Grammar`, `Diagnoses`, `Comment`, `CommentMeaning`, `Gathering`, `RoundTrip`, `CommentRoundTrip`, `ParsedValues`, `Composition`, `CommentScan`, `CommentSource` |
| typo suggestions | `Suggest` |
| components to wiring | `ConditionFixpoint`, `Resolver`, `Resolution`, `GraphBuild`, `TopologicalSort`, `WalkOrder`, `Imports`, `Naming`, `Wiring`, `WiringMeaning`, `WiringCorrect`, `WiringExact`, `WiringTheorem`, `WiringExamples` |
| lifecycle | `Lifecycle`, `LifecycleOrder` |
| SQL | `SqlCompile`, `SqlMeaning`, `SqlDrivers`, `SqlArguments` |
| proxies | `Retry`, `Proxy`, `ProxyMeaning`, `CacheKey`, `CacheKeyAmbiguity` |
| resilience and caching | `CircuitBreaker`, `RateLimit`, `Gates`, `GatesRuns`, `Cache`, `CachedProxy` |

## Main results

- The lexer gives exactly the tokens of the language, and the parser accepts exactly its annotations, with exactly the
  arguments they bind (`Tokens.LexIsExact`, `Grammar.ValueIsExact`, `Grammar.AnnotationIsExact`); an annotation spread over
  lines is gathered whole exactly when its bracket opens on the first (`Gathering.GatheredWhole`,
  `Gathering.AnnotationIsFound`).
- Printing an annotation value and parsing the comment gives back exactly that value, exactly when the value is readable:
  nested at most 32 deep and free of characters that the printer escapes in a way the lexer rejects
  (`CommentRoundTrip.PrintThenParse`).
- Parsing two comments one after the other is parsing each, exactly shifted, when the first ends by itself
  (`Composition.ParseIsCompositional`), and every character of a cleaned comment is traced to its place in the file, which is
  exact as far as no carriage return was dropped before it (`CommentSource.RemapIsExact`, `CommentSource.RemapIsTrueIff`).
- The rolling-row distance is the least number of edits (`Suggest.LevIsEditDistance`, `Suggest.Levenshtein`).
- A parameter is bound to a component exactly when that alone, or as the only primary one, can provide it and no proxied one
  forbids it (`Resolution.BoundExactlyWhen`).
- The depth-first walk returns a construction order exactly when the graph is acyclic, and a cycle otherwise
  (`TopologicalSort.ConstructionOrderCorrect`), and builds what earlier nodes need first (`WalkOrder.FirstNodesFirst`).
- If resolution reports nothing and the graph is acyclic, emission succeeds; whether the generated file compiles is decided by
  a condition on the application alone (`WiringExact.CompilesIffHygienic`); and then every run builds every component once,
  from exactly the objects its parameters were resolved to (`WiringTheorem.WiringIsCorrect`). An application with a proxy, a
  generated repository and a configuration meets the condition (`WiringExamples.ShopCompiles`).
- Over every run, hooks start after those of everything their component depends on, directly or not, and stop before them
  (`LifecycleOrder.HooksRespectDependencies`).
- A call of a proxy does exactly what the flags of the method ask for, its gates being asked in a fixed order
  (`ProxyMeaning.CallIsMeant`, `ProxyMeaning.GatesAreAskedInOrder`); the gated and the ungated renderer mean the same
  (`ProxyMeaning.GatesThatAdmitChangeNothing`), and every call is well bracketed (`ProxyMeaning.CallsAreWellBracketed`).
- SQL is divided exactly at its named parameters (`SqlMeaning.PiecesAreExact`).
- When a driver reads the compiled SQL text and binds the generated arguments, it executes the SQL with every name replaced by
  what it denotes, exactly when the SQL has no placeholder of its own and no parameter that touches a word
  (`SqlArguments.GeneratedCallMeansSql`).
- The circuit breaker never wedges, bounds its probes and, open, admits nobody until the timeout is over; the token bucket
  admits a call exactly when no stretch of calls exceeds its bound, so that no policy within the bounds admits more; both on
  their own and inside the composed gates, which conserve slots and tokens; the cached proxy refines the bare service
  (`CircuitBreaker.NeverWedges`, `CircuitBreaker.OpenAdmitsNobody`, `RateLimit.AdmittedExactlyWithinBounds`,
  `RateLimit.NoBoundedPolicyAdmitsMore`, `GatesRuns.BreakerBoundsWindows`, `GatesRuns.OpenBreakerStaysShut`,
  `GatesRuns.LimiterBoundsWindows`, `Gates.RunKeepsBalance`, `CachedProxy.ProxyRefinesTarget`).
- A cache hit is linearizable, and a miss exactly when the calls of Set and Delete did not keep the key alive throughout
  (`Cache.MissIsLinearizableIff`).

## Where the code is not what one expects

The model follows the code. Each of these is a lemma, with the exact condition where there is one.

- The generated file need not compile. It does exactly when the input is hygienic (`WiringExact.CompilesIffHygienic`), and
  each way to fail has an example:
  - Names generated for two components may be the same: two configurations `Config` both get `LoadConfig`
    (compiler/lifecycle.go:41), two repositories of one name `New...Impl`, two proxies of one name `New...Proxy`
    (`WiringExact.SharedNameNeverCompiles`, `WiringExamples.TwoConfigsFail`).
  - An alias that equals the last segment of its path is left out (generator/di/imports.go:101-104), also where the package
    calls itself something else (`WiringExamples.SecondConfigFails`).
  - The wrapper for constructor errors and the loaders say `fmt.Errorf` literally (generator/di/di.go:229-231,
    generator/di/config.go:91), while the alias of `fmt` is chosen by the import table: another package called `fmt` may have
    come first (`WiringExamples.OtherFmtFails`).
  - A component whose local becomes `nil` (a component named `Nil`, say) shadows the predeclared `nil`, which generated code
    returns and compares with (`WiringExamples.NilFails`). If its type does not implement `error`, the file never compiles
    (`WiringExact.NilNeverCompiles`). If it does and no later component can fail, the file may compile, and then
    `buildComponents` returns that component as its error (`WiringExact.NilMisreports`, `WiringExamples.NilIsMistaken`).
  - A local may hide a function of the generated package, and may begin with a digit (`WiringExamples.HiddenFunctionFails`,
    `WiringExamples.LeadingDigitFails`).
- The comment on `sanitizeIdent` promises a result that begins with a letter (generator/di/di.go:355-356). A digit survives when
  characters before it are dropped; `Naming.LocalIsIdentifier` says exactly when.
- `MaxDelay` is documented as the cap on the backoff delay (runtime/retry.go:18-19), but the first wait is never capped:
  the waits of all runs are within it exactly when there is only one attempt or `Delay` is within it
  (`Retry.AllDelaysCappedIff`).
- Two components with a mutual `@ConditionalOnMissingNut` are both dropped (`ConditionFixpoint.MissingNutsMayDropTooMuch`).
- A float that is printed without a point and an exponent, as 2.0 is, is read back as an integer
  (`CommentRoundTrip.WholeFloatIsLost`).
- The bracket of an annotation must open on its first line: an annotation whose bracket opens on a later one is an annotation
  of the grammar but is not gathered whole (`Gathering.GatheredWhole`).
- Positional and named arguments of an annotation mix, and a positional argument silently overwrites a named one of its key:
  `@A(value = 1, 2)` means `@A(2)`, while `@A(2, value = 1)` is refused (`Arguments.OnlyPositionalsOverwrite`,
  `Arguments.NamedValueIsOverwritten`).
- go/scanner drops carriage returns from comments, which the offsets do not account for: in a block comment of a file with
  CRLF line ends, offsets fall short by one for every line before (`CommentSource.ReturnShortensOffset`); lines and columns
  stay right (`CommentSource.RemapIsTrueIff`).
- A rate-limited call counts as a failure of the breaker around the limiter (`Gates.RateLimitingTripsTheBreaker`).
- Cache keys are put together from printed arguments, whatever their types. Keys that mention two string parameters, each
  once, are ambiguous whatever the separator (`CacheKeyAmbiguity.StringKeysAreUnambiguousIffOneParameter`); only a repetition
  can tell strings apart (`CacheKeyAmbiguity.RepetitionMayTellApart`). For other types the separators decide: keys are
  unambiguous when each separator has a character that the parameter next to it never prints
  (`CacheKeyAmbiguity.SeparatedIsUnambiguous`), as with two integers in `#{a}:#{b}`
  (`CacheKeyAmbiguity.PairWithIntIsDetermined`). Arguments that print alike are never told apart, such as the slices
  `{"a b"}` and `{"a", "b"}` (`CacheKeyAmbiguity.DeterminesArgumentsIff`, `CacheKeyAmbiguity.SliceIsAmbiguous`).
- A placeholder of the dialect in the user's SQL, outside string literals, is indistinguishable from a parameter, and a parameter
  next to a letter, a digit or a `$` is read as part of a word (`SqlDrivers.ReadsAsMeantIfClean`,
  `SqlDrivers.PostgresMisreads`).
- A cache miss need not be linearizable (`Cache.MissNeedNotBeLinearizable`). With an injected clock that runs backwards the
  token bucket admits more than its window allows (`RateLimit.BackwardClockBreaksTheBound`); the bound for any clock is
  `RateLimit.AnyClockBound`.

## Model

| member | source | states |
|---|---|---|
| `Lexer.Lexer.Next` | annotation/lexer.go:23-75 | the token at the position and the position behind it are those of the token language, which always moves forward unless at the end |
| `Lexer.Lexer.LexQuotedString` | annotation/lexer.go:89-130 | decodes the five escapes, and reports an unknown escape, a newline or a missing quote at the same place as the language |
| `Lexer.Lexer.LexRawString` | annotation/lexer.go:132-145 | everything up to the next backtick, newlines included |
| `Lexer.Lexer.LexNumber` | annotation/lexer.go:147-185 | the extent and the kind of a number |
| `Lexer.Lexer.LexIdent` | annotation/lexer.go:187-196 | the longest run of identifier characters |
| `Lexer.TokenStream.Next` | annotation/parser.go:432-439 | hands out the peeked token first; with Peek, the stream is the token sequence whatever is peeked when |
| `Lexer.TokenStream.Peek` | annotation/parser.go:441-447 | shows the next token without moving |
| `Tokens.LexIsExact` | annotation/lexer.go:23-196 | the lexer gives a token exactly when, behind blanks, the text has it there, as far as it goes; blanks, words, escapes, numbers and punctuation are given character by character |
| `Tokens.ErrorIsNoToken` | annotation/lexer.go:23-196 | it gives an error exactly where the text has no token |
| `Value.Quote` | annotation/value.go:78-84 | strconv.Quote, character by character |
| `Value.QuotedIsGoLiteral` | annotation/value.go:78-84 | what stands between the quotes is a Go string literal for the string, by the escapes of the language |
| `Value.Render` | annotation/value.go:78-147 | the printers with their loops and sorted keys print the deterministic text of the value |
| `Value.ParseFormatInt` | annotation/value.go:89-89 | a formatted integer parses to itself exactly when it is an int64 |
| `Value.FormatIntIsExact` | annotation/value.go:89-89 | integers are written in the decimal digits of their value, without zeros in front, with a minus sign if negative |
| `Value.ParseIntIsExact` | annotation/parser.go:315-321 | an integer is read as what its sign and its digits say, if that fits into 64 bits |
| `Parser.Parser.ParseValue` | annotation/parser.go:309-349 | the recursive parser with one token of lookahead computes the grammar's value, or its error at the same token |
| `Parser.Parser.ParseArray` | annotation/parser.go:351-380 | the same for arrays |
| `Parser.Parser.ParseObject` | annotation/parser.go:382-424 | the same for objects, a repeated key being an error |
| `Parser.Parser.ParseArguments` | annotation/parser.go:248-305 | the same for argument lists, in which positional and named arguments may mix; a name that is taken is an error |
| `Grammar.ValueIsExact` | annotation/parser.go:309-424 | a value is read from one place up to another if and only if the grammar has it there: scalars by their one token, lists by their parts, commas and brackets, where a comma may stand in front of the closing one, every key of an object once, at most 32 brackets deep |
| `Grammar.ArgumentsAreExact` | annotation/parser.go:248-305 | the same for the list behind a bracket: values, or names with an equals sign and a value |
| `Arguments.ArgumentsAreBound` | annotation/parser.go:248-305 | a list is accepted exactly when it can be read and no argument is given by a name that an earlier one has for its key; then exactly these keys are bound, each to its last argument |
| `Arguments.OnlyPositionalsOverwrite` | annotation/parser.go:270-281 | in an accepted list an argument loses its key only if it is named, and only to a positional one behind it |
| `Arguments.NamedValueIsOverwritten` | annotation/parser.go:270-281 | a named value followed by a positional argument is gone; the other way round the list is refused |
| `Grammar.AnnotationIsExact` | annotation/parser.go:193-246 | a buffer is an annotation of this name with these arguments if and only if it is an at sign, a name and perhaps a list, with nothing behind, whose names are free and which binds exactly these arguments |
| `Grammar.MentionIsExact` | annotation/parser.go:193-246 | exactly prose that only mentions an annotation is passed over without a diagnostic: something else than a list behind the name, or something behind a list that is in order |
| `Diagnoses.DiagnosisIsTrue` | annotation/parser.go:193-424 | every diagnostic points at a token of the buffer, and its code and its reason are true of that token |
| `Parser.ParseOne` | annotation/parser.go:193-246 | the same for one gathered annotation |
| `Comment.ScanState.Feed` | annotation/parser.go:145-177 | the scanner's fields after a line are the fold of its characters; strings end with the line, raw strings do not |
| `Comment.ScanState.IsComplete` | annotation/parser.go:181-189 | when a gathered annotation is complete |
| `Comment.SplitLines` | annotation/parser.go:106-120 | the lines with their offsets |
| `CommentMeaning.LinesAreExact` | annotation/parser.go:106-120 | the lines are free of newlines, stand one behind the other with a newline between them, and cover the text |
| `CommentMeaning.PositionIsExact` | annotation/parser.go:456-477 | a place is as many lines down as there are newlines in front of it, in the column counted from the last of them |
| `CommentMeaning.BeginningIsExact` | annotation/parser.go:99-139 | a line begins an annotation exactly when spaces and tabs, an at sign and a letter or an underscore come first; the buffer starts at the at sign |
| `Comment.FindEnd` | annotation/parser.go:64-74 | the last line of the annotation that starts at a line |
| `CommentMeaning.GroupIsExact` | annotation/parser.go:64-74 | lines are gathered up to the first at whose end no raw string and no bracket is open, or up to the last |
| `Comment.ParseBuffer` | annotation/parser.go:76-86 | one gathered buffer gives at most one annotation and at most one diagnostic, at its own position |
| `CommentMeaning.TrimIsExact` | annotation/parser.go:76-86 | the raw text of an annotation is its buffer without the blanks at both ends |
| `Comment.ParseComment` | annotation/parser.go:50-91 | terminates on every text with the annotations and diagnostics of its groups of lines |
| `Gathering.GatheredWhole` | annotation/parser.go:50-189 | an annotation of the grammar with a list of arguments, its name right behind the at sign, perhaps blanks in front, is gathered whole exactly when its bracket opens on its first line, however its list is spread over lines, although gathering looks at single characters only |
| `Gathering.AnnotationIsFound` | annotation/parser.go:50-189 | and then it is found as it is: its name and its arguments at its place, no diagnostic; and what follows on other lines is parsed on its own |
| `RoundTrip.ValueReadsBack` | annotation/parser.go:309-424 | at any nesting depth, a printed value that stands in a list parses to itself if it is readable there and to an error otherwise |
| `RoundTrip.NumberTokenIsNumber` | annotation/lexer.go:147-185 | only numbers are read as numbers, and exactly those with a point or an exponent as floats |
| `RoundTrip.NumberIsRead` | annotation/parser.go:314-326 | the value of a float is what strconv.ParseFloat makes of its whole text, that of an integer what strconv.ParseInt makes of it; out of range it is an error |
| `CommentRoundTrip.PrintThenParse` | annotation/parser.go:50-91 | `@Name(k=<printed value>)` gives exactly one annotation with exactly that value and no diagnostic if and only if the value is readable; otherwise one diagnostic and nothing else; including floats that are printed with a point or an exponent |
| `CommentRoundTrip.ParsedValueReadsBack` | annotation/value.go:78-147 | a value that was itself parsed, without floats, survives printing and parsing exactly when its quoted strings are plain |
| `CommentRoundTrip.ControlCharacterIsLost` | annotation/lexer.go:109-120 | a control character can be written in a string but not read back from its printed form |
| `CommentRoundTrip.WholeFloatIsLost` | annotation/value.go:95-97 | a float that is printed as 2 is read back as the integer 2 |
| `ParsedValues.ParsedIsParseable` | annotation/parser.go:309-424 | parsing yields only int64s, word identifiers, raw strings without backtick and nesting within the bound |
| `ParsedValues.ParseableSplits` | annotation/value.go:78-147 | such values are expressible, and readable exactly when their strings are plain |
| `Composition.ParseIsCompositional` | annotation/parser.go:50-91 | parsing A, a newline and B gives the findings of A followed by those of B at shifted positions whenever A's last annotation closes by itself, even if it is malformed |
| `Composition.PositionInSecond` | annotation/parser.go:456-477 | a place in B has the position it has in the joined text |
| `Composition.OpenAnnotationSwallows` | annotation/parser.go:64-74 | an annotation left open takes B's lines with it, so the condition is needed |
| `CommentSource.CleanComments` | compiler/comments.go:31-64 | cleans a group of line and block comments into lines and a table of where they come from |
| `CommentSource.AppendBlockLines` | compiler/comments.go:70-92 | the lines of a block comment with their running offsets |
| `CommentSource.TableIsTrue` | compiler/comments.go:31-92 | every table entry holds the line, column and offset that its line has over the text of its comment, as go/scanner hands it on |
| `CommentScan.ScannedPosition` | compiler/comments.go:70-92 | against the comment as it stands in the file, a position over that text has the right line, an offset short by the returns dropped before, and a column short by those dropped on the line |
| `CommentSource.RemapIsExact` | compiler/comments.go:98-110 | every character of the cleaned text that is not a separator, located and remapped, gets the line of a place of the file that holds that character, and its column and offset short by the returns dropped before |
| `CommentSource.RemapIsTrueIff` | compiler/comments.go:98-110 | the offset is true exactly when no return was dropped before the character in its comment; line and column are true when returns only end lines |
| `CommentSource.RemapIsIncreasing` | compiler/comments.go:98-110 | later characters of the cleaned text are mapped to later offsets, with or without returns |
| `CommentSource.AnnotationPositionsAreTrue` | compiler/comments.go:115-130 | every reported annotation is on the line of an @ sign of the file, at its exact place without returns, and in its column when returns only end lines |
| `CommentSource.ReturnShortensOffset` | compiler/comments.go:70-92 | in a block comment with CRLF line ends an annotation on the second line is reported one offset too early |
| `Suggest.NextRow` | annotation/suggest.go:39-50 | one row of the table from the row before |
| `Suggest.Levenshtein` | annotation/suggest.go:33-52 | the two rolling rows compute the least number of insertions, deletions and substitutions |
| `Suggest.LevIsEditDistance` | annotation/suggest.go:33-52 | the recurrence is attained by some edit script and no script is shorter |
| `Suggest.EditDistanceIsMetric` | annotation/suggest.go:33-52 | zero only on equality, symmetric, triangle inequality, between the length difference and the longer length |
| `Suggest.Nearest` | annotation/suggest.go:13-21 | the loop finds the nearest candidate, the alphabetically first among equals |
| `Suggest.Closest` | annotation/suggest.go:9-30 | the nearest candidate within the threshold of the name's length, or none if there is none |
| `Suggest.CaseIsIgnored` | annotation/suggest.go:13-21 | two names are at distance zero exactly when they differ in nothing but the case of letters |
| `Suggest.SuggestionIsCanonical` | annotation/suggest.go:9-30 | only the set of candidates decides, not their order |
| `ConditionFixpoint.Sweep` | compiler/conditions.go:60-69 | one turn keeps exactly those whose nut conditions hold against what remains |
| `ConditionFixpoint.ApplyConditions` | compiler/conditions.go:49-76 | the two loops terminate with the fixpoint |
| `ConditionFixpoint.TestsSay` | compiler/conditions.go:78-134 | the tests of a component say: no profiles or an active one; each property present with its value, or present if no value is asked for, or absent if that counts as a match; each required nut provided by another component, no absent one |
| `ConditionFixpoint.SurvivorsHold` | compiler/conditions.go:49-134 | the survivors are a sub-list in discovery order, and the profile, property and nut conditions of each hold, written out, the last against the survivors |
| `ConditionFixpoint.SurvivorsIgnoreOrder` | compiler/conditions.go:49-76 | the surviving set does not depend on discovery order |
| `ConditionFixpoint.SurvivorsAreGreatest` | compiler/conditions.go:49-76 | it contains every stable set of candidates without missing-nut conditions, so without them it is the greatest |
| `ConditionFixpoint.MissingNutsMayDropTooMuch` | compiler/conditions.go:110-114 | with them two components may both go although either could stay |
| `ConditionFixpoint.SettledProvidersMakeItExact` | compiler/conditions.go:104-134 | if the providers of nuts wanted absent are unconditional, a candidate survives exactly when its conditions hold against the survivors, and no larger stable set exists |
| `Resolver.Analysis.ResolveDependency` | compiler/resolver.go:29-63 | binds one parameter in place, or appends one diagnostic, and changes nothing else |
| `Resolver.Analysis.Resolve` | compiler/resolver.go:16-27 | resolving in place, one after the other, is resolving every parameter against the original components |
| `Resolver.ChoiceIgnoresDependencies` | compiler/resolver.go:69-104 | earlier bindings do not influence later ones |
| `Resolution.BoundExactlyWhen` | compiler/resolver.go:29-120 | a parameter is bound to w exactly when no other, proxied component has a type assignable to a parameter that is no interface, and w is the only one, or the only primary one, among the other, not proxied components whose type is assignable to that of the parameter |
| `Resolution.ChoiceIsTheWinner` | compiler/resolver.go:29-120 | the choice for a parameter is its only candidate or its only primary one, if it is not forbidden; otherwise there is exactly one diagnostic |
| `Resolution.DiagnosticSaysWhy` | compiler/resolver.go:39-62 | which diagnostic, about which consumer, parameter and target; an ambiguity lists exactly the candidates, sorted |
| `Resolution.ChoiceIgnoresOrder` | compiler/resolver.go:11-15 | permuting the components changes no binding |
| `Resolution.NoDiagnosticsMeansBound` | compiler/resolver.go:16-85 | without diagnostics every parameter is bound to another component, not hidden behind a proxy, of an assignable type, which is the only such one or the only primary one |
| `GraphBuild.Build` | graph/graph.go:27-52 | nodes sorted, and for each the sorted edges to the other known components it was resolved to, once each |
| `GraphBuild.Adjacency` | graph/graph.go:39-49 | the inner loop: unknown ids, repetitions and self-edges are dropped |
| `GraphBuild.BuildIsCanonical` | graph/graph.go:27-52 | permuting components or their parameters leaves the graph and the construction order identical |
| `Ordering.LessIsLexicographic` | graph/graph.go:27-52 | the order of ids is that of the first character in which they differ, a shorter one coming first |
| `TopologicalSort.Traversal.Visit` | graph/topological_sort.go:29-47 | the recursive walk on its colours, stack and order does what the walk on values does |
| `TopologicalSort.Traversal.FindCycle` | graph/topological_sort.go:75-84 | the stack from the first occurrence of the start |
| `TopologicalSort.ComputeConstructionOrder` | graph/topological_sort.go:18-56 | the whole computation on mutable state equals the function |
| `TopologicalSort.ConstructionOrderCorrect` | graph/topological_sort.go:18-56 | an order is returned exactly when the graph is acyclic; it lists every node once, dependencies first; otherwise the path is a cycle without repetition |
| `WalkOrder.FirstNodesFirst` | graph/topological_sort.go:18-56 | among the possible orders: what the first nodes need, directly or not, is a front part of the order, however many of them one takes |
| `WalkOrder.EarlierUnlessNeeded` | graph/topological_sort.go:18-56 | so a node is built before a later one, unless that is needed by it or by a node in front of it |
| `TopologicalSort.CycleFromStackCorrect` | graph/topological_sort.go:75-84 | the path is found on the stack, so the fallback is never reached |
| `TopologicalSort.ComputeShutdownOrder` | graph/topological_sort.go:61-71 | the reverse of the construction order, or the cycle |
| `TopologicalSort.ShutdownOrderCorrect` | graph/topological_sort.go:58-71 | every node once, and every node before its dependencies |
| `Imports.Imports.Add` | generator/di/imports.go:33-54 | the probing loop ends with the first free alias; the two maps stay inverse to each other |
| `Imports.AddResolves` | generator/di/imports.go:33-54 | an alias leads back to the package it was asked for and is new unless the package was there |
| `Imports.RegisteredIsValid` | generator/di/imports.go:33-54 | over any sequence of registrations paths and aliases correspond one to one and no alias changes |
| `Imports.FirstNamedGetsAlias` | generator/di/imports.go:33-54 | a name without a digit at the end becomes the alias of the first registered package that asks for it, and of no other |
| `Imports.NamesComeFromPath` | generator/di/imports.go:33-117 | the first name tried is that of the package, or the last segment of its path if it has none; an import line leaves the alias out exactly when it is the last segment |
| `Imports.Imports.RenderBlock` | generator/di/imports.go:87-109 | the lines of the import block, sorted by path, without the alias where it is the last segment |
| `Naming.SanitizeIdent` | generator/di/di.go:357-368 | the loop that drops characters |
| `Naming.CandidatesAre` | generator/di/di.go:334-387 | a local is made from the letters, underscores and digits of the name, digits not in front, the first letter small, with an underscore behind a keyword, and called component if nothing is left; a field the same with a capital |
| `Naming.Unique` | generator/di/di.go:372-379 | the first of the candidate, candidate2, candidate3, ... that is unused; the loop ends because only finitely many are used |
| `Naming.AssignNames` | generator/di/di.go:128-149 | the loop over the order gives the bindings |
| `Naming.AssignIsWellNamed` | generator/di/di.go:128-149 | locals are distinct and avoid every reserved name, fields are distinct, each is made from its component's name |
| `Naming.LocalIsNoKeyword` | generator/di/di.go:382-387 | no local is a Go keyword |
| `Naming.LocalIsIdentifier` | generator/di/di.go:334-368 | a local is a Go identifier exactly when no digit leads once characters are dropped |
| `Naming.FieldIsIdentifier` | generator/di/di.go:346-353 | a field is a Go identifier under the same condition |
| `Naming.LocalIsNotExported` | generator/di/di.go:334-342 | no local begins with a capital, so none hides an exported name |
| `Wiring.RegisterImports` | generator/di/di.go:154-167 | registers the packages of the type, of the constructor and fmt, in this order |
| `Wiring.DetectFeatures` | generator/di/config.go:28-49 | buildComponents needs a source exactly when some constructor is a loader, proxy dependencies when some component is a proxy, a database provider when some constructor is a repository |
| `Wiring.ConstructorArgs` | generator/di/di.go:238-252 | the locals of the resolved parameters, or an error |
| `Wiring.RenderOne` | generator/di/di.go:184-234 | the statement for one component, by the kind of its constructor |
| `Wiring.RenderConstructors` | generator/di/di.go:171-181 | all statements, or the first error |
| `Wiring.Generate` | generator/di/di.go:48-104 | registration, reservation, naming and rendering in this order |
| `WiringCorrect.NamesFit` | generator/di/di.go:128-149 | one binding per component in construction order, found again by its id |
| `WiringCorrect.EmissionSucceeds` | generator/di/di.go:171-252 | with an acyclic graph and everything resolved, emission cannot fail |
| `WiringCorrect.GeneratedStatements` | generator/di/di.go:184-234 | each statement names its component's local, the alias registered up front, and the locals of exactly its dependencies |
| `WiringCorrect.FileIsGenerated` | generator/di/di.go:60-104 | the import table of the file is that of the packages of the components, routes and features, fmt if there is a loader, and what later sections add, in this order |
| `WiringCorrect.ReservedIsNoLocal` | generator/di/di.go:82-98 | no local hides an alias that was registered up front, a parameter or err |
| `WiringCorrect.ReservedAre` | generator/di/di.go:82-94 | reserved are exactly err, out, the parameters of the features, and the aliases registered up front |
| `WiringCorrect.RegisteredUpFront` | generator/di/di.go:62-81 | registered up front are exactly the packages of the components, of the routes and of the features, except the generated package itself |
| `WiringCorrect.NeededIsEarlier` | generator/di/di.go:238-252 | every argument is defined by an earlier statement and refers to it |
| `WiringCorrect.StatementBuildsPlan` | generator/di/di.go:184-234 | a statement that compiles calls the component's own constructor on the objects of its dependencies |
| `WiringCorrect.ExecuteIsConstruct` | generator/di/di.go:184-234 | running a body that compiles is building the components in order, with every choice of failing constructors; what it returns at the end is that, unless a local is called nil |
| `WiringCorrect.FieldHoldsComponent` | generator/di/di.go:272-284 | the field of a component holds the object built for it |
| `WiringMeaning.ConstructBuildsEachOnce` | generator/di/di.go:171-181 | such a run builds each component exactly once, or stops at the first that fails, after exactly those before it |
| `WiringExact.LocalExistsIff` | generator/di/di.go:128-149 | one of the first locals is x exactly when x is not reserved and one of the first components asks for it |
| `WiringExact.FirstAskerGetsName` | generator/di/di.go:128-149 | a name that is not reserved goes to the first component that asks for it |
| `WiringExact.CompilesIffHygienic` | generator/di/di.go:44-104 | the file compiles exactly when its import lines declare their aliases, no package-level name is declared twice, nothing is called error, every local and field is a name, no callee is hidden, fmt comes first where an error is wrapped, and nil is nobody's or a last error's: all conditions on the input |
| `WiringExact.SharedNameNeverCompiles` | generator/di/config.go:75-97 | two components for which one package-level name is generated, by a loader, a repository or a proxy, never compile |
| `WiringExact.GeneratedCalleeIsVisible` | generator/di/di.go:193-218 | loaders, repositories and proxies are always found by the calls of their constructors |
| `WiringExact.NilCompilesOnlyAsAnError` | generator/di/di.go:334-342 | with a component that asks for nil the file compiles only if the first such implements error and nothing from it on can fail |
| `WiringExact.NilNeverCompiles` | generator/di/di.go:334-342 | if the components that ask for nil do not implement error, it never compiles |
| `WiringExact.TakenBeforeIff` | generator/di/di.go:128-149 | the name a call says is hidden by an earlier local exactly when, for a name without a digit at the end, it is not reserved and an earlier component asks for it |
| `WiringExact.NilMisreports` | generator/di/di.go:272-284 | if it compiles, no run reports a finished construction |
| `WiringExamples.ShopIsValid` | compiler/proxy.go:124-150 | an application with an intercepted service, its proxy, a generated repository and a configuration is a valid input |
| `WiringExamples.ShopCompiles` | generator/di/di.go:44-104 | its generated file compiles |
| `WiringExamples.TwoConfigsFail` | compiler/lifecycle.go:30-50 | two configurations of one name in two packages do not compile |
| `WiringExamples.SecondConfigFails` | generator/di/imports.go:101-104 | packages a/config and b/config2, both called config, do not compile |
| `WiringExamples.OtherFmtFails` | generator/di/di.go:227-231 | a package x/fmt before a constructor that can fail does not compile |
| `WiringExamples.NilFails` | generator/di/di.go:334-342 | a component called Nil whose type is no error does not compile |
| `WiringExamples.NilIsMistaken` | generator/di/di.go:272-284 | the file of a single component called Nil whose type implements error compiles, and every run returns the component as the error |
| `WiringExamples.LeadingDigitFails` | generator/di/di.go:355-368 | a component called -9lives does not compile |
| `WiringExamples.HiddenFunctionFails` | generator/di/di.go:221-223 | a component called Store before a constructor store of the generated package does not compile |
| `WiringTheorem.PipelineIsValid` | generator/di/di.go:48-52 | resolution without diagnostics and an acyclic graph are all that generation needs |
| `WiringTheorem.WiringIsCorrect` | generator/di/di.go:44-104 | the whole: no diagnostics and no cycle imply that emission succeeds, that the file compiles exactly when the input is hygienic, and that it then builds each component once with exactly the instances its dependencies resolved to |
| `Lifecycle.Lifecycle.Register` | runtime/lifecycle.go:46-48 | appends the hooks |
| `Lifecycle.Lifecycle.Start` | runtime/lifecycle.go:58-72 | the loop with rollback on the object's fields |
| `Lifecycle.Lifecycle.StopStarted` | runtime/lifecycle.go:84-97 | the loop from the last to the first; every failure is collected; nothing remains started |
| `Lifecycle.Lifecycle.Stop` | runtime/lifecycle.go:77-81 | the same for a shutdown |
| `Lifecycle.StartIsAllOrNothing` | runtime/lifecycle.go:53-72 | a start brings up components in order as long as their start hooks succeed; if one fails, exactly everything started is stopped, last first, and the rollback reports exactly the stop hooks that fail |
| `Lifecycle.StopIsExact` | runtime/lifecycle.go:77-97 | a shutdown takes down everything that is started, last first, whatever fails, and reports exactly the stop hooks that fail, in that order |
| `Lifecycle.StartsAndStopsBalance` | runtime/lifecycle.go:58-97 | over every run of register, start and stop, initialisations minus stops is the multiplicity in started |
| `LifecycleOrder.BuildLifecycle` | generator/di/app.go:25-34 | registers exactly the components with hooks, in construction order |
| `LifecycleOrder.RegisteredIsExact` | generator/di/app.go:25-34 | registered is exactly what has one of the two hooks, once, in construction order, with the hooks it has |
| `LifecycleOrder.HooksRespectDependencies` | generator/di/app.go:11-34 | at every point of every run a component is up at most as often as anything it depends on, directly or through components without hooks, strictly less often while it is starting or its dependency is being stopped |
| `SqlCompile.ScanName` | sqlgen/compile.go:71-80 | the name behind a colon, without trailing dots, and where it ends |
| `SqlCompile.Compile` | sqlgen/compile.go:22-66 | the scanning loop produces the text and parameters of the pieces |
| `SqlCompile.BuiltinDialectsAreInert` | sqlgen/dialect.go:18-42 | no placeholder of a built-in dialect can be taken for a parameter, a cast or a quote, as the results about any dialect require |
| `SqlCompile.NamedIsInput` | sqlgen/compile.go:22-66 | putting the names back at the placeholders recovers the input exactly |
| `SqlMeaning.NameIsUnique` | sqlgen/compile.go:68-88 | a place has at most one name: letters, digits, underscores and dots as far as they go, but for dots at the end |
| `SqlMeaning.PiecesAreExact` | sqlgen/compile.go:22-88 | the SQL is divided exactly at its parameters: colons that lie outside string literals, belong to no cast and start a name, with the whole of that name |
| `SqlMeaning.ParamsAreExact` | sqlgen/compile.go:22-88 | the parameters, in order, are exactly the names behind these colons; the dialect plays no role |
| `SqlMeaning.CompileIsIdempotent` | sqlgen/compile.go:22-66 | compiling the output, in any dialect, finds no parameter and changes nothing |
| `SqlDrivers.ReadsAsMeantIfClean` | sqlgen/compile.go:22-66 | for $n, @pn and ? alike: a driver reads the emitted text as the SQL's text with its parameters exactly when the SQL has no placeholder of its own and no parameter that touches a word; otherwise somewhere text is taken for a parameter or a parameter for text |
| `SqlDrivers.QuestionMarksAreReadAsIntended` | sqlgen/compile.go:22-66 | with ? the condition is that the SQL has no question mark outside string literals |
| `SqlDrivers.PostgresMisreads` | sqlgen/compile.go:22-66 | a $1 of the user's own, a parameter behind a letter and one in front of a $ are not clean |
| `SqlArguments.SqlArgs` | generator/di/repository.go:242-262 | one argument expression per parameter, in order; also the batch form of lines 122-147 |
| `SqlArguments.ArgDenotes` | generator/di/repository.go:122-147 | an argument expression evaluates exactly when its base is a parameter, to what the reference denotes |
| `SqlArguments.GeneratedCallMeansSql` | generator/di/repository.go:93-147 | the evaluated arguments, bound to the placeholders that the driver reads in the emitted text, give the SQL with the method's arguments, or the batch item, for their names, exactly when the SQL is clean |
| `CircuitBreaker.CircuitBreaker.AllowCall` | runtime/circuitbreaker.go:92-113 | the state machine's admission on the object's fields |
| `CircuitBreaker.CircuitBreaker.RecordOutcome` | runtime/circuitbreaker.go:116-140 | the state machine's reaction to an outcome |
| `CircuitBreaker.RunKeepsInv` | runtime/circuitbreaker.go:82-147 | the invariant holds under every interleaving of callers |
| `CircuitBreaker.EnterIsExact` | runtime/circuitbreaker.go:92-113 | after every run a call is admitted exactly when the breaker is closed, or open since at least the reset timeout, or half-open with fewer probes than the maximum in flight |
| `CircuitBreaker.LeaveIsExact` | runtime/circuitbreaker.go:116-147 | after every run, what a return does, from the outcomes since the breaker closed or opened: a late success does not close an open breaker |
| `CircuitBreaker.ClosesExactlyOnProbe` | runtime/circuitbreaker.go:131-139 | a step closes the breaker exactly when it is a successful return in half-open |
| `CircuitBreaker.OpenAdmitsNobody` | runtime/circuitbreaker.go:92-147 | from every reachable open state, a run before the reset timeout is over admits nobody and leaves it open, whatever returns |
| `CircuitBreaker.TripsExactlyAtThreshold` | runtime/circuitbreaker.go:116-147 | a closed breaker opens exactly when the latest outcomes since it closed are threshold failures |
| `CircuitBreaker.HalfOpenCountsProbes` | runtime/circuitbreaker.go:92-113 | failures stay below the threshold; half-open means that exactly halfOpenReqs calls admitted in this episode, from one to the maximum, are still in flight |
| `CircuitBreaker.NeverWedges` | runtime/circuitbreaker.go:82-147 | half-open always has a call whose return decides; open admits once the timeout is over |
| `CircuitBreaker.WindowBound` | runtime/circuitbreaker.go:92-113 | between a trip and the next close no window shorter than the reset timeout admits more than the maximum |
| `RateLimit.WithDefaults` | runtime/ratelimit.go:59-77 | the default is 100 calls per second, and the burst that of the limit; a valid configuration is kept |
| `RateLimit.TokenBucket.TakeToken` | runtime/ratelimit.go:87-105 | refill and take on the object's fields |
| `RateLimit.WindowBound` | runtime/ratelimit.go:79-105 | any stretch of a run from time s to t admits at most burst plus limit times (t - s) over period calls |
| `RateLimit.AdmittedExactlyWithinBounds` | runtime/ratelimit.go:79-105 | for any clock, a call is admitted exactly when for every stretch of calls up to it those admitted and this one are at most burst plus limit times f over period, f being how far the clock went forward in the stretch |
| `RateLimit.AdmittedIff` | runtime/ratelimit.go:79-105 | the same with a clock that does not run backwards, in the times of the calls |
| `RateLimit.FirstBurstIsAdmitted` | runtime/ratelimit.go:59-105 | a new bucket admits its first burst of calls, whenever they come |
| `RateLimit.IdleTimeIsCredited` | runtime/ratelimit.go:87-105 | after a time without calls, n calls, however close together, are all admitted when n is at most the burst and at most limit times that time over period |
| `RateLimit.NoPolicyAdmitsMore` | runtime/ratelimit.go:79-105 | no policy that obeys the same bucket admits more calls in any prefix of the arrivals |
| `RateLimit.NoBoundedPolicyAdmitsMore` | runtime/ratelimit.go:79-105 | no policy at all that keeps within these bounds admits more calls in any prefix of the arrivals |
| `RateLimit.AnyClockBound` | runtime/ratelimit.go:79-105 | for any clock, at most burst plus limit times f over period calls, f being how far the clock went forward in the stretch |
| `RateLimit.BackwardClockBreaksTheBound` | runtime/ratelimit.go:91-95 | with an injected clock that runs backwards the window bound fails, and the bound for any clock is attained |
| `Gates.Bulkhead.TryAcquire` | runtime/bulkhead.go:66-72 | takes a slot if one is free |
| `Gates.Bulkhead.Release` | runtime/bulkhead.go:60-60 | gives the slot back |
| `Gates.RunKeepsBalance` | generator/di/proxy.go:259-294 | in every interleaving, held slots equal calls inside and never exceed the maximum, admitted calls are recorded or behind the breaker, tokens spent equal body runs |
| `Gates.StartIsBalanced` | generator/di/proxy.go:259-294 | so every run from the start keeps this balance |
| `Gates.EntersExactlyBelowMax` | runtime/bulkhead.go:53-72 | in every run an arriving call gets a slot exactly when fewer calls than the maximum are inside |
| `GatesRuns.BreakerRunsOnItsOwn` | runtime/circuitbreaker.go:82-89 | inside every run of the composed gates the breaker goes through a run of its own, with the same calls behind it |
| `GatesRuns.BreakerBoundsWindows` | runtime/circuitbreaker.go:92-113 | so inside the gates too no window shorter than the reset timeout admits more than the maximum between a trip and the next close |
| `GatesRuns.BreakerNeverWedges` | runtime/circuitbreaker.go:82-147 | so inside the gates too half-open always has a call behind the breaker, and open admits once the timeout is over |
| `GatesRuns.BreakerClosesExactlyOnProbe` | runtime/circuitbreaker.go:131-139 | inside the gates too only a successful return in half-open closes the breaker |
| `GatesRuns.OpenBreakerStaysShut` | runtime/circuitbreaker.go:92-147 | inside the gates too nobody passes an open breaker before the reset timeout is over, and it stays open, whatever returns |
| `GatesRuns.LimiterRunsOnItsOwn` | runtime/ratelimit.go:79-105 | inside every run the bucket decides as on its own at the times it is asked, and a body starts exactly when it gives a token |
| `GatesRuns.LimiterBoundsWindows` | runtime/ratelimit.go:79-105 | so its window bound holds for the bodies that start |
| `GatesRuns.CallPassesGates` | generator/di/proxy.go:259-294 | whatever others do, between arriving and leaving a call is turned away by the breaker and touches nothing inside, or is turned away by the limiter, which the breaker records as a failure, or runs its body once |
| `GatesRuns.RejectedCallTouchesNothingInside` | generator/di/proxy.go:259-294 | over the whole of a run, none of the steps of a call that the breaker turns away changes the breaker, the bucket or their counts |
| `Gates.RateLimitingTripsTheBreaker` | runtime/circuitbreaker.go:82-89 | a limiter rejection is recorded as a failure and can open the breaker without spending a token |
| `Cache.MemoryCache.Get` | runtime/cache.go:43-62 | a live entry is returned, an expired one is a miss and is removed |
| `Cache.MemoryCache.Set` | runtime/cache.go:65-76 | stores the value with its expiry |
| `Cache.MemoryCache.Delete` | runtime/cache.go:79-84 | removes the key |
| `Cache.SetIsServedForItsTtl` | runtime/cache.go:43-76 | under every interleaving, as long as nobody sets or deletes the key again, a lookup after a Set finds its value exactly when the ttl is not positive or not over |
| `Cache.DeleteStaleIsInvisible` | runtime/cache.go:50-57 | under every interleaving the delayed delete of a Get removes no live entry, so no later lookup can tell |
| `Cache.HitIsLinearizableAtRead` | runtime/cache.go:43-62 | a hit is what an instantaneous Get at the read step returns |
| `Cache.MissIsLinearizableAtRead` | runtime/cache.go:44-49 | a miss without an entry is what an instantaneous Get at the read step returns |
| `Cache.MissIsLinearizableIff` | runtime/cache.go:43-62 | in every run, a miss at the delete phase is what an instantaneous Get between the read and the end would have returned exactly when the calls of Set and Delete did not keep the key alive all the time; in particular when no Set takes effect before the entry that was read expires |
| `Cache.MissNeedNotBeLinearizable` | runtime/cache.go:44-57 | a miss is possible although the key was live at every instant of the call |
| `CacheKey.ParseCacheKey` | model/proxy.go:21-35 | the loop over the matches produces the segments |
| `CacheKey.ParseLosesNothing` | model/proxy.go:18-35 | writing the segments gives the template back |
| `CacheKey.ParseInvertsRender` | model/proxy.go:18-35 | templates and canonical segment lists correspond one to one |
| `CacheKey.ResolveCacheKey` | compiler/proxy.go:305-326 | the loops with the index map resolve every placeholder to the last parameter of that name, or report it |
| `CacheKey.KeyFillsTemplate` | generator/di/proxy.go:196-215 | the key is the template with the named arguments filled in; a name is reported exactly when it is no parameter |
| `CacheKeyAmbiguity.SeparatedIsUnambiguous` | generator/di/proxy.go:196-215 | for parameters that print any sets of texts: keys determine the texts of the parameters they mention when every separator has a character that the parameter in front of it never prints, up to some place, and one that the parameter behind it never prints from there on; parameters may be mentioned repeatedly |
| `CacheKeyAmbiguity.TwoParametersIff` | generator/di/proxy.go:196-215 | for two parameters that print all texts over their characters, exactly: the separator has a character that one of them never prints, or it is empty and they share no character |
| `CacheKeyAmbiguity.OneAlphabetIff` | generator/di/proxy.go:196-215 | for any number of parameters that print all texts over the same characters, each mentioned once, exactly: every separator has a character outside of these, or there are none |
| `CacheKeyAmbiguity.StringKeysAreUnambiguousIffOneParameter` | generator/di/proxy.go:196-215 | for string parameters, none mentioned twice, keys are unambiguous exactly when at most one is mentioned |
| `CacheKeyAmbiguity.RepetitionMayTellApart` | generator/di/proxy.go:196-215 | the key #{a}0#{b}#{a}1#{b} of two string parameters, which mentions both twice, is unambiguous |
| `CacheKeyAmbiguity.OneParameterIsUnambiguous` | generator/di/proxy.go:196-215 | a key that mentions one parameter, however often, determines its printed text, whatever it can print |
| `CacheKeyAmbiguity.DeterminesArgumentsIff` | generator/di/proxy.go:196-215 | for arguments of any types and any way of printing them: keys determine the arguments exactly when they determine the printed texts and no parameter they mention prints two of its arguments alike |
| `CacheKeyAmbiguity.IntsAroundOneString` | generator/di/proxy.go:196-215 | keys of integers, and among them at most one string, determine the arguments when every separator has a character that is neither a digit nor a minus sign |
| `CacheKeyAmbiguity.TemplateGivesPair` | compiler/proxy.go:305-326 | the template #{a}:#{b} resolves to its two parameters with the colon between them |
| `CacheKeyAmbiguity.PairWithIntIsDetermined` | generator/di/proxy.go:196-215 | so the key #{a}:#{b} of two integers, or of an integer and a string, is unambiguous |
| `CacheKeyAmbiguity.PairOfStringsIsAmbiguous` | generator/di/proxy.go:196-215 | the same key of two strings is not |
| `CacheKeyAmbiguity.SliceIsAmbiguous` | generator/di/proxy.go:196-215 | a key that mentions one slice of strings determines its text but not the slice |
| `CachedProxy.CacheKeyIsTheTemplate` | compiler/testdata/cacheapp/cacheapp.go:32-40 | the generated key expression is the annotated template filled in |
| `CachedProxy.StoreServiceProxy.Get` | internal/cachee2e/wiring.gen.go:50-64 | read-through caching on the cache and the target; the target is called exactly on a miss |
| `CachedProxy.StoreServiceProxy.Put` | internal/cachee2e/wiring.gen.go:66-73 | the target's update, then eviction of the key |
| `CachedProxy.ProxyRefinesTarget` | internal/cachee2e/wiring.gen.go:50-73 | over every sequential run, whatever the clock does, the proxy answers as the bare service, given lossless encoding and failed updates that change nothing |
| `CachedProxy.StoreProxyRefinesStore` | internal/cachee2e/wiring.gen.go:50-73 | in particular for the generated proxy of the store, from an empty cache |
| `CachedProxy.FailedPutMustNotChangeData` | internal/cachee2e/wiring.gen.go:69-71 | an update that fails after changing data leaves a stale entry, so the assumption is needed |
| `Retry.Retry` | runtime/retry.go:25-59 | the loop, over any state that the retried function and the waiting act on |
| `Retry.RetryShape` | runtime/retry.go:25-59 | a run is failed attempts, each followed by its wait, and then a success, the last allowed failure, or a cancelled wait |
| `Retry.LaterDelaysAreCapped` | runtime/retry.go:51-56 | with backoff, every wait but the first is within the cap |
| `Retry.AllDelaysCappedIff` | runtime/retry.go:25-59 | the waits of every run, whatever succeeds or is cancelled, are within the cap exactly when there is only one attempt or the first delay is |
| `Retry.DelaysGrow` | runtime/retry.go:51-56 | waits never get shorter when the first is within the cap |
| `Retry.NextWait` | runtime/retry.go:51-56 | each wait is the whole part of the multiplier times the one before, within the cap; without a multiplier above one they are all the same |
| `Retry.WaitsAreExponential` | runtime/retry.go:51-56 | with a whole multiplier m the k-th wait is the delay times m to the k, capped but for the first |
| `Proxy.RenderGatedCore` | generator/di/proxy.go:263-294 | the loop over the gates nests them, the limiter innermost and the bulkhead outermost, with the right context arguments |
| `Proxy.RenderInterceptedMethod` | generator/di/proxy.go:107-194 | the statements of the method in the fixed order |
| `ProxyMeaning.GatedIsUngated` | generator/di/proxy.go:158-172 | for every choice of authorization, retry and transaction, the gated core with gates that admit has the same results, error and events as the ungated one |
| `ProxyMeaning.GatesThatAdmitChangeNothing` | generator/di/proxy.go:107-331 | the same for the whole call |
| `ProxyMeaning.GatesAreAskedInOrder` | generator/di/proxy.go:263-294 | from the flags alone: the bulkhead, the breaker and the limiter are asked in this order, each exactly when the method wants it and the ones before let the call through; at the first that rejects, the core is its rejection and its error; if all let it through, the core is that without gates |
| `ProxyMeaning.CoreIsMeant` | generator/di/proxy.go:218-331 | the rendered core has exactly the events, results and error that the flags ask for: gates, authorization, attempts with their waits, and a transaction around each |
| `ProxyMeaning.CoreShape` | generator/di/proxy.go:218-331 | the core is a rejection by the first wanted gate that rejects, a denial, or the allowed attempts; the error says which |
| `ProxyMeaning.RetryWork` | generator/di/proxy.go:237-246 | retries stay within the limit, follow failures only, and end with success, the limit or cancellation |
| `ProxyMeaning.TargetRunsWithinLimit` | generator/di/proxy.go:218-331 | in every call the target runs at most max(1, MaxAttempts) times, and not at all when the cache answers or a gate or the authorizer says no |
| `ProxyMeaning.EachRunHasItsOwnTransaction` | generator/di/proxy.go:230-246 | in the events of every call, every run of a transactional target is framed by a transaction of its own, committed or rolled back as its error says |
| `ProxyMeaning.CallsAreWellBracketed` | generator/di/proxy.go:107-194 | span, log and audit complete once each, in reverse order of opening, with the error returned; exactly one metric when timed; cache updates only after success |
| `ProxyMeaning.HitAnswersAtOnce` | generator/di/proxy.go:125-130 | on a cache hit nothing else happens |
| `ProxyMeaning.CallIsMeant` | generator/di/proxy.go:107-194 | otherwise, from the flags alone, the whole call: the lookup, what opens, the core, what its outcome calls for, and the completions, with its results and its error |

## Left out

- Text is a sequence of characters, not of UTF-8 bytes: offsets and columns count characters, and invalid UTF-8 does not occur.
- Unicode tables (letters, digits, spaces, printable characters, letter case) are left open; the results hold for any of them.
- CommentRoundTrip.PrintThenParse: excludes floats that are printed without a point and an exponent, as 2.0 is (annotation/value.go:95-97), which WholeFloatIsLost shows are lost; the conversions between floats and text are left open, and a float of which the printed text denotes another is excluded too.
- Parser.Parser.ParseValue: does not model the wording of diagnostics, only their code, place and reason.
- SqlDrivers.ReadsAsMeantIfClean: comments, double-quoted identifiers, dollar quotes and escape strings are ordinary text, as they are for the code; a run of word characters is one token, also where PostgreSQL would split it.
- Resolver.Analysis.Resolve: components are value records in a list, so aliasing between components is not captured; the copy of the resolved parameters in the constructor is not modelled.
- Type assignability is a parameter; go/types, package loading and discovery are inputs.
- WiringTheorem.WiringIsCorrect: the emitted code is a small statement language with Go's scoping and shadowing, not Go text; formatting and types are not modelled. The result of a failing construction is the error and what had been built.
- WiringExact.CompilesIffHygienic: types are taken to match, imported packages to be used, and the bodies of the other generated functions to compile; of these only the loaders' use of fmt and the package-level names count. A package-level nil or error of the user's own is taken not to serve for the predeclared one. For a function of the generated package whose name ends in a digit, the condition refers to the assigned locals, because making names distinct may have produced it.
- Wiring.DetectFeatures: a repository is recognised by its generated constructor.
- Lifecycle.Lifecycle.Stop: the shutdown timeout and contexts are not modelled; hooks are calls whose outcome may depend on everything before.
- ConditionFixpoint.SettledProvidersMakeItExact: gives the condition in one direction; whether a dropped component's blocker itself survives can depend on the whole run of the fixpoint, so an exact condition would amount to running it.
- CacheKeyAmbiguity.StringKeysAreUnambiguousIffOneParameter: parameters mentioned twice are excluded from the equivalence, because a repetition can remove the ambiguity, as RepetitionMayTellApart shows.
- CacheKeyAmbiguity.SeparatedIsUnambiguous: gives the condition in one direction for arbitrary sets of texts, since keys can also be unambiguous for reasons that lie in how texts of several parameters fit together; TwoParametersIff and OneAlphabetIff are exact. Of the types of Go, only integers, strings and slices of strings are modelled by what they print.
- CachedProxy.ProxyRefinesTarget: sequential calls only; concurrent Get and Put can leave a stale entry (internal/cachee2e/wiring.gen.go:57-60).
- RateLimit.WindowBound: tokens are real numbers, so rounding of floats is not modelled.
- Retry.Retry: delays are unbounded integers, so a product beyond the range of a duration is not modelled; the multiplier is a real number.
- CircuitBreaker.NeverWedges: assumes that calls return; a call that panics skips its record (runtime/circuitbreaker.go:86-87).
- Gates.Bulkhead.TryAcquire: waiting for a slot is trying again; timers are not modelled.
- ProxyMeaning.CallsAreWellBracketed: collaborators are arbitrary functions of the past, so panics inside them are not modelled. Transactions begin, run, and commit or roll back as in adapters/databasesql/databasesql.go.
- The registries that cache breakers, limiters and bulkheads by name, and the renderers of option literals: table-driven.
- HTTP binding, content negotiation, error mapping, authenticators, authorizers, OpenAPI, metrics and validation: thin or table-driven.
- Scheduler, configuration binding and row scanning: they would only add easy members.
- Command line, file writing, go.mod discovery and the database, Redis, OIDC, OpenTelemetry and Prometheus adapters: input and output.
