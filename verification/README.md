# Models of the sharding engine and four state machines of goshared

The repository is a Go library for services. This project models its two parts with the
most logic and proves what they promise.

**The expression-driven sharding engine** (`db/internal/dbsp`). A configuration gives
templates such as `order_tab_${idx}` and lines such as `${idx} := range(0, 10)` and
`${idx} = hash(@{shop_id}) % 10`. Lexer and parser turn the lines into expressions; the
computations are sorted by their dependencies; a rule evaluates them for a sharding key
and renders a database key or a table name. The same rules enumerate all databases and
tables in advance. A table store collects sharding values from entities and queries,
checks that they all lead to one place, and sends the operation there, or asks all tables.

**Four state machines**: the Kafka consumer with retries and dead letters, the shutdown
of the asynchronous producer, the fixed-window rate limiter, and the snowflake id
generator.

## How the project is organised

| file | source | form |
|---|---|---|
| Values, Builtins | `expr/value.go`, `expr/functions.go` | functions |
| Padding, Hashing, TextFunctions, Arithmetic | the same, and the operators of `expr/eval.go` | laws about texts, hashes and values |
| Lexing, Parsing | `expr/lexer.go`, `expr/parser.go` | classes that move a position, against specification functions |
| Grammar, Printing, Negation | the grammar of `expr/parser.go`, given independently, and its inverse | trees and lemmas |
| Evaluation | `expr/eval.go` | functions, and a class for the context |
| Expansion, Sorting, ExpandParsing | `expr/expand.go` | Kahn's algorithm over arrays, methods over lines |
| Templates, TemplateTexts | `expr/template.go` | methods against specification functions; accepted texts put together |
| ShardRules, OrderedEvaluation, Agreement, Enumeration | `sharding_expr_rule.go` | methods that fill a context, and lemmas |
| RuleBuilding | building rules in `sharding_factory.go` | methods, and lemmas about inferred computations |
| DocumentedNames, Representation | names of the documented rules; numbers and their texts | lemmas |
| Queries, QueryLeaves | the query tree of `gorm.go` | a class that fills two maps; paths through the tree |
| TableStore, Placement, RoutingExact, RoutingGaps | routing in `sharding_table_store.go` | methods, and lemmas over sequences of writes |
| CursorScan, ScatterGather | scans in `sharding_table_store.go` | methods with arbitrary histories and completion orders |
| Transactions | transactions in `sharding_factory.go` | functions and lemmas |
| RetryConsumer | `mq/internal/mqsp/advanced_consumer.go` | a class, and runs of deliveries |
| AsyncProducer | `mq/internal/mqsp/producer.go` | a transition system over all interleavings |
| RateLimiter | `http/httphelper/ratelimit.go` | a class, and runs of requests and sweeps |
| Snowflake, SnowflakeThreads | `util/idutil/id.go` | a class and runs of calls; a transition system over all interleavings |

Outcomes, Syntax and Sequences hold shared datatypes and small facts. Methods that change
state are proved equal to a specification function; the promises are lemmas about those
functions. Integers are unbounded in Dafny, so 64-bit wrap-around and truncated division
are written out. The clock, the broker, the processor's verdicts, failing reads and the
order in which workers finish are parameters or free choices, so every statement holds
for all of them.

## Where the code does not keep a promise

- `a % n` takes the sign of a, so the documented `@{shop_id} % 10` sends negative keys to
  tables that are never enumerated. NegativeKeyEscapes says for which shops that happens,
  PercentRoutesInRange for which values.
- `-9223372036854775808` cannot be written in an expression, although every other int64
  can (NumbersCanBeWritten).
- `fill` with a negative width pads on the right; FillReadsBackExactly says for which
  widths the text reads back.
- A routed query can miss rows in four ways. A value of one OR branch is used although
  another branch does not mention the column (UnboundBranchEscapes), or is a condition
  type from outside, which filters but is not extracted (ForeignBranchEscapes). A condition
  passed as the whole query filters but is not extracted, so with an explicit key it is not
  checked against it (BareConditionEscapes). Validation substitutes one column at a time,
  so values of two columns of one rule are not tried together (CrossProductEscapes). Each
  lemma gives the exact condition for its family. RoutingLosesNothing proves that no row is
  lost when the query is a tree that binds every required column in every OR branch and
  each rule reads at most one column with several values; NeverMissesExactly and
  AcceptanceIsExact say what holds in general.
- A batch goes where its first entity goes (BatchKeepsPlacedExactly gives the exact
  condition under which that is right).
- Inferred identity computations are appended after sorting. The order is right if and only
  if no computation reads one of them (InferredInOrder); otherwise the rule resolves no key
  (ReadingInferredNeverResolves).
- Inside a transaction of the default group, entities of other groups follow the default
  group's rules (StrayEntityServed, with a manager where that changes the table in
  StrayEntityChangesTable); SameGroupExactly gives the exact condition.
- Overlapping snowflake calls can return the same id (OverlappingCallsRepeatAnId);
  TidyExactly gives the schedules in which ids increase.
- The guide lists `IsNull` among the conditions that are not extracted; the code extracts
  it as equality with nil, and the model follows the code.

## Model

| member | source | states |
|---|---|---|
| Values.Wrap | db/internal/dbsp/expr/eval.go:139-168 | integer arithmetic is modulo 2^64: the result is the int64 congruent to the exact one, and exact whenever that fits |
| Values.ParsePadded | db/internal/dbsp/expr/value.go:28-40 | reading back any int64 written with its sign in front of any number of padding zeros gives the number |
| Values.ParseFormat | db/internal/dbsp/expr/value.go:28-58 | an integer turned into a string and read as an integer again is unchanged, for every int64 |
| Values.FormatInjective | db/internal/dbsp/expr/value.go:50-58 | different integers have different strings |
| Padding.FormatExactly | db/internal/dbsp/expr/value.go:50-58 | the text of a number is the only one that reads back as it, has a minus exactly when it is negative and digits otherwise, and no zero in front |
| Padding.ParseExactly | db/internal/dbsp/expr/value.go:28-40 | a text reads as v if and only if it is a sign or none followed by digits that denote v, in range |
| RoutingExact.ConvertsExactly | db/internal/dbsp/expr/eval.go:66-83 | the five integer types stand for their numbers, modulo 2^64 and exactly where these fit, and text for itself; nothing else is accepted |
| Builtins.TruncatedDivision | db/internal/dbsp/expr/eval.go:148-164 | division towards zero: the defining identity, the bound on the remainder and its sign |
| Arithmetic.RingOperators | db/internal/dbsp/expr/eval.go:139-147 | for all int64 operands `+`, `-` and `*` have the integer value congruent to the exact one modulo 2^64, which is one int64 (YieldsOne) |
| Arithmetic.DivisionOperators | db/internal/dbsp/expr/eval.go:148-164 | `/` and `%` by anything but 0 give the quotient and remainder of division towards zero, which are unique (DivisionIsUnique); only the smallest integer divided by -1 wraps around |
| Arithmetic.DivisionIsUnique | db/internal/dbsp/expr/eval.go:148-164 | identity, bound and sign leave one quotient and one remainder |
| Arithmetic.OperationSucceedsExactly | db/internal/dbsp/expr/eval.go:139-168 | an operation has a value if and only if both operands read as integers, the operator is one of the five and nothing is divided by 0 |
| Arithmetic.DivIsSlash | db/internal/dbsp/expr/functions.go:108-125 | `div(a, b)` is `a / b` for all operands and environments, errors included |
| Arithmetic.ModOf | db/internal/dbsp/expr/functions.go:85-105 | `mod(a, b)` differs from a by a multiple of b; it is the residue for positive b, and for negative b its range is stated too |
| Arithmetic.ZeroDivides | db/internal/dbsp/expr/eval.go:148-164 | division by 0 has no value as `/`, `%`, `div` or `mod` |
| Builtins.Hash | db/internal/dbsp/expr/functions.go:75-82 | hash values are never negative |
| Hashing.HashDropsOneBit | db/internal/dbsp/expr/functions.go:75-82 | `hash` gives the lower 63 bits of the hash of the text of its argument, so numbers and their texts have one hash |
| Hashing.HashKeepsApart | db/internal/dbsp/expr/functions.go:75-82 | FNV-1a over texts that end alike collides if and only if it collides on what comes before, because no step loses anything |
| Hashing.KnownHashes | db/internal/dbsp/expr/functions.go:75-82 | the published FNV-1a values of two inputs |
| Hashing.EncodingReadsBack | db/internal/dbsp/expr/functions.go:75-82 | the bytes hashed for a character are those that section 3 of RFC 3629 decodes to it |
| Hashing.Utf8Injective | db/internal/dbsp/expr/functions.go:75-82 | different texts have different bytes |
| Builtins.ModIsEuclidean | db/internal/dbsp/expr/functions.go:85-105 | `mod(a, n)` with positive n is the mathematical residue, for negative a too |
| Builtins.FillReadsBack | db/internal/dbsp/expr/functions.go:50-64 | a number padded by `fill` to any width from 0 to 10^6 reads back as itself (the text itself is pinned by PaddedExactly) |
| Padding.PaddedExactly | db/internal/dbsp/expr/functions.go:50-64 | for such a width the padded text is the only one that reads back as the number, has a minus in front exactly when it is negative and nothing else but digits, and is as long as the width or the number needs |
| Padding.OtherWidths | db/internal/dbsp/expr/functions.go:50-64 | a negative width pads with blanks on the right to exactly that length; an excessive one leaves a mark in front of the number |
| Builtins.FillInjective | db/internal/dbsp/expr/functions.go:50-64 | at one such width, numbers padded to the same text are equal |
| Builtins.FillReadsBackExactly | db/internal/dbsp/expr/functions.go:50-64 | for every number and width, padded text reads back as the number if and only if the width is 0 to 10^6, or negative, at least -10^6 and not wider than the number itself |
| Builtins.RightPaddingDoesNotReadBack | db/internal/dbsp/expr/functions.go:50-64 | one input outside that condition: a negative width that does pad, on the right and with blanks, leaves no integer |
| TextFunctions.CallsFailExactly | db/internal/dbsp/expr/functions.go:35-48 | a call fails for an unknown name, or for its number of arguments, if and only if the name is none of the eight or the number is wrong for it |
| TextFunctions.TextCallsSucceed | db/internal/dbsp/expr/functions.go:67-153 | `str`, `hash`, `lower`, `upper` and `concat` accept every value |
| TextFunctions.StrReadsAlike | db/internal/dbsp/expr/functions.go:67-73 | `str` gives text that reads as its argument does, as text and as a number |
| TextFunctions.CaseCalls | db/internal/dbsp/expr/functions.go:127-141 | `lower` gives the only text that differs in case at most and has no upper-case letter; `upper` likewise |
| TextFunctions.ConcatCalls | db/internal/dbsp/expr/functions.go:144-153 | `concat` joins the texts of its arguments in order, for any number of them from two |
| Lexing.Lexer.Peek | db/internal/dbsp/expr/lexer.go:64-69 | the character at the position, or none at the end; the position stays |
| Lexing.Lexer.Advance | db/internal/dbsp/expr/lexer.go:71-75 | moves one character and returns it |
| Lexing.Lexer.SkipWhitespace | db/internal/dbsp/expr/lexer.go:77-81 | stops at the first character that is not white space |
| Lexing.Lexer.ReadIdentifier | db/internal/dbsp/expr/lexer.go:83-89 | reads the longest run of identifier characters |
| Lexing.Lexer.ReadNumber | db/internal/dbsp/expr/lexer.go:120-126 | reads the longest run of digits |
| Lexing.Lexer.ReadBracedName | db/internal/dbsp/expr/lexer.go:91-102 | reads up to the closing brace and moves past it; fails exactly when there is none, and then stands at the end |
| Lexing.Lexer.ReadString | db/internal/dbsp/expr/lexer.go:104-118 | reads up to the unescaped quote and moves past it; fails exactly when there is none, and then stands at the end or, after a final backslash, one past it |
| Lexing.Lexer.ReadToken | db/internal/dbsp/expr/lexer.go:129-221 | yields the next token of the specification and moves just past it, or fails where that fails; on failure the position may be one past the end, never further |
| Lexing.Lexer.Tokenize | db/internal/dbsp/expr/lexer.go:129-221 | yields the token sequence of the specification for every input, and terminates |
| Lexing.TokensAreSpelled | db/internal/dbsp/expr/lexer.go:129-221 | an accepted input is the spelling of its tokens with white space between: nothing is skipped or invented |
| Lexing.SpacedReadsBackFrom | db/internal/dbsp/expr/lexer.go:129-221 | any sequence of lexemes, written with blanks between, is tokenized to exactly that sequence |
| Lexing.LexerImage | db/internal/dbsp/expr/lexer.go:129-221 | a token sequence is the output of the lexer for some input if and only if every token but the end marker is a lexeme |
| Lexing.NamesExactly | db/internal/dbsp/expr/lexer.go:234-240 | a name starts with a letter or underscore, and goes on with those and digits, exactly |
| Parsing.Parser.Peek | db/internal/dbsp/expr/parser.go:17-22 | the current token; the end marker beyond the last |
| Parsing.Parser.Advance | db/internal/dbsp/expr/parser.go:24-28 | returns the current token and moves on, not past the end |
| Parsing.Parser.Expect | db/internal/dbsp/expr/parser.go:30-36 | consumes one token and returns it, and says whether it was of the wanted kind; the end marker may be wanted while it is unread |
| Parsing.Parser.ParseExpression | db/internal/dbsp/expr/parser.go:39-41 | parses a sum |
| Parsing.Parser.ParseAddSub | db/internal/dbsp/expr/parser.go:44-58 | parses a left-associative chain of + and - exactly as the layered specification does |
| Parsing.Parser.ParseMulDivMod | db/internal/dbsp/expr/parser.go:61-75 | parses a left-associative chain of *, / and % |
| Parsing.Parser.ParseUnaryMinus | db/internal/dbsp/expr/parser.go:78-88 | parses at most one minus, as subtraction from zero (what it does to values is MinusNegates) |
| Parsing.Parser.ParseAtom | db/internal/dbsp/expr/parser.go:91-137 | parses a literal, reference, call, bare word or parenthesis |
| Parsing.Parser.ParseFuncCall | db/internal/dbsp/expr/parser.go:140-166 | parses a call with its arguments, or fails |
| Parsing.ParseExpressionString | db/internal/dbsp/expr/parser.go:169-183 | lexes and parses a whole text, and fails when tokens are left over |
| Grammar.SumComplete | db/internal/dbsp/expr/parser.go:39-166 | every sentence of the grammar, followed by what may follow it, is consumed whole and read as what it denotes |
| Grammar.SumSound | db/internal/dbsp/expr/parser.go:39-166 | whatever the parser accepts is a sentence of the grammar that denotes the returned expression |
| Grammar.ParserDecidesGrammar | db/internal/dbsp/expr/parser.go:39-183 | the parser returns e for a token sequence if and only if some tree of the stratified grammar has those tokens and denotes e |
| Negation.MinusNegates | db/internal/dbsp/expr/parser.go:78-88 | if the tokens of an operand parse to an expression with the integer value v, the same tokens after a minus parse to one with the value -v modulo 2^64, in every environment |
| Negation.NumbersCanBeWritten | db/internal/dbsp/expr/parser.go:78-137 | the decimal text of a number parses to an expression with that value if and only if it is not -2^63, whose digits alone are out of range |
| Printing.RoundTrip | db/internal/dbsp/expr/parser.go:169-183 | every expression with a spelling, printed with minimal parentheses, lexed and parsed, comes back unchanged |
| Printing.ParserImage | db/internal/dbsp/expr/parser.go:39-183 | an expression is the result of parsing some text if and only if its literals are non-negative and its names and strings can be spelled |
| Printing.FewestParentheses | db/internal/dbsp/expr/parser.go:39-137 | no way of writing an expression uses fewer parentheses than the printer |
| Evaluation.EvalReadsOnlyRefs | db/internal/dbsp/expr/expand.go:150-181 | the value of an expression depends only on the variables and columns the collectors report |
| Evaluation.EvalIsStrict | db/internal/dbsp/expr/eval.go:86-137 | evaluation succeeds only when every reference is bound, and blames a missing column only when a column it reads is missing |
| Evaluation.EvalContext.SetVar | db/internal/dbsp/expr/eval.go:20-22 | binds one variable and leaves columns alone |
| Evaluation.EvalContext.SetCol | db/internal/dbsp/expr/eval.go:29-31 | binds one column and leaves variables alone |
| Evaluation.EvalContext.CopyTo | db/internal/dbsp/expr/eval.go:40-51 | the target gains the source's entries and keeps its own where both have one |
| Evaluation.EvalContext.LoadColumnsFromMap | db/internal/dbsp/expr/eval.go:55-64 | fails exactly when some field has an unsupported type, and otherwise adds all converted fields, in whatever order the map is visited |
| Sorting.IndexNames | db/internal/dbsp/expr/expand.go:268-272 | maps each name to its last computation |
| Sorting.BuildGraph | db/internal/dbsp/expr/expand.go:258-284 | the arrows are the dependencies, once per reference, and the in-degrees count them |
| Sorting.Release | db/internal/dbsp/expr/expand.go:297-302 | takes one computation's arrows off the in-degrees and queues exactly those that drop to zero |
| Sorting.DrainQueue | db/internal/dbsp/expr/expand.go:293-303 | empties the queue after emitting each computation at most once, all its dependencies before it |
| Sorting.TopoSort | db/internal/dbsp/expr/expand.go:256-311 | success yields a permutation in which each computation follows all others it depends on; failure happens if and only if the dependencies, self-references aside, contain a cycle |
| Expansion.OrderExcludesCycle | db/internal/dbsp/expr/expand.go:256-311 | where such an order exists there is no cycle |
| Expansion.WaitingSetHasCycle | db/internal/dbsp/expr/expand.go:293-308 | computations that all wait for one another contain a cycle, which is what a short result means |
| Expansion.SortedIsInOrder | db/internal/dbsp/expr/expand.go:256-311 | with unique names the sorted list holds the same computations, each after those it reads |
| ExpandParsing.DeclOf | db/internal/dbsp/expr/expand.go:201-249 | an accepted declaration has the given name, and values: a non-empty enum or a range whose start is below its end |
| ExpandParsing.ParseDeclRHS | db/internal/dbsp/expr/expand.go:201-249 | returns d if and only if d has the given name and the text means d: an enum lists its trimmed, non-empty values between commas, a range has two integers around its first comma, the first one smaller |
| ExpandParsing.DeclOfExactly | db/internal/dbsp/expr/expand.go:201-249 | the same if and only if for the specification function, where a declaration text is described without searching it |
| ExpandParsing.RangeReadsBack | db/internal/dbsp/expr/expand.go:219-246 | `range(a, b)`, written out for any a below b, reads back as that range |
| ExpandParsing.EnumReadsBack | db/internal/dbsp/expr/expand.go:203-218 | `enum(..)`, written out for any values without commas or outer blanks, reads back as those values in order |
| ExpandParsing.ListedExactly | db/internal/dbsp/expr/expand.go:203-218 | the values of an enum are its parts without the blanks around them, blank parts left out, in order |
| TemplateTexts.TrimExactly | db/internal/dbsp/expr/expand.go:55-59 | trimming gives the only text between blanks that neither starts nor ends with one |
| ExpandParsing.ParseLine | db/internal/dbsp/expr/expand.go:55-97 | returns an item if and only if the line means it: blank, `${name} := declaration` or `${name} = expression`, described by how the text is put together rather than by how it is searched |
| ExpandParsing.ItemMeans | db/internal/dbsp/expr/expand.go:55-97 | whatever a line is read as is something it means |
| ExpandParsing.MeaningIsItem | db/internal/dbsp/expr/expand.go:55-97 | a line is read as whatever it means, so no line means two things |
| ExpandParsing.WhiteSpaceAround | db/internal/dbsp/expr/expand.go:55-64 | the six white-space characters around a line do not matter, and any other character does |
| ExpandParsing.ValidationIsExact | db/internal/dbsp/expr/expand.go:129-148 | an expression that passes validation never fails for an unknown function, and one that does not pass has no value in any environment |
| ExpandParsing.ParseExpands | db/internal/dbsp/expr/expand.go:52-127 | accepts if and only if all lines are well formed, declared names differ, called functions exist and there is no cycle; then it returns the declarations in order and the computations sorted |
| ExpandParsing.CollectRequiredColumns | db/internal/dbsp/expr/expand.go:185-197 | lists the columns of all computations, each once, in order of first use |
| ExpandParsing.RequiredColumnsAreThoseRead | db/internal/dbsp/expr/expand.go:167-197 | a column is required if and only if some computation reads it |
| OrderedEvaluation.OrderedIsDeclarative | db/internal/dbsp/sharding_expr_rule.go:42-55 | running the sorted computations in sequence succeeds if and only if demand-driven evaluation of the equations does for every variable, and leaves exactly those values |
| OrderedEvaluation.SameRun | db/internal/dbsp/sharding_expr_rule.go:185-192 | two valid orders of the same computations give the same result |
| OrderedEvaluation.ReorderedLinesParse | db/internal/dbsp/expr/expand.go:52-127 | with unique names, lines that are accepted are accepted in every order |
| OrderedEvaluation.LineOrderIrrelevant | db/internal/dbsp/sharding_expr_rule.go:176-193 | and permuting them never changes the name any key resolves to |
| RuleBuilding.BuildExprDbRule | db/internal/dbsp/sharding_factory.go:73-86 | succeeds if and only if the template and the lines parse; the rule then has that template, the parsed lines and the inferred identities after them |
| RuleBuilding.BuildExprTableRule | db/internal/dbsp/sharding_factory.go:88-98 | succeeds if and only if the template and the lines parse, and yields their rule |
| RuleBuilding.InferredInOrder | db/internal/dbsp/sharding_factory.go:309-337 | after inference the computations are in dependency order if and only if no written computation reads an inferred variable |
| RuleBuilding.BuiltRuleIsDeclarative | db/internal/dbsp/sharding_factory.go:309-337 | a database rule as built runs if and only if no written computation reads an inferred variable and all its equations, inferred ones included, have a meaning; then it leaves exactly those values |
| RuleBuilding.BuiltRulesIgnoreLineOrder | db/internal/dbsp/sharding_factory.go:73-86 | database rules built from the same lines in different orders resolve every key to the same name, or both fail |
| Templates.ExtractBraced | db/internal/dbsp/expr/template.go:96-112 | finds the brace that closes the hole, nesting counted |
| Templates.ParseTemplate | db/internal/dbsp/expr/template.go:32-74 | reads literals and holes as specified, and fails where the specification fails |
| Templates.RenderTemplate | db/internal/dbsp/expr/template.go:115-130 | concatenates literals and values, and fails on the first hole without one |
| Templates.RenderNeedsHoles | db/internal/dbsp/expr/template.go:115-141 | rendering succeeds if and only if every collected variable has a value |
| Templates.RenderReadsHoles | db/internal/dbsp/expr/template.go:115-141 | the text depends only on the collected variables |
| Templates.DistinctHolesDistinctNames | db/internal/dbsp/expr/template.go:115-130 | two fillings that differ as text in one hole only render differently, however often and wherever it occurs |
| Templates.TemplateRoundTrip | db/internal/dbsp/expr/template.go:32-74 | every normal template, written out, parses back to itself |
| TemplateTexts.TemplateExactly | db/internal/dbsp/expr/template.go:32-74 | a text is accepted as a template t if and only if it spells t: literal texts that open no hole and do not follow each other, and holes of one identifier with blanks around it |
| ShardRules.RunAll | db/internal/dbsp/sharding_expr_rule.go:42-55 | the loop over the computations stops at the first failure and otherwise leaves the context of the strict run |
| ShardRules.RunSatisfiable | db/internal/dbsp/sharding_expr_rule.go:222-231 | the enumeration loop leaves the context of the run that skips failing computations |
| ShardRules.ResolveDatabaseTargetKey | db/internal/dbsp/sharding_expr_rule.go:27-55 | the database key of a sharding key, or an error, for expression rules and rules bound to a transaction |
| ShardRules.ResolvePhysicalTable | db/internal/dbsp/sharding_expr_rule.go:176-193 | the table name of a sharding key, or an error |
| ShardRules.NewExprTableRule | db/internal/dbsp/sharding_expr_rule.go:143-170 | the index variable is the first range, or the first enum without ranges, and the shard count the number of its values |
| ShardRules.EnumerateShardName | db/internal/dbsp/sharding_expr_rule.go:199-234 | the enumerated name for an index, or an error outside the count |
| ShardRules.EnumerateNamesRecursive | db/internal/dbsp/sharding_expr_rule.go:73-119 | the names of all choices of declared values, extending the given context, which is left as it was |
| ShardRules.EnumerateDbNames | db/internal/dbsp/sharding_expr_rule.go:59-66 | the names of all databases, or an error without declarations |
| DocumentedNames.DocumentedName | db/internal/dbsp/sharding_expr_rule.go:176-193 | the documented table rule names `order_tab_` followed by the index, padded to eight characters in the way PaddedExactly pins |
| DocumentedNames.ModName | db/internal/dbsp/sharding_expr_rule.go:176-193 | with `mod(@{c}, n)` as index that is the residue of the column's number, for every key and column type |
| DocumentedNames.HashName | db/internal/dbsp/sharding_expr_rule.go:176-193 | with `hash(@{c}) % n` it is the hash of the column's text, reduced |
| DocumentedNames.QuotientName | db/internal/dbsp/sharding_expr_rule.go:176-193 | with `@{c} / m` it is the column's number divided towards zero |
| Representation.EvaluatedAlike | db/internal/dbsp/expr/eval.go:86-168 | no expression tells a number from its decimal text: in environments that hold the same texts it has values with the same text, or fails alike |
| Representation.RepresentationDoesNotMatter | db/internal/dbsp/sharding_table_store.go:210-225 | whatever the rules, keys whose columns hold the same numbers or texts, in whatever types, lead to the same target |
| Representation.NumberOrText | db/internal/dbsp/sharding_table_store.go:210-225 | in particular an id may be held as an int64 or as decimal text |
| Agreement.EvaluatorsAgree | db/internal/dbsp/sharding_expr_rule.go:176-234 | whenever a key resolves, the skipping run with the routed values pinned renders the very same text, although it cannot evaluate what needs the key |
| Agreement.ResolvedIsEnumerated | db/internal/dbsp/sharding_expr_rule.go:176-234 | a key whose routed index is the k-th declared value resolves, to exactly the k-th enumerated name |
| Agreement.EnumeratedNamesDiffer | db/internal/dbsp/sharding_expr_rule.go:199-234 | two indexes have one table name if and only if their declared values are equal, for a range or an enum, when the template shows the value: plain, or, for a range, padded to a width up to 10^6 |
| Agreement.ModRoutesInRange | db/internal/dbsp/expr/functions.go:85-105 | an index computed as `mod(_, n)` is one of 0 .. n-1 |
| Agreement.HashRoutesInRange | db/internal/dbsp/expr/functions.go:75-82 | an index computed as `hash(_) % n` is one of 0 .. n-1 |
| Agreement.PercentRoutesInRange | db/internal/dbsp/expr/eval.go:155-164 | an index computed as `a % n` is one of 0 .. n-1 if and only if a is non-negative or a multiple of n |
| Enumeration.NameOfChoice | db/internal/dbsp/sharding_expr_rule.go:73-119 | the enumeration has one name per choice of declared values, as many as the product of the counts, and holds each choice's name at the choice's place |
| Enumeration.LexicographicOrder | db/internal/dbsp/sharding_expr_rule.go:73-119 | places are ordered lexicographically, and different choices have different places |
| Enumeration.EveryPlaceChosen | db/internal/dbsp/sharding_expr_rule.go:73-119 | every place belongs to some choice |
| Enumeration.EnumerationSucceeds | db/internal/dbsp/sharding_expr_rule.go:73-119 | enumeration succeeds if and only if every choice can be named |
| Enumeration.RoutedDbIsEnumerated | db/internal/dbsp/sharding_expr_rule.go:27-119 | every key for which the computations succeed and give declared values resolves, to a name in the enumeration, when every declared hole is computed |
| Enumeration.InferenceComputesHoles | db/internal/dbsp/sharding_factory.go:309-337 | and after inference every declared hole is computed |
| Placement.RoutedDbIsFound | db/internal/dbsp/sharding_table_store.go:367-403 | so a key of that kind finds its target among databases that are keyed by the enumerated names |
| Enumeration.IdentityText | db/internal/dbsp/sharding_factory.go:325-336 | the inferred text `@{v}` parses to the column v |
| Enumeration.AutoInferIdentityComputes | db/internal/dbsp/sharding_factory.go:309-337 | appends `${v} = @{v}` for each hole that is declared and not computed |
| Enumeration.InferredAreIdentities | db/internal/dbsp/sharding_factory.go:325-336 | exactly the identity computations of declared, uncomputed holes are inferred |
| Enumeration.DeclaredHolesComputed | db/internal/dbsp/sharding_factory.go:309-337 | afterwards every declared hole is computed |
| Enumeration.ReadingInferredNeverResolves | db/internal/dbsp/sharding_factory.go:325-336 | a written computation that reads an inferred variable runs before it, so the rule resolves no key at all |
| Enumeration.NegativeKeyEscapes | db/internal/dbsp/sharding_expr_rule.go:176-234 | with `${idx} = @{shop_id} % n` over range(0, n), for every positive n and every shop, the table of the shop is one that some index enumerates if and only if the shop is non-negative or a multiple of n |
| Queries.Extraction.FromClause | db/internal/dbsp/gorm.go:422-463 | collects the values of =, IN, AND and OR clauses into the map in place, and the columns of range clauses |
| Queries.Extraction.FromQuery | db/internal/dbsp/gorm.go:469-486 | collects from a query tree in the way ExtractedExactly pins; nothing from negations |
| Queries.ExtractColumnsFromQuery | db/internal/dbsp/gorm.go:492-505 | the values and range columns of a query tree (which ones is ExtractedExactly and RangesExactly); nothing without a query, and nothing from a condition that is passed without one |
| QueryLeaves.ExtractedExactly | db/internal/dbsp/gorm.go:422-505 | a value is collected for a column if and only if an equality or IN leaf for the column that lists it is reached from the root of a tree through And and Or nodes only |
| QueryLeaves.RangesExactly | db/internal/dbsp/gorm.go:422-486 | a column is reported as compared by range if and only if such a path leads to a range leaf for it |
| QueryLeaves.UnlistedIsNotRouted | db/internal/dbsp/sharding_table_store.go:134-167 | a query without a listed value for some required column is never routed, unless an explicit key has one; a negation lists nothing (NegationListsNothing) |
| QueryLeaves.NegationListsNothing | db/internal/dbsp/gorm.go:469-472 | no value, column or range is found in a negation |
| QueryLeaves.FilterMeans | db/internal/dbsp/gorm.go:385-420 | an And tree selects what every part selects, an Or tree what some filtering part selects, a negation is the database's; parts without a filter do not count |
| Queries.SelectedRowsCarryExtracted | db/internal/dbsp/gorm.go:385-505 | every row a query selects carries an extracted value of each column the query binds, whatever the clauses left open mean; a bare condition and a condition type from outside bind nothing |
| TableStore.BuildShardingKeyResolver | db/internal/dbsp/sharding_table_store.go:33-73 | the required columns are those of both rules, each once |
| RoutingExact.RequiredExactly | db/internal/dbsp/sharding_table_store.go:33-73 | a column is required if and only if a computation of the database rule or of the table rule reads it |
| TableStore.ResolveTarget | db/internal/dbsp/sharding_table_store.go:210-225 | database key and table name of a sharding key |
| TableStore.ResolveLocation | db/internal/dbsp/sharding_table_store.go:367-403 | session and table of a sharding key; fails exactly when the key does not resolve or the target is unknown |
| RoutingExact.KeyIsRequired | db/internal/dbsp/sharding_expr_rule.go:27-55 | without a key no rule resolves anything, a bound one included, even if it reads no column |
| RoutingExact.FindDbExactly | db/internal/dbsp/sharding_table_store.go:367-375 | a database key finds the first database with that key, if there is one |
| TableStore.DeduplicateValues | db/internal/dbsp/sharding_table_store.go:191-206 | keeps the first of equal values, in order |
| TableStore.MergeIntoMultiValues | db/internal/dbsp/sharding_table_store.go:171-180 | single values come before collected ones |
| TableStore.MergeSingleIntoMulti | db/internal/dbsp/sharding_table_store.go:183-187 | explicit values come after collected ones |
| TableStore.SplitColumns | db/internal/dbsp/sharding_table_store.go:230-258 | finds the first value of each column and the required columns with several values, in any visiting order |
| TableStore.ValidateColumn | db/internal/dbsp/sharding_table_store.go:274-294 | accepts a column if and only if each of its values, substituted into the reference key, resolves to the reference target |
| TableStore.ReduceColumns | db/internal/dbsp/sharding_table_store.go:230-298 | accepts if and only if every single-column substitution into the reference key resolves to the reference target; the result does not depend on map order |
| TableStore.BuildShardingKey | db/internal/dbsp/sharding_table_store.go:134-167 | cuts the values down to the required columns, and fails exactly when one is missing |
| TableStore.ResolveForEntity | db/internal/dbsp/sharding_table_store.go:426-448 | where an entity, with or without an explicit key, is sent |
| TableStore.ResolveForId | db/internal/dbsp/sharding_table_store.go:452-474 | where an id is sent |
| TableStore.ResolveForQuery | db/internal/dbsp/sharding_table_store.go:478-499 | where a query is sent; a bare condition adds no values to those of an explicit key |
| TableStore.ResolveForEntityAndQuery | db/internal/dbsp/sharding_table_store.go:503-526 | where an entity with a query is sent, the values of the entity first |
| Placement.ResolveReadsRequired | db/internal/dbsp/expr/expand.go:185-197 | a rule gives keys that agree on its required columns the same name, or the same error |
| Placement.DbReadsRequired | db/internal/dbsp/sharding_expr_rule.go:27-40 | the same for database rules, bound to a transaction or not |
| Placement.RequiredColumnsNeverMissing | db/internal/dbsp/expr/expand.go:185-197 | a key with all required columns is never rejected for a missing column, whatever computations there are |
| Placement.TargetReadsRequired | db/internal/dbsp/sharding_table_store.go:134-167 | keys that agree on the required columns have one target |
| Placement.CutKeySuffices | db/internal/dbsp/sharding_table_store.go:134-167 | cutting a full key down to the required columns does not change its target |
| Placement.CombinationRoutes | db/internal/dbsp/sharding_table_store.go:230-298 | when each rule reads at most one column with several values, acceptance means that every combination of collected values leads to the reference target |
| Placement.AcceptanceIsExact | db/internal/dbsp/sharding_table_store.go:230-298 | and then acceptance holds if and only if the reference key resolves and every combination leads to its target |
| RoutingExact.RoutedExactly | db/internal/dbsp/sharding_table_store.go:230-298 | collected values are routed to a table if and only if every required column has a value, the first ones lead there, and every way to pick one value for each has their target |
| RoutingExact.RoutedByHomes | db/internal/dbsp/sharding_table_store.go:230-298 | with databases told apart: if and only if every way to pick one value for each belongs in that table |
| RoutingExact.EntityAndIdGoHome | db/internal/dbsp/sharding_table_store.go:426-474 | without an explicit key an entity is routed exactly to where its own values belong, and an id to where the id alone belongs |
| RoutingExact.KeyIsChecked | db/internal/dbsp/sharding_table_store.go:171-298 | an explicit key is checked together with the query: its value and every value the query lists for a required column lead to the target that is used |
| RoutingExact.NothingRequiredExactly | db/internal/dbsp/sharding_table_store.go:426-526 | a store that requires no column routes with an explicit key only, and to one table whatever the key |
| Placement.RoutedQueryMissesNothing | db/internal/dbsp/sharding_table_store.go:478-499 | a routed query that binds every required column selects no row at home anywhere else |
| Placement.EntityGoesHome | db/internal/dbsp/sharding_table_store.go:426-448 | an entity with all required columns is written where its own values belong, whatever explicit key or query comes along |
| Placement.UpdateKeepsHome | db/internal/dbsp/sharding_table_store.go:639-645 | updates that leave the required columns alone leave rows where they belong |
| Placement.WriteKeepsPlaced | db/internal/dbsp/sharding_table_store.go:719-782 | each write, FirstOrCreate included, keeps every stored row where it belongs |
| Placement.ReachableIsPlaced | db/internal/dbsp/sharding_table_store.go:719-782 | so does every sequence of writes from the empty store |
| Placement.RoutingLosesNothing | db/internal/dbsp/sharding_table_store.go:478-499 | in every reachable state, every row that satisfies a routed query lives in the table the query is sent to |
| Placement.NeverMissesExactly | db/internal/dbsp/sharding_table_store.go:719-782 | a table holds everything a query selects, in all reachable states, if and only if it is the home of every row that the query selects and that has a home |
| RoutingExact.WrittenIsFound | db/internal/dbsp/sharding_table_store.go:719-782 | an entity that was just written is in the table to which a query that binds its columns and selects it is sent |
| RoutingExact.WriteEffect | db/internal/dbsp/sharding_table_store.go:719-782 | what each write leaves in each table, row by row; it changes one table at most |
| Placement.BatchKeepsPlacedExactly | db/internal/dbsp/sharding_table_store.go:751-771 | a batch, sent where its first entity belongs, leaves rows where they belong if and only if all its entities belong there |
| RoutingGaps.UnboundBranchEscapes | db/internal/dbsp/gorm.go:457-461 | `shop_id = x OR region = r`, with one value per column, is routed and misses the row of shop y in region r if and only if y is not x |
| RoutingGaps.BareConditionEscapes | db/internal/dbsp/gorm.go:492-505 | the condition `shop_id = y` passed as the whole query filters rows but is not extracted: with an explicit key for shop x it is routed and misses the rows of shop y if and only if y is not x |
| RoutingGaps.ForeignBranchEscapes | db/internal/dbsp/gorm.go:385-402 | an OR branch of a condition type from outside filters rows but is not extracted: `shop_id = x OR foreign` is routed and misses a row of shop y that the branch selects if and only if y is not x |
| RoutingGaps.CrossProductEscapes | db/internal/dbsp/sharding_table_store.go:274-294 | for a rule that multiplies `@{a} - 1` and `@{b} - 1`, `a IN (1, x) AND b IN (1, y)` binds every column, is accepted, and misses the row (x, y) if and only if both x and y are above 1, for all x and y from 1 to 2^31 |
| CursorScan.Find | db/internal/dbsp/sharding_table_store.go:896-899 | a read without order returns the matching rows once each, in any order |
| CursorScan.PageRows | db/internal/dbsp/sharding_table_store.go:918-923 | a page holds matching rows beyond the cursor, in id order, within the limit |
| CursorScan.PageCovers | db/internal/dbsp/sharding_table_store.go:918-923 | and leaves out only what lies beyond a full page |
| CursorScan.FetchAllFromShard | db/internal/dbsp/sharding_table_store.go:896-935 | while the table changes between reads: terminates, returned ids increase strictly, every row returned matched when read, every row that matches throughout is returned; fails if and only if a read fails |
| CursorScan.StaticScanIsExact | db/internal/dbsp/sharding_table_store.go:896-935 | on an unchanging table any scan with these properties returns exactly the matching rows in id order |
| CursorScan.FetchAllFromStaticShard | db/internal/dbsp/sharding_table_store.go:896-935 | so for every positive batch size paging equals the one-shot scan |
| ScatterGather.AllShardTargets | db/internal/dbsp/sharding_table_store.go:819-853 | lists every table name in every database, or fails when a name cannot be enumerated |
| ScatterGather.TakeAny | db/internal/dbsp/sharding_table_store.go:864-893 | the gathered multiset does not depend on which table is taken first |
| ScatterGather.FindAll | db/internal/dbsp/sharding_table_store.go:864-893 | for every completion order of the workers the result is the multiset of matching rows of all targets, which in an orderly state is the logical table; it fails only if enumeration or a read does |
| ScatterGather.CountAll | db/internal/dbsp/sharding_table_store.go:995-1024 | for every completion order the total is the number of those rows, modulo 2^64; in an orderly state, of the logical table |
| ScatterGather.TargetsGatherAll | db/internal/dbsp/sharding_table_store.go:819-893 | distinct targets that include every place with a matching row gather the logical table exactly |
| ScatterGather.PlacesDiffer | db/internal/dbsp/sharding_table_store.go:819-853 | with distinct sessions and distinct names no target is listed twice |
| ScatterGather.NamesDiffer | db/internal/dbsp/sharding_expr_rule.go:199-234 | the enumerated names of a rule numbered by a range, or by an enum without repetitions, are distinct |
| ScatterGather.HomeIsTarget | db/internal/dbsp/sharding_table_store.go:819-853 | the place a key leads to is among the targets |
| ScatterGather.ScatterSeesEachRowOnce | db/internal/dbsp/sharding_table_store.go:819-893 | when every row is where it belongs, scatter-gather sees each row of the logical table exactly once |
| ScatterGather.ScatterIsExact | db/internal/dbsp/sharding_table_store.go:819-893 | which holds in every state that writes can reach |
| ScatterGather.OrderlyIsExact | db/internal/dbsp/sharding_table_store.go:819-893 | in an orderly state the targets hold the logical table, each row once |
| ScatterGather.WritesAreOrderly | db/internal/dbsp/sharding_table_store.go:719-782 | every sequence of writes leads to an orderly state when the rule indexes by `mod(_, n)` or `hash(_) % n` over range(0, n), so that FindAll and CountAll are exact there with nothing assumed about the rows |
| ScatterGather.DocumentedRuleNumbered | db/internal/dbsp/sharding_factory.go:88-98 | the documented shape of a table rule, an index over range(0, n) shown as `fill(${idx}, 8)`, meets these conditions for every index expression that reads a column |
| ScatterGather.BoundedIndexRoutesWithin | db/internal/dbsp/expr/functions.go:75-105 | rules that index by `mod(_, n)` or `hash(_) % n` over range(0, n) never leave the declared range, for any key |
| Transactions.TransactionConfines | db/internal/dbsp/sharding_factory.go:400-479 | every store a transaction-scoped manager hands out reaches tables only through the transaction's session: for every key, every routed operation and every scatter-gather target |
| Transactions.SameGroupExactly | db/internal/dbsp/sharding_factory.go:526-540 | the scoped manager serves an entity from the group that serves it outside if and only if the entity is of the transaction's group, or uses the default group either way |
| Transactions.OverrideDecides | db/internal/dbsp/sharding_factory.go:526-560 | a rule given for the entity's table is the rule of its store; without one the group's rule is, and the store is plain if and only if the group has no rule |
| Transactions.StoreIsTheEntitys | db/internal/dbsp/sharding_factory.go:526-584 | there is a store if and only if the group that serves the entity has a session; it is the entity's table, in the databases of that group |
| Transactions.OthersDoNotMatter | db/internal/dbsp/sharding_factory.go:526-560 | overrides of other tables, and other groups, change nothing |
| Transactions.TransactionFollowsKey | db/internal/dbsp/sharding_factory.go:400-479 | a transaction runs in the database its key leads to, and inside it the same key leads to the same table |
| Transactions.ScopedStore | db/internal/dbsp/sharding_factory.go:466-479 | for those entities the scoped store is the outside store (OverrideDecides, StoreIsTheEntitys) with its database rule bound to the transaction's target |
| Transactions.ScopedTarget | db/internal/dbsp/sharding_factory.go:355-365 | a key leads to the same table inside if it leads to the transaction's target, and is rejected otherwise |
| Transactions.ScopedKeyRoutes | db/internal/dbsp/sharding_factory.go:355-479 | an explicit key reaches the same table through the transaction's session, or is rejected |
| Transactions.ScopedRoutes | db/internal/dbsp/sharding_factory.go:355-479 | any operation inside reaches the table it would reach outside if and only if that is in the transaction's database, and fails otherwise |
| Transactions.ScopedTargets | db/internal/dbsp/sharding_factory.go:466-479 | scatter-gather inside visits exactly the tables it would visit in that database |
| Transactions.StrayEntityServed | db/internal/dbsp/sharding_factory.go:526-540 | an entity of any other group is served, inside a transaction of the default group, exactly as an entity of the default group is, and not at all inside other transactions |
| Transactions.StrayEntityChangesTable | db/internal/dbsp/sharding_factory.go:533-540 | one manager in which that table is not the one used outside: the entity is served, but from another table |
| RetryConsumer.GetRetryCount | mq/internal/mqsp/advanced_consumer.go:314-322 | the first count header decides; without one the count is 0 |
| RetryConsumer.AtoiExactly | mq/internal/mqsp/advanced_consumer.go:314-322 | a count that is no number counts as 0, and one beyond int64 as the nearest |
| RetryConsumer.RetryRoundTrip | mq/internal/mqsp/advanced_consumer.go:273-291 | the count put on a retry is the count read from it, under one header only, and the other headers keep their order |
| RetryConsumer.DeadLetterKeeps | mq/internal/mqsp/advanced_consumer.go:294-312 | a dead letter carries its topic of origin first, then the headers as they were, the count included |
| RetryConsumer.Handler.SendRetry | mq/internal/mqsp/advanced_consumer.go:273-291 | sends the message back to its topic with the new count, and reports whether the broker took it |
| RetryConsumer.Handler.SendDLQ | mq/internal/mqsp/advanced_consumer.go:294-312 | sends the dead letter when there is a topic and a producer |
| RetryConsumer.Handler.HandleFailure | mq/internal/mqsp/advanced_consumer.go:203-209 | what is sent for one failed message |
| RetryConsumer.Handler.ConsumeClaimSingle | mq/internal/mqsp/advanced_consumer.go:187-216 | marks every message, and sends for the failed ones exactly what is due |
| RetryConsumer.Handler.ConsumeClaimBatch | mq/internal/mqsp/advanced_consumer.go:218-271 | splits the messages into consecutive batches of 1 to 100, marks all of them, and sends for each message of a failed batch what is due |
| RetryConsumer.FailureSendsOne | mq/internal/mqsp/advanced_consumer.go:187-216 | for a failed message at most one message is sent: the next try below the limit, or the dead letter |
| RetryConsumer.DroppedExactly | mq/internal/mqsp/advanced_consumer.go:187-216 | a message is dropped if and only if no send that was due succeeded |
| RetryConsumer.FateExactly | mq/internal/mqsp/advanced_consumer.go:187-216 | which of the three becomes of a failed message, and the message sent, from its count, the configuration and the broker's answers |
| RetryConsumer.RunSendsWhatHandlerSends | mq/internal/mqsp/advanced_consumer.go:187-271 | a step of a run sends exactly what the handler sends: the messages that newly appear on the topic and among the dead letters |
| RetryConsumer.DeliverKeeps | mq/internal/mqsp/advanced_consumer.go:187-271 | each delivery keeps the total of originals, and uses up remaining tries by at least the number of messages processed |
| RetryConsumer.RunConserves | mq/internal/mqsp/advanced_consumer.go:187-271 | over every run no original is lost or duplicated, none is processed beyond its budget, and the run is no longer than the budgets together |
| RetryConsumer.EachOriginalOnce | mq/internal/mqsp/advanced_consumer.go:187-271 | at all times each original is in exactly one of topic, succeeded, dead letters and dropped, and a fresh one has been processed at most maxRetries + 1 times |
| RetryConsumer.NothingDropped | mq/internal/mqsp/advanced_consumer.go:187-216 | with dead letters on and no failed send nothing is dropped, in any run |
| RetryConsumer.RunIsFaithful | mq/internal/mqsp/advanced_consumer.go:273-312 | whatever is queued or dead-lettered after any run still has the payload, key and headers of its original |
| AsyncProducer.InvHolds | mq/internal/mqsp/producer.go:101-177 | every interleaving keeps lock exclusion, a single winner, the barrier and the accounting of answers |
| AsyncProducer.NoSendAfterClose | mq/internal/mqsp/producer.go:101-147 | in no interleaving is a send to the input possible after the asynchronous producer's Close has begun |
| AsyncProducer.ClosedOnce | mq/internal/mqsp/producer.go:137-157 | both producers are closed at most once, the synchronous one second |
| AsyncProducer.OneCallback | mq/internal/mqsp/producer.go:101-177 | each call gets at most one callback, and exactly one unless its message is still on the way or was swallowed by the library's Close |
| AsyncProducer.NothingLeftBehind | mq/internal/mqsp/producer.go:137-157 | when Close has returned no message is on the way and none can follow |
| AsyncProducer.NoDeadlock | mq/internal/mqsp/producer.go:101-177 | a Close that has won never waits forever: until it is done, some step other than a new call is possible |
| AsyncProducer.StepsRunOut | mq/internal/mqsp/producer.go:101-177 | every step other than a new call decreases one measure |
| AsyncProducer.ExecutionEnds | mq/internal/mqsp/producer.go:101-177 | so without new calls an execution has at most as many further steps as that measure |
| AsyncProducer.CloseEnds | mq/internal/mqsp/producer.go:137-157 | and once no step but a new call is possible, a Close that has won is done |
| RateLimiter.Limiter.Allow | http/httphelper/ratelimit.go:41-56 | the answer and the new visitor table for one request |
| RateLimiter.Limiter.Cleanup | http/httphelper/ratelimit.go:58-71 | removes exactly the visitors whose window has passed |
| RateLimiter.Replay | http/httphelper/ratelimit.go:41-71 | the class gives the answers of the specification over any run |
| RateLimiter.SweepsNeverChangeAnswers | http/httphelper/ratelimit.go:58-71 | cleanup sweeps inserted anywhere in a run never change the answer to a request |
| RateLimiter.AtMostTwiceTheRate | http/httphelper/ratelimit.go:41-56 | any closed interval as long as the window admits at most 2 * rate - 1 requests per key, over every run with a non-decreasing clock |
| RateLimiter.TwiceTheRateReached | http/httphelper/ratelimit.go:41-56 | that bound is reached, for every rate and window |
| RateLimiter.RejectedOnlyWhenFull | http/httphelper/ratelimit.go:41-56 | a request is turned away only when the window ending with it has admitted the full rate |
| Snowflake.FieldsDoNotOverlap | util/idutil/id.go:110-131 | or-ing a field into the room made by a shift adds it |
| Snowflake.IdDecodes | util/idutil/id.go:110-131 | time, machine and sequence read back from an id, which is a non-negative int64 while the time is below 2^41 |
| Snowflake.Generator.SetMachineID | util/idutil/id.go:94-99 | accepts 0 to 1023 only |
| Snowflake.Generator.Next | util/idutil/id.go:110-131 | one call, over the clock readings it sees, as specified |
| Snowflake.CallAdvances | util/idutil/id.go:110-131 | a call moves (time, sequence) strictly forward and returns the id of where it stops; it keeps waiting only when no later time was read and the sequence is used up |
| Snowflake.IdsIncrease | util/idutil/id.go:110-131 | calls that do not overlap return strictly increasing ids, whatever the clock does |
| Snowflake.MachinesNeverCollide | util/idutil/id.go:110-131 | generators with different machine ids never return the same id |
| Snowflake.IdsFit | util/idutil/id.go:110-131 | with clock readings below 2^41 all ids are non-negative 64-bit integers |
| SnowflakeThreads.TimeMovesForward | util/idutil/id.go:110-131 | in every interleaving of the atomic steps the last time only moves forward, and each new millisecond is won by one thread |
| SnowflakeThreads.AlwaysSound | util/idutil/id.go:110-131 | every interleaving keeps the accounting of won milliseconds, pending resets and returned ids |
| SnowflakeThreads.CallsAreSchedules | util/idutil/id.go:110-131 | any run of calls that do not overlap is one of these schedules, with the same clock and the same ids |
| SnowflakeThreads.OneAtATimeIncreases | util/idutil/id.go:110-131 | every schedule in which no two threads are inside a call returns strictly increasing ids |
| SnowflakeThreads.TidyExactly | util/idutil/id.go:110-131 | over every schedule after which no won millisecond awaits its reset, the returned ids increase strictly if and only if no reset came while an earlier millisecond awaited its own, and each added sequence number was for the latest millisecond already reset |
| SnowflakeThreads.OverlappingCallsRepeatAnId | util/idutil/id.go:117-127 | a schedule of three overlapping calls that breaks this condition and returns one id twice, because setting the time and resetting the sequence are separate steps |

## Left out

- Token positions and the wording of error messages: errors have a coarse kind; where several apply, some members only say that there is one.
- Unicode: the lexer, `lower` and `upper` use the ASCII classes.
- RegisterFunc: the function table is the built-in one.
- Literals beyond int64 in expressions and declarations are rejected as in the source; other integer types of sharding keys are modelled by their ranges, floating-point and other types as unsupported.
- Duplicate computation names: the last one wins in the dependency graph, as modelled; statements about the meaning of sorted computations assume unique names.
- A template that names an inferred variable twice gets the identity computation twice; statements that need unique names do not cover it.
- SQL text, GORM and MySQL: a table is a map from id to row; comparisons other than equality and IN are left to the database, that is, to any function. How GORM joins a single-element OR is not modelled, and neither are collations.
- Reflection and struct tags: a row is a map from column to value, and its id can be read back. An id that cannot be read would make the paged scan start over forever.
- Placement.RoutingLosesNothing: its conditions are sufficient. RoutingGaps shows for binding in every OR branch, for bare and foreign conditions, and for one column with several values per rule that rows can be missed without them; a query outside them may still be routed well by luck of its values.
- Conversions inside the database, such as comparing a text column with a number: a row satisfies an equality when the values are the same number or the same value.
- FirstOrCreate stores the entity as it is given; values that GORM may fill in from the query's equalities are not modelled.
- ScatterGather.ScatterIsExact: speaks of single writes; batches are covered by ScatterSeesEachRowOnce when they keep rows where they belong (BatchKeepsPlacedExactly).
- SnowflakeThreads.TidyExactly: speaks of schedules that end with every won millisecond reset; its condition is about increasing ids, so a run that returns different ids out of order is not tidy.
- Rows are created, changed and removed by whole operations; concurrent writers during scatter-gather, and updates that change sharding columns, are outside the statements about routing.
- ScatterGather.FindAll: a failing worker's cancellation of the others is not modelled, because the result is an error either way; the concurrency limit only restricts completion orders.
- Connection building, DSNs, YAML configuration and panics on bad configuration.
- Common-field autofill, soft delete and raw SQL, beyond the store they are sent to.
- The synchronous Produce and the manual consumer of `mq`; SASL; partitions, offsets and consumer groups: a topic hands over its messages in any order.
- RetryConsumer.RunConserves: crashes between sending and marking are not part of a run.
- AsyncProducer.OneCallback: the library is taken to settle each message once; a panic in a callback is not modelled.
- RateLimiter.Limiter.Allow: the mutex makes each call one step; instants are integers, so saturation of the clock is not modelled.
- Snowflake.Generator.Next: the sequence is unbounded, since 2^63 passes within one millisecond do not occur; the machine id does not change between calls.
- Redis and ristretto caches, HTTP client and other middleware, logging, retry with backoff, and the remaining helpers of `util`: wrappers or small functions that would only add easy members.
