# Models of the extension cores

A Dafny model of the algorithms in this repository that carry state across batches, look ahead and give
characters back, or make two passes that have to agree, with proofs of what they are for.

| part | files | what it models |
|---|---|---|
| list lambdas | `ListColumns`, `Subsequences`, `LambdaBatches`, `ListFilter`, `ListTransform` | `list_filter` and `list_transform`: lists flattened into batches of any size, the cursor that rebuilds row boundaries |
| JSON paths | `JsonValues`, `JsonPathReader`, `JsonPathTexts`, `JsonPathEval`, `JsonLocations`, `JsonPathEvaluators`, `JsonPathPrinter` | reading and validating a path, which texts are paths, the single-value and the many-value evaluator, where selected values stand, printing and reading back |
| SQL tokenizer | `SqlCharacters`, `SqlLexer`, `SqlTokenizer`, `SqlCoverage`, `SqlLexemes`, `SqlStatements`, `SqlTokens`, `SqlRetokenize`, `SqlClientTokens`, `Texts` | the eight-state machine and its client, which characters make a token, where tokens come from, statements, tokenizing twice, dollar quotes |
| PEG engine | `PegMatcher`, `PegAgreement`, `PegResults`, `PegReach`, `PegTried`, `PegMatchState`, `PegBuilder`, `PegFactory`, `PegRebuild`, `PegRebuildProof`, `PegOlder`, `PegTrees`, `PegShapes`, `PegBuildErrors`, `PegMeaning`, `PegCertificate`, `PegLeftRecursion`, `PegTables` | the recursive matcher, the shape of its results, where it reports an error, the stack machine that builds its graph from a rule table, when that graph is well-formed, and that building keeps the meaning of the rules |
| timestamps | `IcuIntervals`, `IcuIntervalLaws`, `IcuRanges`, `IcuRangeLaws`, `IcuListRange`, `IcuTableRange`, `IcuRangeAgreement` | adding and subtracting intervals, ranges as lists and as a resumable table |
| skip lists | `ConfigFiles`, `ConfigCleanup`, `ConfigWritten`, `ConfigCleanupLaws`, `ConfigDryRuns` | the script that removes inherited skips from configuration files |
| Unicode spaces | `UnicodeSpaces`, `UnicodeCodePoints`, `UnicodeMoves`, `UnicodeScanner`, `UnicodeStripTwice`, `UnicodeDollarQuotes`, `UnicodeComments`, `UnicodeRuns`, `UnicodeLiterals`, `UnicodeReplaced` | the scanner of four linked loops and the splice, and the scanner beside the tokenizer that reads its output |

Code that changes state in the repository is a class or a method here, with the same fields, loops and
branches, and is proved against a function or a relation that says what it computes: the rows of a column, the
denotation of a path, the rules of parsing expressions, what a configuration skips.  The lemmas are about these.
What such a function means is told once more without it, in `Subsequences`, `JsonPathTexts`, `JsonLocations`,
`SqlLexemes`, `SqlStatements`, `PegResults`, `PegTried`, `PegBuildErrors`, `IcuRangeLaws`, `ConfigWritten` and
`UnicodeCodePoints`: on characters, positions, constructors and numbers alone.
The vector size is a parameter of at least 1 everywhere.

## Where the code does not keep the law

These laws one would expect hold only under a condition.  Each is proved with its exact condition but for the one
about untouched literals, whose condition suffices, and the model does what the code does.

* Adding the difference of two finite timestamps to the first does not always give the second back
  (`IcuIntervalLaws.AddUndoesSub`, if and only if).  When the later of the two lies in the first millisecond of
  1970, after its start, and the earlier is further into its own millisecond, the borrowed millisecond makes the
  end negative and is lost in a division that cuts toward zero: the result is 1000 microseconds off
  (`LostBorrowExample`).  A timestamp whose day does not begin inside 64 bits is never the result.  From such a
  start the addition fails as well, but for the last millisecond of them, where the microseconds of the interval
  may carry it over (`ReachesFirstDay`).  And from the first timestamp behind these to less than a millisecond
  before a midnight up to 1970 the addition raises an overflow error on its way (`LeavesFirstDay`).
* The table function's flag for an empty range is never cleared: a row with values after an empty range gives
  nothing (`IcuRangeAgreement.RowsAgree`, if and only if).  For a single row the two producers differ on a zero
  interval, an empty list here and an error there, and on ranges with too many values (`FreshRowAgrees`, if and
  only if).
* The closing bracket of an index is not looked at after its 19th digit.  When the path ends there, it is read past
  its end (`JsonPathReader.PastEndExactly`, if and only if); `ValidatePath` has an outcome of its own for it.
* And when the path goes on there with another character, that is taken for the closing bracket: the path is
  accepted, and nothing is read past the end (`JsonPathReader.UnclosedExactly`, if and only if; `UnclosedExample`).
* A cleaned configuration that inherits from itself through others loses its whole list, and the paths are skipped
  no more unless a configuration above it that is not cleaned lists them too
  (`ConfigCleanupLaws.RunKeepsSkipsExactly`, if and only if; `CircleLosesSkips` is the smallest case).  Without
  circles nothing is lost.
* A dry run counts more than the real run when a file that would change is named twice, or when every path that it
  would lose is gone above it by the time of its turn, as happens below a circle
  (`ConfigDryRuns.DryRunCounts`, if and only if; `CircleCountsLess` is the smallest case).
* The scanner for Unicode spaces leaves a dollar quote in the wrong place when its markers overlap, that is when
  the body is the tag itself or begins with the tag and a dollar sign, and when the closing marker is followed by
  more than two bytes that begin with a dollar sign or the first byte of a tag, since the last byte of the marker
  is looked at again (`UnicodeDollarQuotes.QuoteIsLeftAtItsEnd`, if and only if; `UnicodeSpaces.OverlappingMarker`
  is a case in which a space of the body is replaced).  The tokenizer does not share this
  (`SqlCoverage.MarkerCloseIsFirst`).
* So the scanner may change a literal.  It does not when every dollar quote is left at its end and it comes out of
  every block comment, of which it knows nothing, in its main loop (`UnicodeLiterals.LiteralsAreKept`;
  `QuoteInComment` is a case in which it does).  A space at the very beginning of a literal right behind a comment is
  lost when a quote of the literal's own kind is open in the comment (`UnicodeReplaced.LiteralBehindComment`, if and
  only if).
* Under the same condition a Unicode space in the open, that is in no literal and in no comment that has a byte at
  which the scanner leaves its main loop, is replaced but for two cases: a space of two bytes at the very end of the
  text, and a space behind a dollar sign and bytes of a tag, of which its own bytes are some
  (`UnicodeReplaced.SpaceIsReplacedExactly`, if and only if).  So the space behind a named parameter stays
  (`ParameterKeepsSpace`; `UnicodeMoves.LastSpaceStays` is a case of the other kind).
* A syntax error is reported at a token that was read when some way read all tokens: then it is the last one, and a
  statement that goes on behind it may be accepted (`PegMatchState.ParseStatement`, if and only if;
  `PegReach.LastTokenIsReported`).
* The tokens that the tokenizer's client gets do not come back from their own texts when the last word is no token
  by itself (`SqlClientTokens.ClientTokensComeBack`, if and only if).
* The grammar builder takes a `)` right after a `/` without an error, and the rule is then not the one that was
  written (`PegShapes.CompiledRuleIsTree`, if and only if; `PegTables.DanglingCompiles` is a case).  A `!` is read
  as nothing, so that a rule means the same without it (`PegTables.CompilesAlike`).

## Model

| member | source | states |
|---|---|---|
| `LambdaBatches.LambdaBatch.Add` | extension/core_functions/lambda_functions.cpp:331-343 | Puts one element on the batch: its place in the child vector and its 1-based index within its list; it is then the next element of the flattened column. |
| `LambdaBatches.LambdaBatch.ExecuteExpression` | extension/core_functions/lambda_functions.cpp:322-324 | The lambda is run on the next stretch of the flattened rows: on each element with its row and, when it asks for it, its place in its list counted from 1, and each answer belongs to that element. |
| `ListFilter.ListFilterInfo.SkipEmptyLists` | extension/core_functions/lambda_functions.cpp:119-124 | Passing over rows without elements (empty or NULL) writes their empty entries and leaves the cursor on the next element or behind the last row; nothing is counted twice. |
| `ListFilter.ListFilterInfo.Advance` | extension/core_functions/lambda_functions.cpp:125-144 | Moving over one element keeps every cursor fact: rows before row_idx are finished, src_length and length count the seen and kept elements of the current row, offset + length is the number kept so far. |
| `ListFilter.ListFilterInfo.AppendResult` | extension/core_functions/lambda_functions.cpp:104-159 | One flush, wherever it starts and ends: afterwards the child vector holds exactly the kept elements of all rows seen so far, and the cursor stands on an element or behind the last row. |
| `ListFilter.Flush` | extension/core_functions/lambda_functions.cpp:318-326 | A flush keeps the batch and the filter's cursor in step: the next batch begins where the cursor stands. |
| `ListFilter.KeptIsTheFilter` | extension/core_functions/lambda_functions.cpp:125-129 | What is kept of a list is the subsequence, in order, of exactly those elements whose answer is true; an unknown answer counts as false. |
| `ListFilter.FilteredRowAt` | extension/core_functions/lambda_functions.cpp:133-144 | Each row's entry cuts that row's own filtered list out of the child vector, for any number of rows. |
| `ListFilter.ListFilterFunction` | extension/core_functions/lambda_functions.cpp:271-356 | For every batch size >= 1 and every column of NULL, empty and non-empty lists with any offsets: the entries lie end to end and fill the child vector; in the entry of a valid row are, in order, exactly the elements of its list for which the lambda, given the element, the row and its place counted from 1, answers true; NULL rows stay NULL and have length 0. |
| `ListFilter.AllRowsFinished` | extension/core_functions/lambda_functions.cpp:347-352 | When the last flush is over, the cursor has passed every row, trailing empty ones included, and the result is complete. |
| `ListTransform.SliceIsMappedRow` | extension/core_functions/lambda_functions.cpp:76-80 | Offsets that are prefix sums of the valid rows' lengths make every slice of the appended answers the lambda mapped over that row. |
| `ListTransform.TransformRow` | extension/core_functions/lambda_functions.cpp:304-344 | A NULL row is marked and adds nothing; a valid row gets the running offset and its length, across any number of flushes inside the row. |
| `ListTransform.ListTransformFunction` | extension/core_functions/lambda_functions.cpp:271-356 | For every batch size >= 1: element k of a valid row's slice is the lambda's answer for element k of its list, the row and the place k + 1 when the lambda asks for it; NULL rows stay NULL, and the child vector holds all answers in row order. |
| `JsonPathReader.ReadString` | extension/json/json_common.cpp:67-105 | Reads exactly the key that the path grammar has there, quoted or up to the next dot or bracket, and never past the end of the path. |
| `JsonPathReader.ReadQuoted` | extension/json/json_common.cpp:69-95 | The loop with the fixed key buffer never writes past it, and reads the quoted key: a backslash before a quote or a backslash is dropped and kept before anything else. |
| `JsonPathReader.ReadKey` | extension/json/json_common.cpp:134-175 | A key, a wildcard or a recursive step as the grammar has it: a quoted star reads like a wildcard, `..` before a bracket stands for `..*`. |
| `JsonPathReader.ReadInteger` | extension/json/json_common.cpp:107-132 | At most 19 digits up to a closing bracket, with their exact value and no 64-bit overflow. |
| `JsonPathReader.ReadNumbersAreSafe` | extension/json/json_common.cpp:130-131 | A number that was read stays below the value that stands for a wildcard index, so the overflow test never fires. |
| `JsonPathReader.ReadArrayIndex` | extension/json/json_common.cpp:177-215 | Accepts exactly the bracket forms of the grammar and reports index, direction and where the path goes on. |
| `JsonPathReader.ValidatePath` | extension/json/json_common.cpp:217-254 | Accepts a path exactly when its text reads as steps to the end; REGULAR exactly when every step is a key or an index, from the front or from the back; a third outcome says that the last index runs past the end. |
| `JsonPathTexts.StepExactly` | extension/json/json_common.cpp:134-215 | A step is read at a position, up to another, if and only if the characters in between are a text of that step: a key up to the next dot or bracket or in quotes with its backslashes, a star, one or two dots, a bracket with a star, a number sign, or a number of up to 19 digits. |
| `JsonPathTexts.PathExactly` | extension/json/json_common.cpp:217-254 | A path reads as certain steps if and only if its text is made up of texts of these steps, one after the other. |
| `JsonPathReader.IndexPastEnd` | extension/json/json_common.cpp:207-213 | A bracket index is read past the end of the path if and only if the path ends right after its 19th digit. |
| `JsonPathReader.PastEndExactly` | extension/json/json_common.cpp:238-247 | A step runs past the end of the path if and only if it is such an unclosed index of 19 digits: every path with shorter indexes is read only inside. |
| `JsonPathReader.UnclosedExactly` | extension/json/json_common.cpp:116-131 | A bracket is accepted inside the path with another character in the place of its closing bracket if and only if that character comes right after 19 digits; it is skipped, whatever it is. |
| `JsonPathReader.UnclosedExample` | extension/json/json_common.cpp:207-213 | `$[0000000000000000000x.a` is accepted, and read as the index 0 and the key a. |
| `JsonPathEval.RegularPathsAgree` | extension/json/json_common.cpp:217-254 | On a path without wildcards the sequence semantics has exactly the single value of the other evaluator, or nothing where that one has null. |
| `JsonPathEval.WrapAroundSelectsNothing` | extension/json/json_common.cpp:287-290 | With the subtraction that wraps around in 64 bits an index k from the back selects nothing beyond the length of the array, and otherwise what the index len - k from the front selects. |
| `JsonPathEval.HashSelectsNothing` | extension/json/json_common.cpp:192-196 | `[#]` is read as index 2^32 - 1 and selects nothing if and only if the array has at most 2^32 - 1 elements. |
| `JsonLocations.IndexSelects` | extension/json/json_common.cpp:287-290 | `[n]` selects element n of the array, counted from 0, and `[-n]` the one at len - n for 1 <= n <= len; nothing otherwise. |
| `JsonLocations.EvalTraced` | extension/json/json_common.cpp:301-388 | What a path selects are the values at exactly the places in the document that its steps lead to, told with the positions of members and elements: each way once, in order, a recursive step going breadth first and not staying at its start at the end of the path. |
| `JsonLocations.FlatIsDocumentOrder` | extension/json/json_common.cpp:335-388 | Without recursive steps the selected values stand in document order. |
| `JsonLocations.OneTraced` | extension/json/json_common.cpp:256-299 | Without wildcards at most one place in the document fits the steps, and the value is the one at it, or there is none: the first member with a key, the element at an index. |
| `JsonPathEvaluators.AcceptedStep` | extension/json/json_common.cpp:256-299 | At every position that an accepted path is evaluated at there is a step, it begins with a dot or a bracket (the default branch is dead), it ends inside the path, and what follows is accepted again. |
| `JsonPathEvaluators.ReEntry` | extension/json/json_common.cpp:309-333 | After `..key` the evaluator goes on at the second dot: there the same text reads as the plain step `.key` followed by the same rest. |
| `JsonPathEvaluators.ArrayElement` | extension/json/json_common.cpp:287-290 | The index arithmetic of the evaluators, which wraps around, selects the element that the step means. |
| `JsonPathEvaluators.GetPath` | extension/json/json_common.cpp:256-299 | On every accepted path without wildcards the loop gives the value at the one place that the steps lead to, or null when there is none, and stays inside the path. |
| `JsonPathEvaluators.Recurse` | extension/json/json_common.cpp:313-334 | The scan of a work list that grows while it is scanned ends, and evaluates the rest of the path at every node below the start, in the order of the list; the start itself is left out exactly when the path ends there. |
| `JsonPathEvaluators.GetWildcardPathInternal` | extension/json/json_common.cpp:301-388 | Recursive evaluation appends exactly the denotation of the remaining steps at this value, in order. |
| `JsonPathEvaluators.GetWildcardPath` | extension/json/json_common.cpp:390-395 | For every document and every accepted path: terminates and appends exactly the sequence that the steps denote, the values at the places that the steps lead to, in order. |
| `JsonValues.WalkTakesLevel` | extension/json/json_common.cpp:315-329 | Scanning a work list that grows while it is scanned takes the nodes of one level before any of the next. |
| `JsonValues.WalkIsLevelOrder` | extension/json/json_common.cpp:315-329 | The growing work list is visited in breadth-first order. |
| `JsonValues.WalkVisitsAll` | extension/json/json_common.cpp:315-329 | Every node below the values on the list is visited, each occurrence exactly once. |
| `JsonValues.DescendantsOnce` | extension/json/json_common.cpp:330-332 | Leaving out the start, a trailing `**` yields every proper descendant exactly once. |
| `JsonPathPrinter.ReadsPrintedStep` | extension/json/json_common.cpp:134-215 | A printed step, keys quoted and escaped, is read back as itself when a step or the end follows. |
| `JsonPathPrinter.RoundTrip` | extension/json/json_common.cpp:134-215 | Printing steps and reading the path gives the steps back if and only if no key is empty or a single star and every index is below 10^19. |
| `JsonPathPrinter.ReadStepsArePrintable` | extension/json/json_common.cpp:134-215 | Whatever steps a path is read as have non-empty keys other than a star and indexes below 10^19: no other steps have a path. |
| `SqlTokenizer.ParserTokenizer.NumericStep` | extension/autocomplete/tokenizer.cpp:300-336 | One look at a character in a number: it goes on, or gives characters back and emits the number; what is still to come is what the scanner rules say, and the measure (rest after last_pos, then after i) shrinks in spite of the backtracking. |
| `SqlTokenizer.ParserTokenizer.ContinuesNumber` | extension/autocomplete/tokenizer.cpp:300-324 | A number goes on with a digit or dot, an underscore before one, an `e` that is not behind another, and a sign right behind an `e`; with nothing else. |
| `SqlTokenizer.ParserTokenizer.OperatorStep` | extension/autocomplete/tokenizer.cpp:337-366 | An operator ends with its trailing `+` signs split off unless it contains a special character; what is still to come is unchanged. |
| `SqlTokenizer.ParserTokenizer.StandardStep` | extension/autocomplete/tokenizer.cpp:192-299 | The dispatch on the first character of a token, with its look-ahead, goes the way of the scanner rules. |
| `SqlTokenizer.ParserTokenizer.DollarStep` | extension/autocomplete/tokenizer.cpp:209-247 | After a dollar sign: a parameter, a lone dollar, or the opening marker of a dollar quote. |
| `SqlTokenizer.ParserTokenizer.DollarQuotedStep` | extension/autocomplete/tokenizer.cpp:414-453 | Inside a dollar quote only the full marker leads out, and then the text between the markers is emitted as an ordinary literal. |
| `SqlTokenizer.OnlyNextDollarCloses` | extension/autocomplete/tokenizer.cpp:423-440 | Looking only at the next dollar sign is enough: the marker stands at a dollar exactly when the text up to the next dollar is the marker. |
| `SqlTokenizer.ParserTokenizer.TokenizeInput` | extension/autocomplete/tokenizer.cpp:185-475 | For every text the eight-state machine ends and produces what one pass of the scanner rules produces: the tokens since the last statement end, the statements, and the last word without the first character of an open string; or the answer is false, exactly when the text ends inside a comment or a dollar quote. |
| `SqlLexemes.Classes` | extension/autocomplete/tokenizer.cpp:50-153 | The classes of characters, each written out. |
| `SqlLexemes.WordGoesOn` | extension/autocomplete/tokenizer.cpp:367-376 | Where a word begins it goes on as far as letters, digits, underscores and characters outside of ASCII do, and is one token. |
| `SqlLexemes.NumberExactly` | extension/autocomplete/tokenizer.cpp:300-336 | The text up to a position is the number that begins with a digit or dot if and only if it ends in a digit or dot and only characters that may stand in a number, none of them a digit or dot, come between it and the first one that may not. |
| `SqlLexemes.NumeralIsOneToken` | extension/autocomplete/tokenizer.cpp:300-336 | Digits with single underscores between them, a fraction or both, and an exponent with or without a sign, are one token wherever they stand with nothing behind them that could belong to a number: `1e-5` is. |
| `SqlLexemes.OperatorGoesOn` | extension/autocomplete/tokenizer.cpp:337-366 | A run of operator signs is one token if it holds one of the ten marks; otherwise its trailing plus signs are tokens of their own. |
| `SqlLexemes.FixedIsToken` | extension/autocomplete/tokenizer.cpp:263-276 | The operators `->>`, `::`, `:=`, `->`, `**` and `//` are tokens, wherever they begin, and so are brackets, commas, question marks, minus and number signs. |
| `SqlLexemes.BlankIsSkipped` | extension/autocomplete/tokenizer.cpp:203-208 | A blank is nothing, and a semicolon a statement end. |
| `SqlLexemes.LiteralGoesOn` | extension/autocomplete/tokenizer.cpp:377-400 | A literal or quoted name ends behind the last quote of the first odd run of its own quotes, and never closes if there is none. |
| `SqlLexemes.CommentGoesOn` | extension/autocomplete/tokenizer.cpp:401-413 | A comment ends behind the first newline, or behind the first star and slash after its opening, and is open at the end if there is none. |
| `SqlLexemes.DollarAlone` | extension/autocomplete/tokenizer.cpp:209-237 | A dollar sign is a token by itself before a digit and where no tag and dollar sign follow; at the end of the text it is left to the last word. |
| `SqlLexemes.DollarGoesOn` | extension/autocomplete/tokenizer.cpp:238-247 | A dollar sign, a tag and a dollar sign begin a quote that ends at the first text like them behind; the token is what stands in between, quoted. |
| `SqlTokenizer.ParserTokenizer.OnStatementEnd` | extension/autocomplete/autocomplete_extension.cpp:762-765 | The tokens since the last statement end become a statement and a new list begins. |
| `SqlStatements.StatementsAre` | extension/autocomplete/autocomplete_extension.cpp:762-765 | There is one statement for every statement end, with exactly the tokens since the one before, in order, also when there are none; those behind the last one wait. |
| `SqlTokenizer.ParserTokenizer.PushToken` | extension/autocomplete/tokenizer.cpp:155-161 | A token is the stretch of text it came from; an empty stretch gives none. |
| `SqlCoverage.LexTiled` | extension/autocomplete/tokenizer.cpp:185-475 | The lexemes of every text lie one after the other with only white space between them, each a stretch of its kind, up to the last word, or up to the comment or dollar quote that is open at the end and indeed never closed. |
| `SqlCoverage.TilesMeaning` | extension/autocomplete/tokenizer.cpp:155-161 | Such lexemes are disjoint, increasing and inside the text, and every character outside them is white space. |
| `SqlCoverage.EveryCharacterIsAccountedFor` | extension/autocomplete/tokenizer.cpp:185-475 | In every text each character is in a token, in a comment, a statement end or white space, up to the last word or the open comment or dollar quote; tokens other than dollar-quoted ones are the text of their range, and outside of string literals the rest after last_pos is the last word. |
| `SqlCoverage.MarkerCloseIsFirst` | extension/autocomplete/tokenizer.cpp:414-453 | A dollar quote is closed at the first place behind the opening marker where the whole marker stands, or never. |
| `SqlCoverage.DollarWordIsQuoted` | extension/autocomplete/tokenizer.cpp:441-452 | The token of a dollar quote is a single-quoted literal, with quotes doubled, of exactly the text between the opening marker and the first closing one, and stands for the whole range from marker to marker. |
| `SqlCoverage.BlockEndIsFirst` | extension/autocomplete/tokenizer.cpp:407-413 | A block comment ends at the first star and slash after its opening. |
| `SqlRetokenize.LexedAreTokens` | extension/autocomplete/tokenizer.cpp:185-475 | Every token has one of the shapes the rules can read again: word, number, operator, literal, quoted name, parameter sign. |
| `SqlTokens.ReadsToken` | extension/autocomplete/tokenizer.cpp:185-475 | A text of such a shape, followed by a space, is read as exactly one token with that text, whatever comes before and after. |
| `SqlRetokenize.JoinedTokensAreRead` | extension/autocomplete/tokenizer.cpp:185-475 | A text that ends in such tokens, each followed by one space, yields exactly these tokens. |
| `SqlRetokenize.TokenizingIsStable` | extension/autocomplete/tokenizer.cpp:185-475 | For every text: joining the tokens since its last statement end by single spaces with one at the end and tokenizing again gives the same token texts, in the standard state with an empty last word. |
| `SqlClientTokens.SpaceEndsClean` | extension/autocomplete/tokenizer.cpp:458-475 | A text that ends in a space leaves no last word, unless a quote is still open, and the last word then begins with its prefix or quote. |
| `SqlClientTokens.LastTextComesBack` | extension/autocomplete/autocomplete_extension.cpp:758-774 | Token texts with one more text at the end, joined by spaces, are the client's tokens again if and only if the last one has the shape of a token. |
| `SqlClientTokens.ClientTokensComeBack` | extension/autocomplete/autocomplete_extension.cpp:758-774 | All tokens that the client gets from a text, the last word included, come back from their own texts if and only if there is no last word or it has the shape of a token; a number that stops at its exponent, two plus signs or more and an open double quote have not. |
| `SqlClientTokens.OpenExponentSplits` | extension/autocomplete/tokenizer.cpp:300-336 | The text `1e` gives the one token `1e`; read back with a space behind it gives the two tokens `1` and `e`. |
| `SqlClientTokens.StatementsComeBack` | extension/autocomplete/autocomplete_extension.cpp:762-765 | The tokens of every finished statement come back from their own texts, as one statement with no last word. |
| `SqlRetokenize.QuotesComeBack` | extension/autocomplete/tokenizer.cpp:445-446 | Doubling quotes and then halving the pairs, each from left to right, gives every body back. |
| `SqlRetokenize.BodyComesBack` | extension/autocomplete/matcher.cpp:638-664 | The literal that a dollar quote was rewritten to has exactly the dollar quote's body as its value. |
| `PegAgreement.RunIsPeg` | extension/autocomplete/matcher.cpp:151-169 | On a well-formed matcher graph the parsing expression rules allow exactly one outcome at every token, and it is the one computed. |
| `PegAgreement.RunMoreIsPeg` | extension/autocomplete/matcher.cpp:368-383 | Stopping a repetition when no tokens are left, without trying the element, gives the same as greedy repetition. |
| `PegAgreement.RunFirstIsPeg` | extension/autocomplete/matcher.cpp:270-286 | Trying alternatives on copies of the state is ordered choice: the rules allow exactly the outcome of the first that does not fail. |
| `PegResults.ReadsExactly` | extension/autocomplete/matcher.cpp:151-387 | The rules of parsing expressions read a result if and only if it has the shape of the matcher: one token that the terminal accepts; one part after the other for a list; the chosen child of a choice with its number, where all children before it fail; an empty option exactly where the child fails; one element or more, behind which the element fails; each with the offset that it starts at. |
| `PegResults.FailsExactly` | extension/autocomplete/matcher.cpp:151-387 | A matcher fails if and only if: no token that the terminal accepts, a list whose part fails where the parts before it end, a choice all of whose children fail, a repetition whose element fails; an option never. |
| `PegAgreement.ResultAccounts` | extension/autocomplete/matcher.cpp:151-169 | The leaves of a result are exactly the tokens from where it began to where it ended, in order, and every part starts at the offset it records. |
| `PegMatcher.Run` | extension/autocomplete/matcher.cpp:151-169 | Matching ends, never moves back, and reads no token only where the matcher may be empty. |
| `PegReach.RunIsLocal` | extension/autocomplete/matcher.cpp:63-101 | A match depends only on the tokens up to the furthest one it takes on any way it tries, and the one behind it. |
| `PegTried.ReachIsFurthest` | extension/autocomplete/matcher.cpp:63-101 | The mark that errors are reported at is right behind the last token that a terminal takes when it is tried: as a part of a list behind the parts before it, as an alternative when all before it fail, as an element behind elements. |
| `PegReach.ErrorIsFinal` | extension/autocomplete/transformer/peg_transformer_factory.cpp:41-46 | A syntax error at a token that no way read is final: every statement with the same tokens up to that one, and at it, is rejected too. |
| `PegReach.LastTokenIsReported` | extension/autocomplete/transformer/peg_transformer_factory.cpp:41-46 | When all tokens were read and more are wanted the last one is reported, and a statement that goes on may be accepted: two words of which only the first is there. |
| `PegMatchState.MatchParseResult` | extension/autocomplete/matcher.cpp:63-101 | Recursive matching with a token index changed in place: terminates on every well-formed graph, leaves the index unchanged exactly where the matcher fails, otherwise gives the tree of what the matcher reads and moves the index to its end, and raises the shared mark to exactly the furthest token taken on any way. |
| `PegMatchState.MatchTerminal` | extension/autocomplete/matcher.cpp:68-101 | A terminal takes the token at the index if it accepts it, and moves on by one. |
| `PegMatchState.MatchList` | extension/autocomplete/matcher.cpp:151-169 | All parts one after the other on a copy of the state, or nothing. |
| `PegMatchState.MatchChoice` | extension/autocomplete/matcher.cpp:270-286 | The result of the child whose number it holds, where all children before that one fail; a failing one leaves no trace. |
| `PegMatchState.MatchOptional` | extension/autocomplete/matcher.cpp:218-232 | Always succeeds, with the part's result or an empty one. |
| `PegMatchState.MatchRepeat` | extension/autocomplete/matcher.cpp:349-387 | One element or more, as many as match. |
| `PegMatchState.ParseStatement` | extension/autocomplete/transformer/peg_transformer_factory.cpp:36-46 | A statement is accepted with a result if and only if that is the tree of what the root reads of all tokens; its leaves are then all tokens in order. The reported token is the one behind the last that a tried terminal takes, and no statement with the same beginning is accepted, if and only if no way read all tokens; otherwise it is the last token. |
| `PegFactory.MatcherFactory.CreateMatcher` | extension/autocomplete/matcher.cpp:1174-1331 | Compiling a rule terminates for every rule table, recursive ones included, since a rule is cached before its body is read; the outcome or error is the one of the value-level rules. |
| `PegFactory.MatcherList.AddMatcher` | extension/autocomplete/matcher.cpp:1104-1123 | A list takes the matcher; a choice takes it and leaves the stack; anything else is an error. |
| `PegFactory.MatcherList.CloseBracket` | extension/autocomplete/matcher.cpp:1137-1148 | The bracket's list leaves the stack and is added to what is below it. |
| `PegFactory.MatcherList.ApplyPostfix` | extension/autocomplete/matcher.cpp:1235-1271 | `?`, `*` and `+` wrap the last element of the list on top, in new matchers. |
| `PegFactory.MatcherList.ApplyOr` | extension/autocomplete/matcher.cpp:1272-1297 | `/` opens the choice that the last element is, or makes it the first option of a new one. |
| `PegFactory.MatcherList.ReadToken` | extension/autocomplete/matcher.cpp:1207-1325 | Every kind of token, with its errors. |
| `PegOlder.CompilingKeepsOld` | extension/autocomplete/matcher.cpp:1174-1331 | Compiling a rule, whatever its tokens and those of the rules it mentions, leaves every matcher that was there before as it is, although lists and choices are filled in place. |
| `PegOlder.StepKeepsOld` | extension/autocomplete/matcher.cpp:1207-1325 | One token changes only matchers that were made for rules being read, and never turns a list or a choice into anything else. |
| `PegTrees.ReadRuleExactly` | extension/autocomplete/matcher.cpp:1207-1325 | Reading rule tokens as a tree: a rule reads as these items if and only if they can be printed in the builder's precedence and their printed form is the rule without `!`; no rule has two trees. |
| `PegTrees.TokensReadAs` | extension/autocomplete/matcher.cpp:1207-1314 | How a rule reads as a tree, token by token: a word or a reference is one more item, or right behind a `/` one more option of the last item; `?`, `*` and `+` take the last item alone; a `!` is nothing. |
| `PegTrees.BracketReadsAs` | extension/autocomplete/matcher.cpp:1298-1308 | A rule in brackets is one item, or one more option. |
| `PegShapes.StepFollows` | extension/autocomplete/matcher.cpp:1207-1325 | The builder's stack follows the reading of the tokens: what it takes without an error can be read, except a `)` right after a `/`, and lists, brackets and open choices stay in step. |
| `PegShapes.CompiledRuleIsTree` | extension/autocomplete/matcher.cpp:1174-1331 | A rule that compiles is the printed form of a tree if and only if no `/` stands right before a `)`. |
| `PegBuildErrors.TokenFailsExactly` | extension/autocomplete/matcher.cpp:1207-1325 | The builder fails on a token with an error if and only if it is the one of the token where it stands: a postfix operator or `/` behind a `/` or with nothing before it, a bracket that was never opened, an unknown operator, a regular expression; or the error with which the rule that it refers to does not compile. |
| `PegBuildErrors.CompilingFails` | extension/autocomplete/matcher.cpp:1174-1331 | In a table without a `/` right before a `)` compiling fails for a reason in the rules only: a missing rule, such a token, or a bracket or choice that is open at the end, in the rule or one that it leads to. |
| `PegTables.CompiledAreTrees` | extension/autocomplete/matcher.cpp:1174-1331 | The same holds of every rule that is compiled on the way, and every rule these mention is compiled too. |
| `PegTables.CompilesAlike` | extension/autocomplete/matcher.cpp:1309-1314 | A rule table compiles to the same graph as the table without any `!`. |
| `PegTables.DanglingCompiles` | extension/autocomplete/matcher.cpp:1137-1148 | The rule `A / )` compiles, to a list of the same choice twice, and is the printed form of no tree. |
| `PegRebuildProof.BuildItem` | extension/autocomplete/matcher.cpp:1207-1325 | Building the tokens of one printed item, whatever follows, adds one matcher that holds the item and changes no older matcher but the container it goes into. |
| `PegRebuildProof.BuildOthers` | extension/autocomplete/matcher.cpp:1272-1297 | Every further `/` extends the same choice node in place, however many options follow. |
| `PegRebuildProof.TokensRebuildItems` | extension/autocomplete/matcher.cpp:1207-1328 | Printing a rule tree in the builder's own precedence and building it gives the tree back: the list on top gains exactly the items' matchers, in new matchers of their own, and the stack is as before. |
| `PegRebuildProof.CompileRule` | extension/autocomplete/matcher.cpp:1174-1331 | A rule of a printed grammar compiles with one root left on the stack; every matcher made on the way is built as the item it is labelled with, every rule compiled on the way is labelled with its tree, and nothing that was there changes. |
| `PegRebuild.FittingHolds` | extension/autocomplete/matcher.cpp:1207-1325 | When all matchers are built as they are labelled, also in a graph with circles, a matcher holds the whole tree of its label. |
| `PegRebuildProof.GrammarRebuilds` | extension/autocomplete/matcher.cpp:1174-1331 | Compiling a whole, possibly recursive, printed grammar succeeds, and every rule cached by it is a list that holds the rule's own tree, with references that are the cached matchers. |
| `PegMeaning.RunIsMeaning` | extension/autocomplete/matcher.cpp:1207-1325 | A matcher that holds a rule tree computes exactly the outcome that the tree means as a parsing expression. |
| `PegMeaning.GraphMeansTrees` | extension/autocomplete/matcher.cpp:1174-1331 | On a well-formed graph that holds the rules' trees the parsing expression rules allow exactly the one outcome that the trees mean. |
| `PegCertificate.LabelledIsWellFormed` | extension/autocomplete/matcher.cpp:1174-1331 | A certificate of the rule trees (which rules may read nothing, an order of the rules by what they may start with) gives one of the compiled graph. |
| `PegCertificate.HoldingIsRanked` | extension/autocomplete/matcher.cpp:1174-1331 | A certificate of a graph gives one of the trees that its matchers hold. |
| `PegCertificate.WellFormedExactly` | extension/autocomplete/matcher.cpp:1174-1331 | A compiled graph is well-formed, so that matching ends, if and only if the trees of the compiled rules have a certificate. |
| `PegLeftRecursion.VanishingIsClosed` | extension/autocomplete/matcher.cpp:1174-1331 | The rules that may read nothing, as the least set that holds every rule all of whose items may read nothing if the rules in the set may, are such a set. |
| `PegLeftRecursion.LeftRecursionExactly` | extension/autocomplete/matcher.cpp:1174-1331 | Rule trees have a certificate if and only if no rule can come to itself over rules that are tried before a token is read, and no repeated item may read nothing. |
| `PegTables.CompiledTableHoldsTrees` | extension/autocomplete/matcher.cpp:1174-1331 | For every rule table that compiles without a `/` right before a `)`: its graph holds the trees its rules are read as, and is well-formed if and only if no compiled rule is left-recursive and none repeats what may read nothing. |
| `PegTables.CompilingKeepsMeaning` | extension/autocomplete/matcher.cpp:1342-1385 | For every such table without left recursion and without repetitions of what may be empty: the compiled root has at every token exactly one outcome, and it is the one the rules mean as parsing expressions. |
| `PegTables.ParseWith` | extension/autocomplete/transformer/peg_transformer_factory.cpp:29-46 | Compiling the rules and parsing with the graph ends, and accepts the tokens with a result if and only if the rules mean that the root reads all tokens with that result. |
| `IcuIntervals.CalendarAddHour` | extension/icu/icu-dateadd.cpp:47-65 | Chunks that fit in 32 bits add up to the whole number of hours, of either sign. |
| `IcuIntervals.SetTime` | extension/icu/icu-datefunc.cpp:134-149 | A timestamp is split into milliseconds rounded down and microseconds from 0 to 999, also before 1970. |
| `IcuIntervals.GetTime` | extension/icu/icu-datefunc.cpp:102-132 | Putting milliseconds and microseconds together fails exactly when the value, or its day, does not fit. |
| `IcuIntervals.SubtractField` | extension/icu/icu-datefunc.cpp:160-169 | The whole fields between, and what is left is less than one field. |
| `IcuIntervals.CalendarAdd` | extension/icu/icu-dateadd.cpp:67-133 | Splitting, carrying and adding field by field gives the sum on the calendar, or an error, for every timestamp and interval. |
| `IcuIntervals.CalendarSub` | extension/icu/icu-dateadd.cpp:146-180 | Subtracting, with the borrowed millisecond and unsigned microseconds, gives the same interval as plain integer differences; infinite timestamps are an error. |
| `IcuIntervals.BetweenFits` | extension/icu/icu-datefunc.cpp:160-169 | The days between any two timestamps fit in 32 bits, either way round, and the rest is less than a day, so that the difference can be added. |
| `IcuIntervals.CalendarSubInterval` | extension/icu/icu-dateadd.cpp:140-144 | Subtracting an interval adds the negated one. |
| `IcuIntervals.WrapsBack` | extension/icu/icu-dateadd.cpp:176-177 | The unsigned 64-bit difference of microseconds, cut down to 32 bits, is the signed difference. |
| `IcuIntervalLaws.DifferenceIsConserved` | extension/icu/icu-dateadd.cpp:157-177 | The difference adds up to end - start for all timestamps, before and after 1970, but for one millisecond exactly when the borrow is lost. |
| `IcuIntervalLaws.BetweenIsConserved` | extension/icu/icu-dateadd.cpp:146-180 | The interval between two timestamps in either order has no months and the total length end - start, again but for the lost borrow. |
| `IcuIntervalLaws.AdvancedIsSum` | extension/icu/icu-dateadd.cpp:72-130 | Adding an interval without months moves a timestamp by its total length, whichever order the fields are added in. |
| `IcuIntervalLaws.AddedExactly` | extension/icu/icu-dateadd.cpp:67-133 | For every timestamp and interval: infinite ones stay; otherwise there is a result if and only if stop-over and target have days inside 64 bits, and it is the target: the months, then the days, and what the interval has in microseconds before both when any of its parts is negative and behind both otherwise. |
| `IcuIntervalLaws.WholeDaysExactly` | extension/icu/icu-dateadd.cpp:146-180 | The difference of two timestamps is the whole days between them and the microseconds left; one day more, less what is missing to it, exactly when the end lies before 1970, not at a whole millisecond, and less than a millisecond, or by its microseconds less than two, is missing to that day. |
| `IcuIntervalLaws.AddUndoesSub` | extension/icu/icu-dateadd.cpp:67-180 | For all finite timestamps Add(start, Sub(end, start)) is end if and only if end has a day inside 64 bits, the borrow is not lost, and the addition can make its stop-over; all three are tests on start and end. |
| `IcuIntervalLaws.StopOverConvertsExactly` | extension/icu/icu-dateadd.cpp:87-91 | The range test in the middle of an addition passes exactly when the start is a timestamp with a day inside 64 bits and does not leave the first day, or lies in the last millisecond before these timestamps and the interval's microseconds carry it over. |
| `IcuIntervalLaws.LostBorrowExample` | extension/icu/icu-dateadd.cpp:160-165 | From -1 to 5 microseconds the difference is 1006, and adding it to -1 gives 1005. |
| `IcuRanges.SeriesIsRange` | extension/icu/icu-list-range.cpp:102-123 | The two producers' common series is its start and repeated sums, and stops where the test for the bound says so or a sum cannot be computed. |
| `IcuRangeLaws.FrontExactly` | extension/icu/icu-table-range.cpp:94-107 | Values are the first ones of a range if and only if they are the start and one sum after the other, all of them <= the end going up and >= it going down, and without the end itself when the range is exclusive. |
| `IcuRangeLaws.SeriesExactly` | extension/icu/icu-list-range.cpp:102-123 | They are all values of the range if and only if the next sum is beyond the end: > the end going up inclusively, >= it exclusively, and the other way round going down; a range is stuck after them if and only if the next sum fails. |
| `IcuRanges.CalendarIsMonotone` | extension/icu/icu-dateadd.cpp:67-133 | The interval arithmetic above is strictly monotone for intervals of one sign, so everything about ranges holds for it. |
| `IcuRanges.RangesStayFinite` | extension/icu/icu-list-range.cpp:87-90 | The values of a range never reach the infinite timestamps. |
| `IcuListRange.CountValues` | extension/icu/icu-list-range.cpp:102-122 | The counting loop ends with the length of the series, or the error that comes first: a failing addition or more than 2^32 - 1 values. |
| `IcuListRange.ListLength` | extension/icu/icu-list-range.cpp:79-123 | The length of a row's list, or its error, in the order of the tests. |
| `IcuListRange.ListRangeExactly` | extension/icu/icu-list-range.cpp:79-123 | A row has a list if and only if it is NULL or has a zero interval, and the list is empty, or both bounds are finite, the interval goes one way and the list is all values of the range, at most 2^32 - 1; otherwise the error is the first of infinite bound, mixed signs, overflow and length. |
| `IcuListRange.Measure` | extension/icu/icu-list-range.cpp:145-158 | The first pass gives every row its offset, its length and its validity, or stops at the first row in error. |
| `IcuListRange.Refill` | extension/icu/icu-list-range.cpp:160-175 | The second pass computes the counted values again, and no addition in it can fail. |
| `IcuListRange.ICUListRangeFunction` | extension/icu/icu-list-range.cpp:145-177 | The two passes agree: each valid row's entry cuts out of the child vector the start and its sums up to the end, one after the other without gaps; NULL rows have length 0; the error is that of the first row that is refused. |
| `IcuListRange.SliceIsRow` | extension/icu/icu-list-range.cpp:144-158 | Every row's slice of the child vector is that row's own range. |
| `IcuListRange.JoinedFailsFirst` | extension/icu/icu-list-range.cpp:147-158 | There is a result if and only if every row has a list; otherwise the error is that of the first row without one. |
| `IcuTableRange.ICURangeLocalState.GenerateRangeDateTimeParameters` | extension/icu/icu-table-range.cpp:111-153 | A row is taken over or refused in the order of the tests; the empty-range flag is set and never cleared. |
| `IcuTableRange.ICURangeLocalState.FillBatch` | extension/icu/icu-table-range.cpp:209-220 | A batch of at most the vector size is cut off the front of the row's range; a failing addition loses the values already in the batch. |
| `IcuTableRange.ICURangeLocalState.Next` | extension/icu/icu-table-range.cpp:184-230 | Every call hands out the front of what the state still has to produce, for any vector size; more input is asked for only when nothing is left. |
| `IcuRangeAgreement.RunTable` | extension/icu/icu-table-range.cpp:184-230 | Over a chunk of rows the calls come to an end, and their batches joined are the ranges of the rows one after the other, with all values inside the bound, without those of rows behind one that starts beyond its end, up to the first row in error and the values lost in its batch; the flag then says whether any row so far started beyond its end. |
| `IcuRangeAgreement.TableIsRanges` | extension/icu/icu-table-range.cpp:94-230 | The values of a table, told on the rows with every comparison written out, and which row with which error breaks it off. |
| `IcuRangeAgreement.FreshRowAgrees` | extension/icu/icu-table-range.cpp:94-230 | For every row, valid or not, a fresh table producer and the list producer give the same values or the same error, if and only if the interval is not zero and the range has at most 2^32 - 1 values. |
| `IcuRangeAgreement.RowsAgree` | extension/icu/icu-table-range.cpp:141-208 | For rows that all have lists the table gives the lists' values one after the other if and only if no row with values comes after an empty range; it never fails and never gives more. |
| `IcuRangeAgreement.SilencedExample` | extension/icu/icu-table-range.cpp:141-208 | An empty range followed by two hours: the lists have two values, the table has none. |
| `ConfigCleanup.ConfigStore.GetInheritedSkipTests` | scripts/cleanup_config_skip_tests.py:27-63 | The recursion with a shared visited set terminates for every set of files, circles included. |
| `ConfigFiles.CollectedIsExact` | scripts/cleanup_config_skip_tests.py:27-63 | What it collects is exactly what the configurations above list, at any distance, also in circles. |
| `ConfigWritten.InheritsExactly` | scripts/cleanup_config_skip_tests.py:27-63 | A configuration inherits a path if and only if some group of a configuration at the end of a chain of existing files, each naming the next, lists it. |
| `ConfigFiles.CleanGroups` | scripts/cleanup_config_skip_tests.py:85-106 | Cleaning groups removes exactly the inherited paths from what they list. |
| `ConfigWritten.KeptExactly` | scripts/cleanup_config_skip_tests.py:94 | The paths kept in a group are exactly those that are not inherited, in the order in which they were. |
| `ConfigWritten.GroupsExactly` | scripts/cleanup_config_skip_tests.py:83-106 | The groups kept are exactly those without paths or with a path that is not inherited, in their order, with their other fields and the paths that are kept. |
| `ConfigWritten.CleanedExactly` | scripts/cleanup_config_skip_tests.py:108-124 | A configuration is cleaned to another if and only if that is the same when no listed path is inherited, and otherwise differs in the groups alone, which are those kept, or none at all when none is kept. |
| `ConfigWritten.StepExactly` | scripts/cleanup_config_skip_tests.py:66-124 | Cleaning one file changes it if and only if it lists a path that it inherits; it is then written as cleaned, and every other file stays. |
| `ConfigCleanup.ConfigStore.FilterGroups` | scripts/cleanup_config_skip_tests.py:82-106 | Groups without paths stay, emptied groups go, the others keep their paths that are not inherited in order; a change is reported if and only if something listed is inherited. |
| `ConfigCleanup.ConfigStore.CleanupConfig` | scripts/cleanup_config_skip_tests.py:66-124 | A file is written only when something went away, and never in a dry run. |
| `ConfigCleanup.ConfigStore.CleanAll` | scripts/cleanup_config_skip_tests.py:178-186 | The loop is the steps one after the other, and counts the changed files. |
| `ConfigCleanupLaws.RunKeepsSkips` | scripts/cleanup_config_skip_tests.py:178-186 | Over configurations none of which is above itself, a run in any order keeps what every configuration skips and what it inherits. |
| `ConfigCleanupLaws.RunKeepsSkipsExactly` | scripts/cleanup_config_skip_tests.py:178-186 | For all configurations, circles included: a run keeps what every configuration skips if and only if each path listed by a cleaned configuration that is above itself is also listed above it by one that the run does not clean. |
| `ConfigCleanupLaws.RunOwn` | scripts/cleanup_config_skip_tests.py:178-186 | A run only takes paths away, and a cleaned configuration that is above itself loses its whole list. |
| `ConfigCleanupLaws.RunCleansEach` | scripts/cleanup_config_skip_tests.py:178-186 | The order does not matter: each file of the run ends as itself without what it inherited at the start, and no other file is touched. |
| `ConfigCleanupLaws.RunLeavesNothingRedundant` | scripts/cleanup_config_skip_tests.py:178-186 | No configuration of the run then lists a path it inherits. |
| `ConfigCleanupLaws.SecondRunIsIdle` | scripts/cleanup_config_skip_tests.py:178-186 | A second run over these files, in any order, changes nothing and counts nothing. |
| `ConfigDryRuns.InheritsAfter` | scripts/cleanup_config_skip_tests.py:178-186 | What a configuration inherits after a run, circles included, told from the files and the order: what a configuration above it lists that was not cleaned while a circle above that one still listed it. |
| `ConfigDryRuns.DryRunCounts` | scripts/cleanup_config_skip_tests.py:108-124 | A dry run never counts less than the real run. It counts the same if and only if every file that would change is named once, and when its turn comes a path that it lists is still listed above it. |
| `ConfigDryRuns.DryRunCountsTwice` | scripts/cleanup_config_skip_tests.py:108-124 | When circles keep their skips, and so without circles, the two counts are the same if and only if no file that would change is named twice. |
| `ConfigDryRuns.CircleCountsLess` | scripts/cleanup_config_skip_tests.py:108-124 | A file that inherits from itself and one below it with the same path: the dry run counts two, the real run one. |
| `UnicodeScanner.Scanner.ScanRegular` | extension/autocomplete/autocomplete_extension.cpp:500-563 | The main loop records a span for every Unicode space it meets and leaves for a quote, a dollar quote or a comment; what was dealt with and what remains is still the rewritten text. |
| `UnicodeScanner.Scanner.ScanTag` | extension/autocomplete/autocomplete_extension.cpp:541-558 | A dollar tag is read, or turns out to be plain text. |
| `UnicodeScanner.Scanner.ScanInQuotes` | extension/autocomplete/autocomplete_extension.cpp:564-576 | Doubled quotes stay inside; a single one leads out. |
| `UnicodeScanner.Scanner.ScanInDollarQuotes` | extension/autocomplete/autocomplete_extension.cpp:577-587 | The closing marker, looked for from the last byte of the opening one, leads out. |
| `UnicodeScanner.Scanner.Scan` | extension/autocomplete/autocomplete_extension.cpp:491-597 | The linked loops end for every text; the spans are in bounds, increasing, disjoint and exactly the Unicode spaces that the moves of the scan meet, and replacing them gives the text rewritten in one pass. |
| `UnicodeMoves.FoundExactly` | extension/autocomplete/autocomplete_extension.cpp:500-530 | The spans are exactly the Unicode spaces at which the scan stands in its main loop with more than two bytes left. |
| `UnicodeCodePoints.SpaceExactly` | extension/autocomplete/autocomplete_extension.cpp:500-530 | More than two bytes begin with a Unicode space of n bytes if and only if they begin with the n bytes that encode one of U+00A0, U+2000 to U+200B, U+202F, U+205F, U+2060, U+3000 and U+FEFF in UTF-8. |
| `UnicodeCodePoints.SpanExactly` | extension/autocomplete/autocomplete_extension.cpp:500-530 | A span is one that may be replaced if and only if it is the whole encoding of such a code point and at least three bytes are left from its first on. |
| `UnicodeScanner.ReplaceUnicodeSpaces` | extension/autocomplete/autocomplete_extension.cpp:462-475 | The splice gives the text with every span replaced by one space, and no text when there are no spans. |
| `UnicodeSpaces.RewrittenLength` | extension/autocomplete/autocomplete_extension.cpp:462-475 | The length drops by the sum of the spans' lengths less one each. |
| `UnicodeSpaces.OtherBytesStay` | extension/autocomplete/autocomplete_extension.cpp:462-475 | Every byte outside the spans is in the result, moved left by what the spans before it saved. |
| `UnicodeSpaces.SpansBecomeSpaces` | extension/autocomplete/autocomplete_extension.cpp:462-475 | Every span is one space in the result. |
| `UnicodeScanner.StripUnicodeSpaces` | extension/autocomplete/autocomplete_extension.cpp:491-597 | The two phases, recording spans and splicing, are one pass over the text; without spans the text has nothing to replace. |
| `UnicodeStripTwice.CleanTwice` | extension/autocomplete/autocomplete_extension.cpp:491-597 | Stripping a stripped text changes nothing, for every text and wherever the scan stands. |
| `UnicodeMoves.MovesRewrite` | extension/autocomplete/autocomplete_extension.cpp:491-597 | The moves of the scan, from mode to mode, are those of the rewriting. |
| `UnicodeDollarQuotes.QuoteIsLeftAtItsEnd` | extension/autocomplete/autocomplete_extension.cpp:541-587 | The scan leaves a dollar quote where it ends if and only if the body is not its tag, does not begin with the tag and a dollar sign, and what follows, if longer than two bytes, begins neither with a dollar sign nor like a tag. |
| `UnicodeDollarQuotes.QuoteIsCopied` | extension/autocomplete/autocomplete_extension.cpp:541-587 | Then the quote is copied as it is and the rest is rewritten as a text of its own. |
| `UnicodeComments.ComesOut` | extension/autocomplete/autocomplete_extension.cpp:500-587 | The scan knows no block comments. The mode in which it comes out of one that it began in a given mode depends on the comment alone, whatever follows. |
| `UnicodeLiterals.LexIsKept` | extension/autocomplete/autocomplete_extension.cpp:491-597 | The scan beside the tokenizer, lexeme by lexeme: behind each lexeme both go on from the same byte, and inside quoted ones the scan stands at plain bytes only, when it comes out of every block comment in its main loop and leaves every dollar quote at its end. |
| `UnicodeReplaced.LexGround` | extension/autocomplete/autocomplete_extension.cpp:491-597 | In step with the tokenizer the scan stands at every Unicode space outside of literals and line comments but for those behind a dollar sign and bytes of a tag. |
| `UnicodeReplaced.SpaceIsReplacedExactly` | extension/autocomplete/autocomplete_extension.cpp:500-563 | Under the same condition on the lexemes a Unicode space in no literal, line comment or open one, nor in a block comment that the scan takes for more than plain bytes, is replaced if and only if it is not a two-byte space at the very end, and no dollar sign outside of these is followed by bytes of a tag up to it. |
| `UnicodeReplaced.ParameterKeepsSpace` | extension/autocomplete/autocomplete_extension.cpp:541-558 | The Unicode space behind the parameter in `$a`, then the space, then `b c`, is not replaced. |
| `UnicodeReplaced.LiteralBehindComment` | extension/autocomplete/autocomplete_extension.cpp:564-576 | A Unicode space that begins a literal right behind a block comment is replaced if and only if the scan comes out of the comment inside quotes of the literal's own kind. |
| `UnicodeLiterals.LiteralsAreKept` | extension/autocomplete/autocomplete_extension.cpp:491-597 | Under this condition on the lexemes of a text no replaced Unicode space touches any literal, quoted name or dollar quote that the tokenizer finds. |
| `UnicodeLiterals.LiteralComesThrough` | extension/autocomplete/autocomplete_extension.cpp:462-475 | Such a literal is in the stripped text byte for byte, as far to the left as the spans before it saved. |
| `UnicodeLiterals.QuoteInComment` | extension/autocomplete/autocomplete_extension.cpp:500-563 | With a quote in a block comment before it a literal has its Unicode space replaced. |

## Left out

Arithmetic and data that the models take as given:

* The ICU library, time zones, daylight saving, eras, weeks and truncation, and times as doubles.  The calendar
  counts milliseconds; days and smaller fields have fixed lengths, adding months is a function that is only
  assumed to leave a time alone for zero months, and for ranges to move in the direction of its sign.
* `list_filter` and `list_transform` over a lambda that changes from call to call; the lambda is a function of
  the element, its 1-based index and its row, which stands for the captured columns.  Turning a result into a
  constant vector, and the `Vector` and `DataChunk` classes: vectors are sequences and arrays, selection vectors
  are sequences of positions.
* The borrowed millisecond is taken from a number without bounds: in 64 bits the subtraction leaves the range when
  the end is less than 1000 microseconds above the smallest value, a time that has no day in 64 bits.
* JSON arrays of 2^56 elements or more (`JsonValues.Fits`), the storage of values in yyjson, and what happens
  after a path has been read past its end.
* The texts of error messages.
* Files that are not valid JSON or whose entries have the wrong type; a file that cannot be loaded is passed
  over.  File names are taken as resolved, so that two spellings of one file do not occur.

Behaviour of the PEG engine:

* `Match`, suggestions and their ranking, which serve completion.
* Terminals other than keywords are a test on one token's text; the number matcher's error on a second
  exponent, unquoting and case folding of identifiers, and keyword categories are not looked into.
* The rule names that parse results carry; a result is known by its shape and its tokens.
* Function calls in rules.  A regular expression in a rule is an error, and `!` is ignored, as in the code.
* Rule names and the keywords with a matcher of their own are looked up as written; the parser's table of rules and
  the builder's table of these keywords ignore case.
* Parsing the text of a grammar into rule tokens.
* An empty token list, for which the error position would lie outside the list.
* Matching with graphs that are not well-formed, which are those of rule tables with left recursion or with a
  repetition of what may be empty (`PegTables.CompiledTableHoldsTrees`): there the matcher need not return.

Other:

* The tokenizer's other client, which collects tokens for completion, and its state's suggestions.
* `StringUtil`: `Replace` is written out from left to right without overlap, and the character classes are
  ASCII.
* The cardinality estimate of the table function, binding and registration of functions.
* Prediction operators, benchmark runners, code generators, build scripts and generated tables.
