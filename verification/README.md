# goyang in Dafny

goyang compiles YANG modules (RFC 7950): it lexes and parses module text,
resolves types and their restrictions, and turns statements into schema trees
that it merges, augments and completes. This project models the algorithms at
its core and proves what they promise.

* `Wrappers`, `Text`, `Lexing`, `Lexer`, `Pieces`, `Grammar`, `Parser`, `Printer`,
  `Layouts`, `Rereads`, `RoundTrip`, `Bodies`, `StringRule`, `TabStops`, `Strides`,
  `Columns`, `Drift`, `Quotes`: the character-level lexer and the statement parser as
  classes with the fields of the original, proved against a pure token stream, a
  lexical grammar with its characters spelled out, and the statement grammar of
  section 6.3 of RFC 7950; the printer, which the parser inverts; the string rule of
  section 6.1.3, and the column that rule depends on, over whole sources.
* `Numbers`, `Ranges`, `RangeHeads`, `RangeText`, `RangeRoundTrip`, `IntegerTexts`,
  `DecimalTexts`, `Restrictions`, `Types`, `Derivations`, `EnumTypes`: numbers of a
  sign, a 64-bit value and fraction digits; ranges as sets of values; what every text
  of a number, a range or a restriction means; what a type statement leaves of its
  base, and narrowing along chains of typedefs; enumerations and bits.
* `Trees`, `Choices`, `Paths`, `Entries`, `Augments`, `Confluence`, `Notes`,
  `Prefixes`, `Schedules`, `CasePaths`, `Supplies`, `LateAugments`, `Remainders`, `Gathers`,
  `LateOrders`, `LateReports`, `LateCases`, `Outcomes`, `Shorthands`, `Chains`,
  `Processing`: schema trees as values and as entries in the heap with parent
  links; deep copy, merge, error import, lookup, namespaces, implicit cases, and the
  augment loops of `Process`: what their runs add, which run an order of the modules
  gives, when the order matters, which paths the cases change, and what the last
  loop applies and reports once the cases are in.
* `Identities`, `Includes`, `Groupings`: closure of the identity graph, the
  traversal of includes and imports, and the search for a grouping.
* `Indent`: the streaming indenter.

In the class `Entries.Entry` the ghost field `tree` is the value of the tree
below an entry and `Repr` the set of its entries. `Valid()` ties both to the
real fields; it also says that every child's `Parent` is the entry that holds
it and that no entry is held twice. In a run of augments, a number stands for
the statement with that place in the table of all augments.

## Where the code does not do what its documentation or the RFC says

* The indentation of a double-quoted string is measured from `tcol`, which
  `updateCursor` does not advance: `'...'` is charged two columns, `/*...*/`
  three and `//...` one, whatever they hold. After such a text on the line the
  column at a quote is too small, and lines keep blanks that section 6.1.3 of
  RFC 7950 removes; after one that began on an earlier line it can be too large,
  and lines lose blanks (`Quotes.ColumnTooSmall`, `Quotes.ColumnTooLarge`).
  `Drift.RightByWidth`, `Drift.RightAfter` and `Drift.OneLine` say exactly
  when it is right, and `Quotes.ColumnMatters` that it has to be.
* Section 6.1.3 counts a tab in the indentation of a later line as eight spaces,
  and the comment above `lexQString` says the same. The code goes on to the next tab
  stop instead (`TabStops.TabOffStop`), and keeps a tab that crosses the column of
  the quote where the rule leaves its rest as spaces (`TabStops.TabAcross`).
  `TabStops.SameStopIsExact` says exactly when the two agree; they do whenever
  each tab within the limit begins at a multiple of eight and ends within the
  limit (`TabStops.AlignedAgrees`).
* A line break is LF or CRLF in the RFC. Blanks before a CRLF stay
  (`TabStops.BlankBeforeReturn`), as the code stops at the carriage return.
* Escapes are replaced before trailing blanks are dropped, where the rule speaks
  of the text as written: `\t` at the end of a line is lost. At a right column
  these three are the only ways to miss the rule: `StringRule.ReadsTheRule` has the
  exact condition, line by line (`StringRule.KeepsLine`).
* `/*/` is a whole comment (`Pieces.SlashStarSlash`), and a comment right behind a
  word is part of the word (`Pieces.CommentInWord`); sections 6.1.1 and 6.1.3 of
  RFC 7950 say otherwise.
* The comment on `token.Col` promises columns with tabs of eight spaces; a tab counts
  as one (`LexerMachine.Lexer.NextToken`).
* `Statement.Write` prints a carriage return as `\r` on every line but the first of
  several, and so other control characters; the lexer refuses such escapes
  (`Rereads.ControlLost`).
* `Statement.Write` prints the first line of a multi-line argument without
  escapes, and reading drops blanks before a line break.
  `Rereads.RereadIsExact` says exactly which arguments survive, and
  `RoundTrip.PrintParseBack` what a forest is read back as.
* `addQuantum` wraps at 2^64-1, so `coalesce` takes a part after one that ends
  there for a later one unless it starts at or below zero;
  `Ranges.CoalesceIsNormal` has the exact condition. `Validate` never moves
  past its first range, so the overlap is not found: `RangeRoundTrip.OverlapAccepted`
  is a range that is accepted although its parts overlap.
* Below such a range `max` reads as the end of its last part, which need not be its
  greatest value (`Restrictions.MaxBelowGreatest`).
* The digits behind the point of a decimal are counted modulo 256: a point, 255 zeros
  and a one are read as one (`DecimalTexts.LongFractionIsOne`;
  `DecimalTexts.PointedIsExact` has the exact condition). A point before the sign and
  a point alone are accepted (`DecimalTexts.PointBeforeSign`, `DecimalTexts.PointAlone`).
* `ParseInt` reads `-0` as a negative number with value 0, which sorts below 0
  and is not in a range that starts at 0 (`Numbers.LessIsRationalOrder`,
  `Ranges.ContainsIsExact`).
* `Number.Int` negates in 64 bits and returns 1 for -(2^64-1) (`Numbers.IntIsExact`,
  `Numbers.IntWraps`), so that is accepted as the number of fraction digits
  (`Derivations.NegativeDigits`).
* `SetNext` of a bit-field refuses to go on after position 2147483647 although
  `Set` accepts the next one (`EnumTypes.NextBitRefused`).
* A type that fails to resolve on a resolved base is filled in all the same: a
  second call reports no error, and a typedef above it is accepted
  (`Types.Type.Resolve`, `Types.RefusedThenAccepted`).
* The count `iw.Write` returns after a failure charges a prefix to the first
  line also when that line continues one begun before (`Indent.CountOnOpenLine`,
  `Indent.OpenWriterCount`). Where writers are nested it is then always too small
  (`Indent.OpenStackCount`).
* Where two augments of two modules add one node with different fields, what the
  schema says of it depends on the order in which a Go map is visited
  (`Schedules.OrderDecides`), and so can the augments applied
  (`Schedules.OrderMatters`). If no two augments of a complete run add the
  same node, every complete run gives the same schema (`Confluence.Confluent`).
* Implicit cases are inserted after the augment loop, so an augment that goes
  through one, as section 7.9.2 of RFC 7950 wants it, is left over by the loop
  (`Shorthands.ImplicitCaseIsLate`, `CasePaths.LeftOver`). A last loop gives each
  module that has augments left one more turn and applies those that now have a
  target (`Processing.Modules.Process`, `CasePaths.TargetAfterwards`). No cases
  are inserted after that: what such an augment adds to a choice stays bare
  (`Shorthands.BareInTheEnd`). `LateCases.CasesStay` says exactly when all
  children of sound choices are still cases at the end.
* The last loop gives each module of the list one turn, in the order of the list.
  One of two such augments that needs a node of the other is applied or reported by
  that order, although nothing clashes (`Chains.OrderMattersLate`). A module with a
  revision is entered under two names and has two turns; the order can then matter
  where it would not with one turn each (`Chains.OrderMattersTwice`).
  `LateOrders.OrderIsExact` says, for any number of turns, exactly when the order
  makes no difference to what is applied, and `LateReports.ReportsAreExact` when it
  makes none to what is reported. `Outcomes.AnyOrder` puts both loops together.
* Each of these turns reports what it leaves, so an augment that the first turn of
  its module leaves and the second applies is applied and reported as not found
  (`Chains.ReportedAndApplied`). `LateReports.FirstTurnReports`: an augment is
  reported exactly if the first turn of its module leaves it.
* A path that went on below a shorthand child without naming the case leads
  nowhere once the cases are in, unless its next step happens to bear the name of
  that child (`CasePaths.BelowBareChild`).
* Each try of an augment with an unknown prefix adds an error to its module, so
  the number of these errors depends on the number of passes
  (`Processing.Modules.FindTarget`, `Schedules.Turn`).

## Model

| member | source | states |
|---|---|---|
| Lexing.LexAfterGlance | pkg/yang/lex.go:212-234 | Stepping one character ahead and back, which may change the tab column, changes no token that is still to come |
| LexerMachine.Lexer.constructor | pkg/yang/lex.go:139-152 | A new lexer is in the initial state and has all the tokens of the text before it |
| LexerMachine.Lexer.Next | pkg/yang/lex.go:238-259 | Consumes one character; line, column and tab column follow it; at the end nothing changes |
| LexerMachine.Lexer.Backup | pkg/yang/lex.go:212-226 | Undoes the last step, once, down to the line and never below the start of the token |
| LexerMachine.Lexer.AcceptRun | pkg/yang/lex.go:263-270 | Skips all leading characters of the set, says whether there were any, and loses no token |
| LexerMachine.Lexer.SkipTo | pkg/yang/lex.go:274-280 | Stops exactly at the first occurrence, or moves nowhere when there is none |
| LexerMachine.Lexer.UpdateCursor | pkg/yang/lex.go:286-298 | Moves on by n characters with line and column kept right |
| LexerMachine.Lexer.EmitText | pkg/yang/lex.go:186-201 | Queues the token with the line it began on; only a full queue drops it |
| LexerMachine.Lexer.AddError | pkg/yang/lex.go:335-348 | Counts an error, and empties the input once there are too many |
| LexerMachine.Lexer.LexGround | pkg/yang/lex.go:355-418 | One step in the ground state uses up input or leaves it to a state that will, and queues the next token of the text, which begins at the place remembered as its start |
| LexerMachine.Lexer.LexQString | pkg/yang/lex.go:434-500 | Delivers the quoted token with its indentation removed and its escapes read, or reports the token as faulty |
| LexerMachine.Lexer.LexUnquoted | pkg/yang/lex.go:509-522 | Delivers the longest unquoted word |
| LexerMachine.Lexer.NextToken | pkg/yang/lex.go:155-177 | Always ends; without errors it returns the tokens of the text one by one with none lost, each with the line on which that very token begins and one more than the characters before it on that line as its column, and an error is reported exactly for a faulty token |
| Pieces.PiecesRead | pkg/yang/lex.go:355-522 | A source cut into white space, comments and tokens, their characters spelled out, lexes into what the pieces stand for |
| Pieces.LexedIsPieces | pkg/yang/lex.go:355-522 | The lexer reads a text to its end without a fault if and only if it can be so cut |
| Pieces.SourceTokens | pkg/yang/lex.go:139-152 | A source whose last line feed is missing has the tokens of the pieces of the one with it |
| Pieces.WhiteRun | pkg/yang/lex.go:355-357 | Any run of blanks, tabs, carriage returns and line feeds is skipped, the column going on over it |
| Pieces.SlashStarSlash | pkg/yang/lex.go:395-403 | A slash, a star and a slash are a whole comment |
| Pieces.CommentInWord | pkg/yang/lex.go:509-522 | A comment right behind a word is part of it |
| Grammar.ParserIsExact | pkg/yang/parse.go:156-182 | The parser accepts a text if and only if its tokens derive from the statement grammar, and returns the forest of that derivation |
| Grammar.GrammarIsUnambiguous | pkg/yang/parse.go:203-318 | Two derivations of the same tokens are the same forest |
| Grammar.ParsedIsBalanced | pkg/yang/parse.go:327-338 | A text with unbalanced braces is never accepted |
| ParserMachine.Parser.NextUnprocessed | pkg/yang/parse.go:207-214 | Skips error tokens and returns the next token, or the end |
| ParserMachine.Parser.Next | pkg/yang/parse.go:187-250 | Returns a token that was pushed back first, else the next one with adjoining strings joined |
| ParserMachine.Parser.JoinStrings | pkg/yang/parse.go:219-249 | Joins string + string as often as it goes and pushes back what does not belong |
| ParserMachine.Parser.NextStatement | pkg/yang/parse.go:257-318 | Ends on every input; without errors it reads exactly one statement, a closing brace, or the end |
| ParserMachine.Parser.CheckStatementDepthIsZero | pkg/yang/parse.go:327-338 | Adds an error if and only if a block is open |
| ParserMachine.Parse | pkg/yang/parse.go:156-182 | The stateful parser over the stateful lexer gives the result of the grammar for every input |
| Printer.ContinuationParts | pkg/yang/parse.go:113-125 | The loop pads and escapes every line after the first and closes the quote after the last |
| Printer.Write | pkg/yang/parse.go:96-145 | The writer receives the printed form of the tree after what it already had |
| Printer.QuoteCharReads | pkg/yang/parse.go:104-115 | The quoted form of a character stands for it in a Go literal, and that of an ASCII character is printable |
| Layouts.IndentedLines | pkg/yang/parse.go:92-145 | The lines of a statement are those it has at the top, each after the indentation |
| Layouts.ChildrenIndented | pkg/yang/parse.go:92-145 | The lines of its children stand between the lines with its braces, each after one tab more |
| Rereads.PadColumn | pkg/yang/parse.go:107-118 | The padding of continued lines ends at the column after the opening quote, for every blank indent |
| Rereads.RereadWhole | pkg/yang/parse.go:96-145 | A printable argument whose first of several lines has no bare quote and no lone backslash is read as one string: that line with its escapes replaced, and all lines without the blanks at their ends |
| Rereads.RereadIsExact | pkg/yang/parse.go:96-145 | A printable argument is read back as it was printed if and only if no line but the last ends in a blank and its first of several lines has no quote, and no backslash but in a pattern before a character that needs none; or a pattern has a lone backslash there and an empty line next that is not the last |
| Rereads.ControlLost | pkg/yang/parse.go:104-115 | Of ASCII, just the printable characters, tab and line feed are read back as they were printed; the form of any other is an invalid escape |
| RoundTrip.LexPrint | pkg/yang/parse.go:96-145 | The printed statement lexes into the tokens of the statement with its arguments as they are read back |
| RoundTrip.PrintParse | pkg/yang/parse.go:92-182 | Parsing a printed forest gives back the forest |
| RoundTrip.PrintParseBack | pkg/yang/parse.go:92-182 | Parsing a printed forest whose arguments are each read as one string gives the forest with those strings as arguments |
| RoundTrip.PrintParseIsExact | pkg/yang/parse.go:92-182 | Such a forest is given back if and only if printing keeps each of its arguments |
| RoundTrip.EndingsParseBack | pkg/yang/parse.go:92-182 | So it is with other line ends than line feeds outside of arguments: any white characters the last of which is a line feed |
| RoundTrip.CrLfParse | pkg/yang/lex.go:355-357 | A forest that printing keeps, with a carriage return before each of these line feeds, parses to itself |
| RoundTrip.UnquotedArgument | pkg/yang/parse.go:257-318 | A word as argument is read as it stands |
| RoundTrip.SplitArgument | pkg/yang/parse.go:216-249 | Two quoted strings with a plus sign between them are read as one text after the other |
| Bodies.ReadsLines | pkg/yang/lex.go:434-500 | What the lexer reads between two quotes: every later line loses its blanks up to the column by tab stops, escapes are replaced, and then blanks before line feeds go |
| StringRule.ReadsTheRule | pkg/yang/lex.go:420-500 | Whatever the column, a string without a broken escape has the value section 6.1.3 of RFC 7950 defines, tabs as eight spaces and lines ended by LF or CRLF, if and only if each of its lines meets a condition on its blanks, its escaped tabs and its CRLF |
| StringRule.LineDecides | pkg/yang/lex.go:434-500 | On each line what is read is what the rule gives if and only if the line meets that condition; before a line break the texts otherwise differ at a place within the shorter |
| StringRule.MakesUpIsExact | pkg/yang/lex.go:455-480 | Blanks kept at the end of a line of escaped tabs and blanks make up for those missing in front if and only if the two indentations differ by as many blanks and the longer repeats itself at that distance up to them |
| StringRule.TabsMakeUp | pkg/yang/lex.go:455-480 | For a number of escaped tabs: if and only if the longer indentation goes on with as many tabs, at most as there are blanks at the end, and those end in as many tabs after the rest of it |
| StringRule.TrimThenSubst | pkg/yang/lex.go:455-493 | On one line, replacing escapes before trimming gives what trimming first gives if and only if the trimmed line does not end in an escaped tab; otherwise it loses characters |
| TabStops.SameStopIsExact | pkg/yang/lex.go:420-480 | Stripping to tab stops leaves what stripping at eight columns a tab leaves if and only if the blanks all fit within the limit at eight a tab, or both reach the limit before the same character |
| TabStops.AlignedAgrees | pkg/yang/lex.go:420-480 | So they agree when every tab within the limit begins at a multiple of eight and ends within the limit |
| TabStops.TabOffStop | pkg/yang/lex.go:427-480 | A line indented by a space and a tab of which the code removes one space more than the rule |
| TabStops.TabAcross | pkg/yang/lex.go:427-480 | A tab across the column of the quote, kept by the code, of which the rule leaves five spaces |
| TabStops.BlankBeforeReturn | pkg/yang/lex.go:455-465 | A blank before a CRLF, which the code keeps |
| Columns.WalkTokens | pkg/yang/lex.go:355-418 | From any place the lexer reaches, it delivers the remaining tokens of the source |
| Columns.TokenPlace | pkg/yang/lex.go:355-418 | Every token of the source is read at a place so reached |
| Strides.BodyEnds | pkg/yang/lex.go:434-500 | A closed string ends at a quote, the column behind it is counted right, and without bad escapes each backslash has a character to go with it |
| Strides.CountedStride | pkg/yang/lex.go:238-259 | White space, words, punctuation and double-quoted strings move the column by exactly their characters and tabs |
| Strides.PassedStride | pkg/yang/lex.go:282-298 | Single-quoted strings and comments move it by two, three or one, never by more than their length |
| Drift.PassedRight | pkg/yang/lex.go:282-298 | A right column stays right over such a text on one line if and only if the text is two single quotes or the comment of three characters; over a line feed the columns of its last line are charged wholly |
| Columns.MeetsIsExact | pkg/yang/lex.go:244-256 | A wrong column becomes right over a counted text if and only if the text has a line feed or its first tab takes both columns to one stop |
| Columns.ColumnOfSeen | pkg/yang/lex.go:238-298 | At every place of every source the column is that of the source with each text passed over replaced by as many blanks as it is charged |
| Drift.RightByWidth | pkg/yang/lex.go:238-298 | So it is right if and only if the last line of the source read so far and that of this shorter text take the same columns; without tabs, have the same length |
| Drift.RightAfter | pkg/yang/lex.go:238-298 | From the last text that takes more than it is charged, the column is right if and only if it meets the real one on the way |
| Drift.OneLine | pkg/yang/lex.go:286-298 | Along one line without tabs a right column is never too large, and stays right if and only if nothing passed over takes more than it is charged |
| Drift.NeverTooLarge | pkg/yang/lex.go:286-298 | Unless a line feed was passed over, the column is never too large |
| Quotes.QuoteReads | pkg/yang/lex.go:420-500 | Wherever in a source a quoted string is read, at a right column or a wrong one, in a pattern or not, the token has the value of section 6.1.3 of RFC 7950 if and only if each line meets the condition for the two columns |
| Quotes.ColumnMatters | pkg/yang/lex.go:420-500 | The column is right if and only if every string that would keep the rule at the column taken gets its value |
| Quotes.ColumnTooSmall | pkg/yang/lex.go:286-298 | A source on which a string keeps a blank it should lose |
| Quotes.ColumnTooLarge | pkg/yang/lex.go:286-298 | A source on which a string loses a blank it should keep |
| Numbers.ComputePow10 | pkg/yang/types_builtin.go:560-566 | Computes the power of ten without 64-bit overflow |
| Numbers.Frac | pkg/yang/types_builtin.go:176-180 | The fraction to 18 digits is below one and its products do not overflow |
| Numbers.LessIsPlaceOrder | pkg/yang/types_builtin.go:138-160 | The digit-wise comparison orders all numbers by one integer each, for any mix of fraction digits |
| Numbers.LessIsStrictWeakOrder | pkg/yang/types_builtin.go:138-165 | The comparison is a strict weak order whose equality is Equal |
| Numbers.LessIsRationalOrder | pkg/yang/types_builtin.go:138-160 | It is the order of the rational values, except exactly between a negative zero and zero |
| Numbers.AddOne | pkg/yang/types_builtin.go:121-134 | Adding a quantum adds one, but wraps to zero at 2^64-1 |
| Numbers.AddQuanta | pkg/yang/types_builtin.go:118-134 | Adding any number of quanta adds that number, and past 2^64-1 wraps |
| Numbers.IntIsExact | pkg/yang/types_builtin.go:107-118 | Int returns the value when it fits and fails otherwise, except exactly for integers below -2^63 |
| Numbers.IntWraps | pkg/yang/types_builtin.go:107-118 | An integer below -2^63 that Int returns as a positive number |
| Ranges.Coalesce | pkg/yang/types_builtin.go:512-536 | The in-place loop computes the fold over the sorted list |
| Ranges.CoalesceKeepsValues | pkg/yang/types_builtin.go:512-536 | Coalescing keeps the set of values |
| Ranges.CoalesceIsNormal | pkg/yang/types_builtin.go:121-134 | Its result has a gap between neighbours if and only if no part after one that ends at 2^64-1 starts above zero |
| Ranges.CoalescedIsUnique | pkg/yang/types_builtin.go:512-536 | Two coalesced lists without a negative zero that have the same values are the same list |
| Ranges.CoalesceFixed | pkg/yang/types_builtin.go:512-536 | Coalescing a coalesced list changes nothing |
| Ranges.Contains | pkg/yang/types_builtin.go:278-298 | The two-pointer loop stays within both lists and decides what its specification says |
| Ranges.ContainsCovers | pkg/yang/types_builtin.go:278-298 | It answers yes if and only if each range of s lies within one range of r |
| Ranges.ContainsIsExact | pkg/yang/types_builtin.go:278-298 | It answers yes if and only if every value of s is a value of r and no bounds differ in the sign of zero alone |
| Ranges.ContainsIsSubset | pkg/yang/types_builtin.go:278-298 | For numbers without a negative zero it decides the subset relation |
| Ranges.SortSorts | pkg/yang/types_builtin.go:220-259 | Sorting gives a sorted permutation |
| Ranges.SortIsUnique | pkg/yang/types_builtin.go:220-259 | There is only one sorted permutation, so any sorting algorithm gives it |
| Ranges.Validate | pkg/yang/types_builtin.go:236-254 | Accepts exactly the sorted lists whose first range is valid and in which no range starts below the end of the first |
| Ranges.CoalescedValidates | pkg/yang/types_builtin.go:236-254 | A coalesced list is accepted if and only if its first range is valid |
| RangeText.ComputeChildRanges | pkg/yang/types_builtin.go:449-508 | The loop over the parts computes the specified restriction or fails with it |
| RangeText.ContainsFromSound | pkg/yang/types_builtin.go:278-298 | A yes is right for any lists, sorted or not |
| RangeText.RestrictionNarrows | pkg/yang/types_builtin.go:449-508 | An accepted restriction has the values of the written parts, all of them values of the parent, and is coalesced exactly when the parts are clear of 2^64-1 |
| RangeHeads.CoalesceHeaded | pkg/yang/types_builtin.go:512-536 | Whatever coalescing gives is coalesced up to the first range that ends at 2^64-1, and later ranges start no lower than that one |
| RangeHeads.HeadHolds | pkg/yang/types_builtin.go:512-536 | The ranges up to there hold all its values |
| RangeHeads.ContainsHead | pkg/yang/types_builtin.go:278-298 | The walk of Contains looks at no others |
| RangeText.RestrictionAccepted | pkg/yang/types_builtin.go:449-508 | Below any parent that coalescing gives, a restriction is accepted if and only if its parts are well-formed, their values are values of the parent, no bounds differ in the sign of zero alone, and no part starts below the end of the first |
| RangeText.NothingBelowFirst | pkg/yang/types_builtin.go:236-254 | The last condition holds by itself unless a part that ends at 2^64-1 has a later one above zero |
| Restrictions.RestrictionReads | pkg/yang/types_builtin.go:449-508 | A restriction of numbers with any fraction digits, of min as the least and max as the greatest bound of the parent, and white space around each, is accepted if and only if these are ranges with their bounds in order within the parent, save a clash of zeros and an overlap with the first, and has the values of these ranges |
| Restrictions.NothingStands | pkg/yang/types_builtin.go:449-508 | It is refused if a bound stands for no number |
| Restrictions.ThreeBounds | pkg/yang/types_builtin.go:475-497 | A part with two pairs of points is refused |
| Restrictions.MinAndMax | pkg/yang/types_builtin.go:450-467 | The text min means the least value of a coalesced parent alone, and max the greatest |
| Restrictions.MinToMax | pkg/yang/types_builtin.go:449-508 | The text min..max is accepted if and only if the parent is one range, and means just its values |
| Restrictions.NoParent | pkg/yang/types_builtin.go:450-467 | Without a parent, min and max are refused wherever they stand |
| Restrictions.MaxBelowGreatest | pkg/yang/types_builtin.go:450-467 | A parent that is not coalesced, below which max is not its greatest value |
| RangeRoundTrip.IntegerRoundTrip | pkg/yang/types_builtin.go:84-103 | The text of every integer, a negative zero too, parses to that integer |
| IntegerTexts.IntegerReads | pkg/yang/types_builtin.go:349-371 | A sign or none, a prefix that names the base and digits of it are read as the number they are if 64 bits hold it, with underscores just where they stand between digits or behind the prefix, and are refused otherwise |
| IntegerTexts.IntegerForm | pkg/yang/types_builtin.go:349-371 | No other text is read, but for white space around it |
| RangeRoundTrip.DecimalRoundTrip | pkg/yang/types_builtin.go:375-424 | The text of a decimal parses to that decimal if and only if it is no negative zero and its digits fit 64 signed bits |
| DecimalTexts.PointedReads | pkg/yang/types_builtin.go:375-424 | A sign or none and digits with a point anywhere are accepted if and only if the digits behind it, counted modulo 256, are no more than asked for and 64 signed bits hold the scaled number, which is the one read |
| DecimalTexts.PlainReads | pkg/yang/types_builtin.go:375-424 | Without a point likewise, with no digits behind it |
| DecimalTexts.DecimalForm | pkg/yang/types_builtin.go:375-424 | No other text is accepted |
| DecimalTexts.PointedIsExact | pkg/yang/types_builtin.go:392-424 | The number read is the one the text stands for if and only if fewer than 256 digits follow the point, or all digits are zeros |
| DecimalTexts.DecimalScales | pkg/yang/types_builtin.go:375-424 | The text of a number is read with any number of fraction digits asked for, as the same rational, unless it has more or 64 signed bits do not hold it |
| DecimalTexts.PointBeforeSign | pkg/yang/types_builtin.go:397-417 | A point before a sign is accepted |
| DecimalTexts.PointAlone | pkg/yang/types_builtin.go:397-417 | A point alone is read as zero |
| DecimalTexts.LongFractionIsOne | pkg/yang/types_builtin.go:397-417 | A fraction of 256 digits that is read as one |
| RangeRoundTrip.RangesRoundTrip | pkg/yang/types_builtin.go:430-536 | The text of a non-empty coalesced range parses to that range, for integers of both signs of zero and for decimals that read back |
| RangeRoundTrip.OverlapAccepted | pkg/yang/types_builtin.go:236-254 | A range whose last part lies within the one before parses without error into itself |
| Types.DeriveNarrows | pkg/yang/types.go:239-333 | One type statement allows no value its base forbids, and its range and length are the written parts with min and max of the base |
| Derivations.DigitsDecide | pkg/yang/types.go:251-273 | A type statement that names decimal64 is accepted if and only if its fraction digits are 1 to 18 once wrapped in 64 bits, and its values are then all multiples of that quantum that 64 signed bits hold |
| Derivations.NegativeDigits | pkg/yang/types.go:262-266 | A negative number of fraction digits is accepted as one |
| Derivations.DigitsOnlyThere | pkg/yang/types.go:251-275 | Fraction digits must be given where decimal64 is named and nowhere else |
| Derivations.DeriveInSteps | pkg/yang/types.go:251-333 | Fraction digits, range and length have the effect they have one after the other |
| Derivations.RangeDecides | pkg/yang/types.go:299-308 | A range statement is accepted if and only if its bounds stand for ranges within that of the base, and leaves just their values; one refused leaves the type as it was |
| Derivations.LengthDecides | pkg/yang/types.go:310-333 | A length statement likewise, below any length of 64 bits where the base says nothing |
| Derivations.ChainLengths | pkg/yang/types.go:310-333 | No chain of typedefs allows a length that is not a number of 64 bits, so that a negative one is never reported |
| Types.RestrictionCoalesced | pkg/yang/types_builtin.go:449-508 | An accepted restriction is coalesced if and only if no range follows one that ends at 2^64-1, and if and only if no part above zero does; below a parent without that value it always is, and below any other all its values are in its coalesced beginning |
| Types.Type.Resolve | pkg/yang/types.go:166-333 | Fills the type in once, with the type derived from the resolved base, also where it reports an error, which it does only then; it stays empty exactly if its base could not be resolved |
| Types.Typedef.Resolve | pkg/yang/types.go:118-162 | Takes over the resolved type and remembers it |
| Types.RefusedThenAccepted | pkg/yang/types.go:118-333 | A type whose range leaves its base is refused by the first call and accepted by the second, and so is a typedef above it |
| Types.ChainNarrows | pkg/yang/types.go:118-333 | Along a typedef chain of any length, each type allows no value any ancestor forbids |
| Types.ChainNarrowsGround | pkg/yang/types.go:118-333 | Nor any value the built-in type at its end forbids |
| Types.ResolvedNarrows | pkg/yang/types.go:118-333 | The same for the types as resolution stored them |
| EnumTypes.EnumType.Set | pkg/yang/types_builtin.go:609-628 | Succeeds exactly for a new name and a value in bounds, unused in an enumeration; a failure changes nothing |
| EnumTypes.EnumType.SetNext | pkg/yang/types_builtin.go:632-637 | Assigns one more than the last value; fails exactly for a known name or at the bound |
| EnumTypes.LastIsMaximum | pkg/yang/types_builtin.go:609-637 | After any run, last is the maximum of -1 and all values |
| EnumTypes.RunIsFunctional | pkg/yang/types_builtin.go:609-637 | After any run, toInt holds exactly the assignments made, all in bounds |
| EnumTypes.RunIsExact | pkg/yang/types_builtin.go:580-628 | The runs of an enumeration are those with different names and different values of 32 signed bits, those of a bit-field those with different names and positions of 32 bits |
| EnumTypes.ValueNameValue | pkg/yang/types_builtin.go:609-646 | toInt undoes toString, which holds the latest name of each value |
| EnumTypes.NameValueName | pkg/yang/types_builtin.go:609-646 | For enumerations toString undoes toInt |
| EnumTypes.NextBitRefused | pkg/yang/types_builtin.go:632-637 | A run of a bit-field after which SetNext fails while Set would accept the same position |
| Indent.StringIndents | pkg/indent/indent.go:25-46 | Split and join put the prefix before every line and nowhere else |
| Indent.TwoIndents | pkg/indent/indent.go:77-97 | Indenting twice is indenting once with both prefixes |
| Indent.StackIsOneWriter | pkg/indent/indent.go:60-97 | A stack of writers in step is one writer with all the prefixes |
| Indent.OutConcat | pkg/indent/indent.go:77-97 | What reaches the destination does not depend on how the text is cut into writes |
| Indent.ActualWrittenSize | pkg/indent/indent.go:99-121 | The loop counts the payload among the bytes written, as if at a line start |
| Indent.CountOnOpenLine | pkg/indent/indent.go:99-121 | On a continued line the count is right if and only if the bytes written end where a prefix more or less makes no difference |
| Indent.StackCountsPayload | pkg/indent/indent.go:99-121 | For a stack of any depth at a line start that is exactly the payload among the bytes that got through |
| Indent.OpenWriterCount | pkg/indent/indent.go:99-121 | For a writer with an open line it is the payload if and only if the bytes end where a prefix more or less makes no difference |
| Indent.OpenStackCount | pkg/indent/indent.go:99-121 | For two writers or more with an open line it is smaller than the payload as soon as one byte got through |
| Indent.IndentWriter.Write | pkg/indent/indent.go:77-97 | Sends the indented text; after a failure it returns the count that StackCount gives for the state of the lines |
| Indent.WriteChunks | pkg/indent/indent.go:77-97 | Writing chunks one after the other sends the indented whole |
| Indent.ChunkedIsString | pkg/indent/indent.go:25-34 | For a single writer that is what String computes |
| Identities.AppendIfNotIn | pkg/yang/identity.go:58-65 | Adds the identity to the set and never twice |
| Identities.AddChildren | pkg/yang/identity.go:69-77 | Adds the identity and all its descendants, in whatever state of the sweep |
| Identities.DescendantsAreDerived | pkg/yang/identity.go:157-183 | A descendant is what a chain of base statements leads to |
| Identities.LinkOne | pkg/yang/identity.go:162-174 | Files an identity under each of its bases and counts an error for each base that is missing |
| Identities.CloseOne | pkg/yang/identity.go:176-183 | Replaces the values of one identity by its descendants while the others may be open or closed |
| Identities.ResolveIdentities | pkg/yang/identity.go:157-183 | In any order of the dictionary, and again on a second run, each identity ends with exactly its descendants, each once |
| Includes.Modules.FollowAll | pkg/yang/modules.go:416-449 | Follows a list of references, links each to the module found, and fails only at a broken one |
| Includes.Modules.IncludeModule | pkg/yang/modules.go:410-452 | Ends on cyclic graphs and enters each module once |
| Includes.Modules.IncludeAll | pkg/yang/modules.go:410-452 | Succeeds if and only if no broken reference is reached or these are to be ignored; then every module reached was visited and all other links are set to the modules looked up |
| Includes.Modules.IncludeEach | pkg/yang/modules.go:267-281 | The loop over all modules goes on after an error: there is one if and only if some module reaches a broken reference that is not to be ignored, and every module that reaches none has all it reaches linked all the same |
| Groupings.LocalPrefixGoes | pkg/yang/find.go:33-39 | Just the prefix of the module itself goes, with its colon |
| Groupings.MeaningIsSuffix | pkg/yang/find.go:50-102 | A grouping found bears a suffix of the name asked for |
| Groupings.ImportedIsDirect | pkg/yang/find.go:70-83 | A grouping of the module an import at or above the node names, under the rest of the name, can be reached without an include |
| Groupings.Search.FindGrouping | pkg/yang/find.go:50-102 | Ends on every finite graph of modules; what it returns is a meaning of the name, a grouping of the node itself first; whatever was seen before, it fails only if none can be reached through imports alone |
| Groupings.Search.SearchImports | pkg/yang/find.go:70-83 | Looks into just the modules whose prefix the name bears, and fails only if none of them leads to a grouping |
| Groupings.Search.SearchIncludes | pkg/yang/find.go:84-98 | Looks once into every included module |
| Groupings.UnprefixedOnce | pkg/yang/find.go:50-102 | A search for a name without a prefix asks each included module for that name only |
| Groupings.NothingMeant | pkg/yang/find.go:50-102 | Where each included module is asked for one name only, a search that found nothing has looked everywhere |
| Groupings.LookUp | pkg/yang/entry.go:629-636 | Where that is so, a fresh search fails if and only if the name, with a prefix or without, has no meaning; and it never fails where imports alone lead to one |
| Trees.ErrorsInAnyOrder | pkg/yang/entry.go:335-349 | The errors below a node can be gathered in any order of its children |
| Trees.MergedPaths | pkg/yang/entry.go:1457-1478 | A merge keeps every node and its fields, and adds exactly the paths under children the receiver did not have |
| Trees.AddedNodes | pkg/yang/entry.go:1454-1480 | What a merge adds is what was there, but for the prefix and namespace given and the extensions of its old parent on each child taken over |
| Trees.MergedNamespaces | pkg/yang/entry.go:1368-1391 | After a merge with a namespace the added nodes resolve to it unless a mark further in says otherwise, and no other node changes its namespace |
| Trees.SameTree | pkg/yang/entry.go:80-138 | Trees with the same nodes, fields and errors at the same paths are the same |
| Trees.NearestMark | pkg/yang/entry.go:1368-1375 | A node's own mark counts, else what is in force at its parent |
| Choices.FixedHasOnlyCases | pkg/yang/entry.go:1239-1266 | Afterwards all children of choices without errors are cases, at every depth |
| Choices.FixedIsSame | pkg/yang/entry.go:1239-1266 | A tree stays as it is if and only if that was so before |
| Choices.FixedTwice | pkg/yang/entry.go:1239-1266 | A second run changes nothing |
| Choices.ChoiceGetsCases | pkg/yang/entry.go:1240-1243 | A choice ends with only cases if and only if it had no errors or no bare child |
| Choices.FixedErrors | pkg/yang/entry.go:1239-1266 | No error is added or lost |
| Choices.SameData | pkg/yang/entry.go:1239-1284 | Every data node keeps its path, its fields, its namespace, the Config in force and whether it is read-only, and no other appears |
| Choices.CaseShowsChild | pkg/yang/entry.go:1239-1266 | A case put in shows the name, the Config and the prefix of its child |
| Paths.ResolvedStays | pkg/yang/entry.go:1323-1349 | A path that leads to a node still leads there when nodes are added |
| Paths.ResolvedIsAim | pkg/yang/entry.go:1323-1349 | Where a path leads is the same in every tree in which it leads anywhere |
| Paths.PlainLeads | pkg/yang/entry.go:1323-1349 | A path that spells out names leads to the node at these names, and nowhere exactly if there is none |
| Paths.RelativeLeads | pkg/yang/entry.go:1323-1349 | From any node, as many steps up as lead to a node above and the names down from there lead to the node at their end, if there is one |
| Paths.NothingAbove | pkg/yang/entry.go:1323-1349 | A step up from the root leads nowhere, and a point stays |
| Paths.PrefixedPoints | pkg/yang/entry.go:1323-1349 | Behind a prefix one point stays, while two points or an empty name lead nowhere |
| Paths.NameParts | pkg/yang/node.go:76-82 | A name is split at its first colon |
| Entries.Entry.constructor | pkg/yang/entry.go:293-311 | A new entry is a tree of its own |
| Entries.Entry.Dup | pkg/yang/entry.go:1433-1452 | The copy consists of new entries only, is the same tree with its own parent links, and the original is untouched |
| Entries.Entry.AddError | pkg/yang/entry.go:323-332 | Appends the error and changes nothing else |
| Entries.Entry.ImportErrors | pkg/yang/entry.go:335-349 | Takes over all errors of the other tree, each as often as it occurs |
| Entries.Entry.Add | pkg/yang/entry.go:386-394 | Files the entry under its name, or reports a duplicate key and keeps the entry that was there |
| Entries.Entry.MergeChild | pkg/yang/entry.go:1459-1477 | One child is copied, marked and taken over, or reported as a duplicate |
| Entries.Entry.Merge | pkg/yang/entry.go:1457-1478 | The children become the union with the receiver's own kept as the entries they were, the other tree's errors are imported, and each clash adds one error |
| Entries.Entry.MergeAt | pkg/yang/entry.go:1084-1098 | A merge deep in a tree changes that node alone and leaves a tree |
| Entries.Entry.Wrap | pkg/yang/entry.go:1243-1258 | One child of a choice is put into a new case of its name, linked both ways |
| Entries.Entry.FixChoice | pkg/yang/entry.go:1239-1266 | The in-place recursion, in any order of the children, leaves the specified tree with all parent links right |
| Entries.Entry.TreeIsKeyed | pkg/yang/entry.go:84-84 | In a tree of entries every child bears the key it is filed under |
| Entries.Entry.Climb | pkg/yang/entry.go:1368-1375 | The parent links lead back along the path from the root |
| Entries.Entry.Namespace | pkg/yang/entry.go:1368-1391 | The walk up returns the mark nearest above, or the namespace of the module |
| Trees.ReadOnlyIsExact | pkg/yang/entry.go:1268-1284 | A node is read-only if and only if on the way to it there is an output or a setting of false and after that no setting of true but on outputs |
| Entries.Entry.ReadOnly | pkg/yang/entry.go:1268-1284 | The walk up finds the nearest setting, false making the entry read-only; outputs always are, and the root without a setting is not |
| Entries.Entry.Find | pkg/yang/entry.go:1323-1349 | The walk along a path reaches the node the path resolves to, or null when there is none |
| Augments.TargetStays | pkg/yang/entry.go:1286-1350 | An augment that has a target keeps it while the schema grows |
| Augments.AppliedNodes | pkg/yang/entry.go:1073-1103 | Applying an augment keeps every node and adds what it brings, unless a child of that name is in the way |
| Augments.RunNodes | pkg/yang/modules.go:344-370 | Every node after a run was there before or comes from an applied augment, with the fields and the namespace that says |
| Augments.RunKeeps | pkg/yang/modules.go:344-370 | A node, once there, keeps its fields and its mark for the rest of the run |
| Augments.Completed | pkg/yang/modules.go:344-370 | Every run goes on to a complete one |
| Confluence.RunAdds | pkg/yang/modules.go:344-370 | If no two augments of a run add the same node, each of them adds all it has |
| Confluence.RunErrors | pkg/yang/modules.go:344-370 | In such a run a node ends with the errors it came with and those the merges for it report, and the only clashes reported are with nodes that were there |
| Confluence.BroughtInAnyOrder | pkg/yang/modules.go:344-370 | Which errors merges report at a node does not depend on the order |
| Confluence.Confluent | pkg/yang/modules.go:344-370 | If no two augments of one complete run add the same node, every complete run applies the same augments and leaves the same schema, down to fields, namespaces and the errors of merges |
| Confluence.FirstDecides | pkg/yang/modules.go:344-370 | Of two augments that bring one node with different fields, the one applied first decides what it is |
| Confluence.ClashMatters | pkg/yang/modules.go:344-370 | So two such augments that both have their target from the start have complete runs that end in different schemas |
| Confluence.RunKeepsNamespace | pkg/yang/entry.go:1368-1391 | No run changes the namespace of a node that was there |
| Confluence.RunNamespace | pkg/yang/entry.go:1368-1391 | A node an augment adds resolves to the namespace of that augment unless a mark in its body says otherwise |
| Notes.NotedTarget | pkg/yang/entry.go:1302-1309 | Errors noted at the roots of modules change no target |
| Notes.NotedApplied | pkg/yang/entry.go:1302-1309 | Noting errors and applying an augment commute, so the schema can be taken without them |
| Prefixes.LostIsNowhere | pkg/yang/entry.go:1300-1318 | Looking for the target of an augment reports an error if and only if its name starts at no module |
| Prefixes.HalfwayNotes | pkg/yang/modules.go:347-370 | For any order of the modules the loop reports at each just those of its augments whose name starts at no module |
| Schedules.SweptInVain | pkg/yang/entry.go:1073-1103 | A sweep over the augments of a module that applies none leaves schema and list alone, and none of them has a target |
| Schedules.FirstOfOrder | pkg/yang/modules.go:347-370 | The run that an order of the modules gives begins with the first augment of the first module |
| Schedules.OrderDecides | pkg/yang/modules.go:347-370 | Two orders that put the modules of two clashing augments first end in schemas that differ at the node both bring |
| Schedules.OrderMatters | pkg/yang/modules.go:347-370 | Four modules and two orders of them of which one applies all three augments and the other two |
| Supplies.RunSupplies | pkg/yang/modules.go:344-386 | Where nothing clashes, a run leaves just the places that were there and those its augments add |
| Supplies.LeadsIsExact | pkg/yang/modules.go:344-386 | So an augment has a target after the run if and only if every place its name leads through was there or is added by an augment of the run |
| LateAugments.SweepApplies | pkg/yang/entry.go:1073-1103 | A sweep applies every augment that has a target at its start |
| Gathers.GatherIsSweep | pkg/yang/entry.go:1073-1103 | Where nothing clashes, a sweep after a run applies just the augments whose names lead somewhere through the schema and the bodies of those applied before |
| LateOrders.RetryIsLate | pkg/yang/modules.go:381-386 | The last loop applies just the augments that its turns read from names and bodies, in the order of the list, a module listed once or more often |
| LateOrders.LateBelow | pkg/yang/modules.go:381-386 | Where no module hangs on the others, no order lets a module take more than as many of its turns take after all turns of the others |
| LateAugments.RetryApplies | pkg/yang/modules.go:381-386 | The last loop applies every augment that has a target once the cases are in |
| LateOrders.OrderIsExact | pkg/yang/modules.go:381-386 | If the augments left over do not clash, the last loop applies the same ones in every order of its turns, each module having any number of them, if and only if all turns of each module take the same after all turns of the others as before them |
| LateOrders.HangingDepends | pkg/yang/modules.go:381-386 | Otherwise some augment is applied when all turns of its module come last and not when they come first |
| LateOrders.LateCovers | pkg/yang/modules.go:381-386 | In any order a module takes at least what as many of its turns take coming first |
| LateOrders.SettledSchema | pkg/yang/modules.go:381-386 | Where no module hangs so on the others, every order of the turns leaves the same schema |
| LateReports.RetryLog | pkg/yang/modules.go:381-386 | Each turn reports just the augments of its module that are not applied by then |
| LateReports.ReportsAreExact | pkg/yang/modules.go:381-386 | Every order of the turns reports the same if and only if the first turns of each module, any number of them, take the same after all turns of the others as before them |
| LateReports.HangingReports | pkg/yang/modules.go:381-386 | Otherwise some module reports more when its turns come first than when they come last |
| LateReports.FirstTurnReports | pkg/yang/modules.go:381-386 | An augment is reported if and only if the first turn of its module leaves it, whether it is applied later or not |
| LateCases.CasesByPlaces | pkg/yang/entry.go:1239-1266 | All children of choices without errors are cases if and only if no place holds a bare child of one |
| LateCases.CasesStay | pkg/yang/modules.go:374-386 | A run without clashes on a schema with only cases leaves one with only cases if and only if no applied augment adds a child that is no case to a choice that ends without errors |
| Outcomes.LoopKeeps | pkg/yang/modules.go:347-370 | After the loop each module has left exactly those of its augments that were not applied, in order, is on the list as often as at the start if it has some left and not at all otherwise, and none left has a target |
| Outcomes.HalfwayIsComplete | pkg/yang/modules.go:347-370 | For every order and any number of listings the loop ends in a complete run |
| Outcomes.SameHalfway | pkg/yang/modules.go:347-370 | For any two orders the loop leaves the same schema, the same augments to each module and the same modules, each as often |
| Outcomes.AnyOrder | pkg/yang/modules.go:344-386 | If no two augments of one run clash, nor of those left over, and every prefix is known: the schema at the end is the same for any order if no module left hangs on the others, and so are the errors if none of its turns does; modules may be listed more than once |
| Processing.Modules.Report | pkg/yang/entry.go:323-332 | One error is added at the root of one module |
| Processing.Modules.FindTarget | pkg/yang/entry.go:1286-1350 | The lookup through prefix, module and path finds the target the specification gives, and reports a prefix that leads to no module unless such errors are to be ignored |
| Processing.Modules.Apply | pkg/yang/entry.go:1093-1099 | The body is merged into the target of one module; the other modules and the bodies stay as they are |
| Processing.Modules.Augment | pkg/yang/entry.go:1073-1103 | Applies the waiting augments that have a target, keeps the others in order, counts both, reports those kept if asked to, and is the specified turn |
| Processing.Modules.TryOne | pkg/yang/entry.go:1075-1099 | One augment is merged into its target if it has one, and otherwise stays and may be reported |
| Processing.Modules.Pass | pkg/yang/modules.go:355-366 | One pass, swapping finished modules out of the list, loses no waiting augment and is the specified pass |
| Processing.CoveredWithout | pkg/yang/modules.go:360-363 | Swapping in the last module and cutting the list drops only the finished one |
| Processing.Modules.ApplyAugments | pkg/yang/modules.go:347-370 | The loop ends, applies each augment at most once, stops only when no augment left has a target, and makes the very run the order of the modules schedules |
| Processing.Modules.FixChoices | pkg/yang/modules.go:374-379 | Every module gets its missing cases, also one listed under two names |
| Processing.Modules.LastLoop | pkg/yang/modules.go:381-386 | One turn more for each module left is the specified last loop |
| Processing.Modules.Process | pkg/yang/modules.go:344-386 | The three together, for any order of the modules: the schema and the errors at the end are those of the last loop over the schema with its cases, without the errors where they are to be ignored, and every augment whose path spells out the cases is applied |
| CasePaths.LiftedNode | pkg/yang/entry.go:1239-1266 | A path leads to a node if and only if the path with each shorthand child named twice leads to that node, completed, once the cases are there |
| CasePaths.LiftChanges | pkg/yang/entry.go:1239-1266 | The two paths are the same if and only if none of its steps is a shorthand child |
| CasePaths.SpelledExists | pkg/yang/entry.go:1239-1266 | A path leads somewhere afterwards if and only if it names the cases that are inserted on its way |
| CasePaths.BelowBareChild | pkg/yang/entry.go:1239-1266 | A path that goes on below a shorthand child leads on afterwards if and only if its next step bears the name of that child and the rest leads on below it |
| CasePaths.TargetAfterwards | pkg/yang/modules.go:372-386 | The name of an augment has a target once the cases are in if and only if it spells them out |
| CasePaths.LeftOver | pkg/yang/modules.go:344-379 | For an augment that a complete run leaves over this needs a case that was inserted |
| Shorthands.ImplicitCaseIsLate | pkg/yang/modules.go:344-386 | An augment through an implicit case, with any body, that the loop leaves over and the last loop applies |
| Shorthands.BareInTheEnd | pkg/yang/modules.go:372-386 | One whose body leaves a choice with a bare child at the end |
| Chains.OrderMattersLate | pkg/yang/modules.go:381-386 | Three augments that do not clash, all of which one order of the modules applies in the last loop and the other order only two |
| Chains.OrderMattersTwice | pkg/yang/modules.go:171-181 | Modules listed twice whose order decides what is applied, though with one turn each it would not |
| Chains.ReportedAndApplied | pkg/yang/modules.go:381-386 | An augment that is reported as not found and applied |

## Left out

- UTF-8: the input is a sequence of characters of width one.
- Error messages, their columns and their order; errors are counted or kept as multisets.
- File search and reading, command-line output, options and templates.
- The building of statements into nodes and of nodes into entries by reflection: the model starts from built trees and graphs.
- RoundTrip.PrintParse: printable ASCII, tab and newline only; other ASCII characters are not read back (Rereads.ControlLost), and the %q form of the rest of Unicode is not modelled.
- RoundTrip.PrintParseIsExact: every argument is read as one string without an error. In the first of several lines a bare quote or a lone backslash at the end breaks the string, and an escape that only a pattern may have is an error elsewhere; after a bare quote the text that follows, in this statement and the next ones, is read as something else. Rereads.RereadIsExact says that such an argument is lost.
- Printer.Write: errors of the destination are not modelled.
- StringRule.ReadsTheRule: a backslash right before a line break, which the lexer reports as an invalid escape, is not covered. The column of the quote itself is taken at tab stops of eight on both sides, as the RFC gives no width for a tab before it.
- Ranges.SortSorts: an insertion sort stands in for the library's; Ranges.SortIsUnique shows that it makes no difference.
- Types.Type.Resolve: the lookup of the named base is a link in the model; patterns, enumerations, unions and identityref are not part of it.
- RangeText.RestrictionAccepted: the parent is a list that coalescing gives; Types.DeriveNarrows shows that the ranges of all types are.
- Indent.OpenStackCount: prefixes hold no line feed, and all lines are open, as they are when only the top writer is written to.
- Includes.Modules.FollowAll: the loops over includes and over imports are one list; FindModule is a fixed lookup.
- Identities.ResolveIdentities: the base graph is acyclic, as the code has no check against cycles; qualified names are links.
- Groupings.LookUp: where an included module is asked for two names, the second is skipped, and only what imports alone lead to is sure to be found.
- Entries.Entry: the fields that are set together or only copied are one record; RPC subtrees, which are shared and not copied, are not modelled, nor is the list of applied augments kept for display.
- Entries.Entry.MergeAt: reaches the target again from the root, so that the ghost fields on the way are brought up to date.
- Entries.Entry.FixChoice: the ghost argument serves the proof of termination only.
- Confluence.Confluent: the errors of merges belong to the schema; those for unknown prefixes, one a try, are noted beside it and depend on the number of passes.
- Confluence.RunErrors: likewise without the errors for unknown prefixes.
- Confluence.ClashMatters: speaks of augments that have their target from the start; two that add a node with equal fields can clash without a difference in fields.
- Processing.Modules.FindTarget: names are absolute, as RFC 7950 asks of augments at the top of a module.
- Processing.Modules.Augment: targets of augments with children must be directories, as the code fails on others; the list of applied augments kept for display is left out.
- Processing.Modules.Process: the deviations that follow are not modelled; the roots of modules are no choices, and targets that appear with the cases can have children as well.
- Outcomes.AnyOrder: its conditions are exact for the order of the last loop (LateOrders.OrderIsExact, LateReports.ReportsAreExact), whatever list the first loop hands on.
- Outcomes.SameHalfway: every prefix is known, as the errors for others depend on the number of passes.
- LateOrders.OrderIsExact: the augments left over do not clash; what clashing ones do is Confluence.FirstDecides.
- Sorting of errors, whose comparison is not transitive, and regular-expression checks.
