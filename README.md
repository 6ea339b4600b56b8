# SuperSql query pipeline in Dafny

SuperSql is a PHP class that runs SQL `SELECT` statements over tables held in
memory. A host application registers a provider callback for each table name.
The engine parses the statement and then takes it through fixed stages:

1. FROM loads each table, renames every column to `prefix.column`, joins the
   tables (a cross product filtered by the ON condition), and builds an index
   from short column names to full names.
2. WHERE keeps the rows whose condition is not `false`.
3. GROUP BY builds a tree of group nodes and flattens it again.
4. HAVING filters like WHERE.
5. ORDER BY sorts on one or more keys.
6. LIMIT slices the rows.
7. SELECT projects each row.

The public `execute` then strips the table prefix from each result column
whose short name is unambiguous.

This project models that pipeline. Everything lives in `core.php`. The
modules follow the source's own structure:

- `Wrappers`: `Option` and `Result`, and the `Error` kinds standing for the
  exceptions core.php throws.
- `Strings`: `strtolower`, `trim(s, "'")`, `strpos`/`explode` on `.`,
  `intval`/`strval`, and `substr` and `str_ireplace` as PHP 7 computes them
  (SUBSTR therefore counts from 0, as PHP does, not from 1 as SQL does).
- `Values`: PHP scalars; the loose `<=>` and `==`; array keys.
- `Assoc` and `Rows`: PHP arrays with string keys, modelled as ordered
  association lists, and rows with their optional `children` entry.
- `Names`: prefixing on load, the short-name index, name resolution and
  prefix stripping.
- `Expr` and `ExprProps`: the expression evaluator and what it promises.
- `Relational`: WHERE/HAVING, the outer join and LIMIT.
- `Grouping`: GROUP BY, including the way PHP 7 starts a bucket over when `array_key_exists` refuses a boolean group value.
- `Ordering` and `Pipeline`: ORDER BY, and the whole `SELECT` query.
- `Stages`: loading a table, FROM, the index rebuild and SELECT.
- `Engine`: the `SuperSql` class itself. Its fields are updated in place by
  methods with loops, as in core.php. Each method is proved equal to the
  stage function of the modules above that states what it computes. The
  engine runs the corrected behaviour of the three Findings below; the code
  as written is modelled beside it, and "Left out" names the members
  concerned.

Values are `Null`, `Bool`, `Int` and `Str`. Arithmetic is on integers (see
"Left out").

## Model

| member | source | states |
|---|---|---|
| Strings.Lower | core.php:564 | `strtolower`: same length, no ASCII capital left, and every character that is not an ASCII capital unchanged |
| Strings.LowerIsLower | core.php:615-616 | lowering gives lower-case text, is idempotent, and leaves lower-case text unchanged |
| Strings.TrimQuotes | core.php:237-239 | the result has no leading or trailing `'`, is no longer than the input, and equals an input that has neither |
| Strings.TrimQuotedLiteral | core.php:237-239 | a quoted literal `'x'` loses exactly its enclosing quotes |
| Strings.IndexOfDot | core.php:587 | `strpos(s, '.')`: the first dot, or the length when there is none, with no dot before it |
| Strings.Short | core.php:592 | the second part of `explode('.', s)` holds no dot |
| Strings.Prefix | core.php:592 | the first part of `explode('.', s)` holds no dot |
| Strings.SplitQualified | core.php:592 | `explode` on `p.c` gives back `p` and `c` when neither holds a dot |
| Strings.IndexOfDotOfConcat | core.php:587 | the first dot of `p + q`, for a dot-free `p`, is the first dot of `q` shifted by `|p|` |
| Strings.DigitRun | core.php:849-851 | the leading digit run that `intval` reads: all digits, and ended by a non-digit or the end |
| Strings.NatToString | core.php:399 | `strval` of a natural number is a non-empty string of digits |
| Strings.NatToStringRoundTrip | core.php:399 | reading the printed digits back gives the number |
| Strings.IntToStringRoundTrip | core.php:399 | `strval` of any integer is numeric, and `intval` reads the integer back |
| Strings.SubstrBounds | core.php:67-69 | the part `substr` returns lies inside the string, and `substr` is false exactly when the start is past the end, a negative length is longer than the string, or, for a non-negative start, a negative length reaches back before the start |
| Strings.Substr | core.php:67-69 | no contract of its own: SubstrForward, SubstrFromEnd, SubstrDropsFromEnd and SubstrSplit state its cases |
| Strings.SubstrForward | core.php:67-69 | a start inside the string and a non-negative length take at most that many characters from the start on |
| Strings.SubstrFromEnd | core.php:67-69 | a negative start counts from the end, and one reaching before the beginning starts at the beginning; with a negative length as well, the part runs from that start to the cut the length makes at the end, empty when that cut lies before the start, and false only when the length is longer than the string |
| Strings.SubstrDropsFromEnd | core.php:67-69 | a negative length drops that many characters from the end, and gives false when fewer remain after the start |
| Strings.SubstrSplit | core.php:67-69 | the substrings before and after any cut point concatenate back to the string |
| Strings.IReplace | core.php:91-94 | no contract of its own: an empty search text leaves the subject alone, otherwise ReplaceAll; ReplaceWithoutMatch, ReplaceWhole, ReplaceIgnoresCase and ReplaceKeepsLength state its meaning |
| Strings.ReplaceWithoutMatch | core.php:91-94 | a subject in which the search text occurs nowhere, ignoring ASCII case, comes back unchanged |
| Strings.ReplaceWhole | core.php:91-94 | a subject equal to the search text up to ASCII case becomes the replacement |
| Strings.ReplaceIgnoresCase | core.php:91-94 | lowering the search text does not change the result |
| Strings.ReplaceKeepsLength | core.php:91-94 | a replacement as long as the search text keeps the subject's length |
| Values.CompareText | core.php:448-463 | byte-wise comparison is -1, 0 or 1, and 0 exactly for equal strings |
| Values.Compare | core.php:448-463 | PHP 7's loose `<=>` on scalars is -1, 0 or 1 |
| Values.CompareTextAntisymmetric | core.php:448-463 | swapping the strings negates the byte-wise comparison |
| Values.CompareAntisymmetric | core.php:448-463 | swapping the operands negates the loose comparison, and every value equals itself |
| Values.CompareTransitiveOnInts | core.php:779-789 | on integers the loose order is transitive |
| Values.CompareTextTransitive | core.php:779-789 | the byte-wise order is transitive |
| Values.CompareTransitiveOnText | core.php:779-789 | on non-numeric strings the loose order is transitive |
| Values.CompareNotTransitive | core.php:448-463 | the loose order is not transitive in general: null == 0 and 0 == "a", yet null < "a" |
| Values.KeyValueLooselyEqual | core.php:858-873 | the array key `$new[$value]` hands back is loosely equal to the value, and storing it again gives the same key |
| Assoc.KeysOf | core.php:562-568 | the keys of an array, in order |
| Assoc.IndexOf | core.php:572-573 | the position of the first entry with the key, or the length when there is none |
| Assoc.HasIff | core.php:572-573 | `array_key_exists` holds exactly when the key is among the keys |
| Assoc.Put | core.php:588 | no contract of its own: PutSpec states `$a[$k] = $v` in full, and PutKeepsOthers and AppendKeepsOthers the keys left alone |
| Assoc.Find | core.php:231-233 | no contract of its own: HasIff ties it to array_key_exists, and FindCons and Rows.GetFinds to reading a key |
| Assoc.PutSpec | core.php:564 | `$a[$k] = $v`: the key reads `v`, other keys are unchanged, and keys stay distinct; an existing key keeps its place, a new one goes at the end |
| Assoc.IndexOfUnique | core.php:572-573 | the first-occurrence description determines the position |
| Assoc.PutKeepsOthers | core.php:564 | overwriting an existing entry leaves every other key's value alone |
| Assoc.AppendKeepsOthers | core.php:564 | appending a new key leaves every other key's value alone and makes the new key read its value |
| Assoc.Del | core.php:565 | `unset` removes exactly the entry with the key, or nothing when it is absent |
| Assoc.Merge | core.php:738-743 | `array_merge` keeps keys distinct |
| Assoc.MergeFind | core.php:738-743 | in `array_merge($a, $b)` a key of `b` reads `b`'s value, and any other key reads `a`'s |
| Assoc.FindCons | core.php:572-573 | looking a key up in a non-empty list finds the head or looks in the rest |
| Assoc.MergeIntoEmpty | core.php:742-744 | merging a list of distinct keys into nothing copies it |
| Assoc.MergeOntoPrefix | core.php:742-744 | merging the rest of a list onto its prefix gives the list back |
| Assoc.SearchValue | core.php:621-623 | `array_search` finds a value exactly when some entry holds it, and then returns the key of the first such entry |
| Assoc.SearchValueStep | core.php:621-623 | the search over a list whose head does not hold the value is the search over its tail |
| Rows.GetFinds | core.php:217-234 | `$row[$name]` reads the stored value when the column exists and null otherwise |
| Rows.MergeRows | core.php:489 | in a merged row, `b`'s `children` entry replaces `a`'s when `b` has one |
| Rows.MergeRowsGet | core.php:489 | in a merged row, `b`'s columns win over `a`'s, and it has no duplicate column when `a` has none |
| Names.ToTableAliasIfPossible | core.php:688-701 | it fails exactly when the prefix is neither a table nor an alias, with "Table or alias ... does not exist" |
| Names.ToTableAliasIfPossibleAsWritten | core.php:688-701 | as written, with the same failure condition |
| Names.TablePrefixResolves | core.php:688-701 | a table name resolves to the prefix its columns were loaded under, and so does its first alias |
| Names.UnaliasedTablePrefixLost | core.php:688-701 | as written, a table without an alias resolves to the empty prefix instead of its name |
| Names.ToColumnNameWithPrefix | core.php:656-681 | `*` stays; a dotted name has its prefix resolved; a short name fails as unknown exactly when it is not indexed and as ambiguous exactly when it has several full names, and otherwise gives its one full name |
| Names.FullNamesOf | core.php:607-619 | the full names listed under a short name are at most the row's keys |
| Names.ColumnIndex | core.php:607-619 | no contract of its own: ColumnIndexSpec and ColumnIndexAt state the index in full |
| Names.ColumnIndexSpec | core.php:607-619 | the index holds exactly the short names that occur, each mapped to the lowered full names carrying it, in key order |
| Names.ColumnIndexAt | core.php:607-619 | the same, for one short name |
| Names.NotOccursNoFullNames | core.php:607-619 | a short name that never occurs lists no full names |
| Names.ShortNameOccursSnoc | core.php:612-616 | one more key makes its short name and its lowered short name occur |
| Names.NoLoweredShortName | core.php:614-616 | a short name that is not lower case collects no full names (only the empty entry `$collection[$col] = []`) |
| Names.StrippedName | core.php:582-603 | a dot-free name is kept; a dotted one becomes its short name exactly when that short name is unique, and otherwise a name with the same prefix and short name |
| Names.StrippedNameByIndex | core.php:594-600 | over the index of lower-case keys, the prefix goes exactly when at most one key ends in the short name, that is, exactly when the short name on its own does not resolve as ambiguous |
| Names.StripRow | core.php:582-603 | no contract of its own: StripRowNext gives the loop one column at a time, and StripRowRenames shows it renames every column in place and keeps its value when no names collide |
| Names.StripRowNext | core.php:584-601 | the stripping loop writes one column more under its stripped name |
| Names.Renamed | core.php:582-603 | every column renamed in place, its value kept |
| Names.StripRowRenames | core.php:582-603 | when no two columns strip to the same name, stripping renames every column in place and keeps every value |
| Names.Qualified | core.php:562-568 | a loaded row: key `k` becomes `prefix.lower(k)`, with values and order kept |
| Names.QualifyHasDot | core.php:564 | a qualified name holds a dot |
| Names.QualifyInjective | core.php:564 | two keys qualify to the same name only when they lower to the same text |
| Names.QualifySplits | core.php:564 | splitting a qualified name recovers the prefix and the lowered key |
| Names.LowerKeepsDots | core.php:564 | lowering neither adds nor removes a dot |
| Names.QualifyStepInvariant | core.php:562-568 | after `i` steps of the renaming loop, the untouched keys come first and the renamed ones follow in order |
| Names.ShortOfLowerIsLower | core.php:612-616 | the short part of a lower-case name is lower case |
| Names.FullNamesOfLower | core.php:607-619 | over lower-case keys, a short name lists exactly the dotted keys with that short name, and occurs exactly when it lists one |
| Names.ResolveShortName | core.php:656-681 | against the index of a row, a short name is unknown exactly when no key carries it, ambiguous exactly when several do, and otherwise resolves to the one key that does |
| Names.QualifiedKeys | core.php:562-568 | the keys of a loaded row, one key at a time |
| Names.QualifiedNamesUnique | core.php:607-619 | in the index of one loaded table no short name has two full names, and a name no key lowers to has none |
| Names.FullNamesNext | core.php:612-616 | qualifying one more key adds its full name to its own lowered short name and to no other |
| Names.WellKeyedFront | core.php:562-568 | dropping the last key keeps a row well keyed, and no earlier key lowers to the last one's name |
| Names.QualifyThenStrip | core.php:582-603 | for one table, stripping a loaded row gives the provider's row back |
| Names.StripQualifiedColumn | core.php:582-603 | one loaded column strips back to its provider key |
| Expr.FirstConnective | core.php:314-327 | the position of the first `and`/`or` token, with none before it |
| Expr.FirstConnectiveIs | core.php:314-327 | the first-occurrence description determines that position |
| Expr.EvalEach | core.php:262-276 | evaluating each node gives one value per node |
| Expr.EvalNode | core.php:179-261 | no contract of its own: ExprProps.EvalThroughAlias and ExprProps.SelfAliasCycles state the alias cases, and the list and function cases are EvalChain and ScalarFunction |
| Expr.EvalLeaf | core.php:191-246 | no contract of its own: ExprProps.EvalColumn states the column case, ExprProps.EvalConst the constant case, and AggregateValue the aggregate case |
| Expr.EvalChain | core.php:279-446 | no contract of its own: ShapeOf picks the branch, and ExprProps.AndOrSplitsAtFirst, AndOrGroupsToTheRight, the Between lemmas, ComparisonValues, ArithmeticValues, IsValues, IsNotNegatesIs and NotInNegatesIn state what each branch gives; NOT IN is the corrected one of the Findings |
| Expr.EvalBetween | core.php:286-309 | no contract of its own: ExprProps.BetweenFive, BetweenSix, BetweenLonger and BetweenOperandFails state it for five, six and seven or more nodes, and for a failing operand |
| Expr.ApplyComparison | core.php:448-463 | no contract of its own: ExprProps.ComparisonIgnoresCase shows string operands are compared lowered, and ConstComparison what a comparison of literals gives |
| Expr.ApplyBetween | core.php:465-470 | no contract of its own: ExprProps.BetweenFive shows both bounds are inclusive and nothing is lowered, and BetweenIsCaseSensitive that this differs from the comparisons |
| Expr.Arithmetic | core.php:347-356 | no contract of its own: ExprProps.ArithmeticValues, Subtraction, DivisionByZeroIsZero, ProductIsMultiplication and QuotRoundsTowardZero give its meaning |
| Expr.ScalarFunction | core.php:67-115 | no contract of its own: ExprProps.ConcatJoins, ConcatOfTwo, ConcatOfOne, AbsOfOne, IfSelects, IfIgnoresExtra, SubstrCall, SubstrWindow, ReplaceCall and ReplaceMeaning state CONCAT, ABS, IF, SUBSTR and REPLACE at every number of arguments the model accepts |
| Expr.AggregateValue | core.php:128-177 | no contract of its own: ExprProps.SumOverAppend, MaxOverBounds, MinOverBounds, CountCountsParentKeys and AvgOverWrappedTable give its meaning |
| Expr.ShapeOf | core.php:279-446 | which branch of evaluateExpression a node list takes, tried in the source's order, with the node kinds each branch reads |
| Expr.EvalComparison | core.php:334-338 | a comparison yields a boolean; ExprProps.ComparisonValues states which one |
| Expr.EvalArithmetic | core.php:341-357 | arithmetic yields a number |
| Expr.EvalIs | core.php:360-372 | IS yields a boolean; ExprProps.IsValues states which one |
| Expr.EvalIn | core.php:393-400 | IN over a list yields a boolean |
| ExprProps.NoConnectiveOperator | core.php:314-327 | an operator other than `and`/`or` does not split a list |
| ExprProps.ComparisonShape | core.php:334-338 | `x op y` with a comparison operator takes the comparison branch |
| ExprProps.ArithmeticShape | core.php:341-357 | a list with an arithmetic operator second and no connective takes the arithmetic branch |
| ExprProps.IsShape | core.php:360-372 | `x is c` takes the IS branch |
| ExprProps.IsNotShape | core.php:375-390 | `x is not c` takes the IS NOT branch |
| ExprProps.InShape | core.php:393-400 | `x in (...)` takes the IN branch |
| ExprProps.NotInShape | core.php:418-426 | `x not in (...)` takes the NOT IN branch |
| ExprProps.ConstComparison | core.php:334-338 | a comparison of two literals compares their unquoted texts |
| ExprProps.ComparisonValues | core.php:334-338 | once both operands have values, a comparison is its operator applied to them |
| ExprProps.IsValues | core.php:360-372 | `x is true` holds exactly for a truthy x, `x is false` exactly for a falsy one, and `x is null` (and any other word, which the mapping reads as null) exactly for null, false, 0 and the empty string |
| ExprProps.AndOrSplitsAtFirst | core.php:314-327 | a list is split at its first `and`/`or`; both sides are evaluated, the left one first, and combined as booleans |
| ExprProps.AndOrGroupsToTheRight | core.php:314-327 | so `p and q or r` is `p and (q or r)`, not SQL's `(p and q) or r` |
| ExprProps.AndOrLayout | core.php:314-327 | the list facts that grouping rests on |
| ExprProps.ConnectiveValues | core.php:314-327 | two evaluated sides joined at the first connective |
| ExprProps.ArithmeticGroupsToTheRight | core.php:341-357 | `x - y - z` evaluates to `x - (y - z)` |
| ExprProps.SubtractTail | core.php:341-357 | the rest of `x - y - z` is the arithmetic list `y - z` |
| ExprProps.SubtractionShapes | core.php:341-357 | `x - y - z` and its tail both take the arithmetic branch |
| ExprProps.SubtractFromFirst | core.php:341-357 | a subtraction takes the first operand minus the value of the rest |
| ExprProps.ArithmeticValues | core.php:341-357 | an arithmetic list once its first operand and its rest are evaluated |
| ExprProps.Subtraction | core.php:341-357 | a single subtraction `y - z` |
| ExprProps.DivisionByZeroIsZero | core.php:352-355 | dividing by an operand that reads as zero gives 0 instead of failing |
| ExprProps.ComparisonIgnoresCase | core.php:448-463 | a comparison sees its string operands lowered, so lowering them first changes nothing |
| ExprProps.ComparisonCaseExample | core.php:448-463 | so `'NAM' = 'nam'` holds |
| ExprProps.BetweenIsCaseSensitive | core.php:465-470 | BETWEEN does not lower: `'B'` is not between `'a'` and `'c'`, although both comparisons hold |
| ExprProps.BetweenShape | core.php:286-290 | a list with `between` at 1 and `and` at 3 takes the BETWEEN branch; that `and` does not split it |
| ExprProps.BetweenFive | core.php:291-295 | `v between a and b` alone is `v >= a && v <= b` under the loose order, both bounds inclusive, without lowering |
| ExprProps.BetweenSix | core.php:292-309 | six nodes: the operands are read, then the list is rejected as an unknown expression |
| ExprProps.BetweenLonger | core.php:297-306 | seven or more nodes: the result is combined with the rest after position 5 by `and` or `or`; another token is an unknown operator, and an error in the rest is the error |
| ExprProps.BetweenOperandFails | core.php:465-470 | the operands are read left to right, and the first that fails is the error |
| ExprProps.IsNotNegatesIs | core.php:360-390 | `x is not c` fails exactly when `x is c` does, and otherwise is its negation |
| ExprProps.NotInNegatesIn | core.php:418-426 | the corrected NOT IN fails exactly when IN does, and otherwise is its negation |
| ExprProps.NotInAsWrittenAlwaysHolds | core.php:417-426 | as written, NOT IN is true whenever its left side evaluates |
| ExprProps.NotInValues | core.php:418-426 | the corrected NOT IN, once its operands are evaluated, is "the needle is not in the list" |
| ExprProps.EvalConst | core.php:237-239 | a constant evaluates to its text without quotes |
| ExprProps.EvalColumn | core.php:230-233 | a column reference reads the row under its resolved name: resolution errors pass through, a missing column is unknown, and a value read is the one stored |
| ExprProps.EvalThroughAlias | core.php:217-246 | a column named as an alias of an expression, a bracket or a function, and an alias node, read the aliased expression; an unknown alias is an error |
| ExprProps.SelfAliasCycles | core.php:242-246 | an alias defined as itself never yields a value: the expansion ends in AliasCycle whatever the fuel |
| ExprProps.NotInExample | core.php:417-426 | `'a' not in ('a')` is true as written and false as intended |
| ExprProps.SumOverAppend | core.php:136-143 | SUM over the children is additive |
| ExprProps.MaxOverBounds | core.php:146-155 | MAX is at least its start and every child's value, and equals one of them |
| ExprProps.MinOverBounds | core.php:158-167 | MIN is at most its start and every child's value, and equals one of them |
| ExprProps.CountCountsParentKeys | core.php:128-133 | COUNT is the parent row's key count (`children` included), not the number of rows |
| ExprProps.AvgOverWrappedTable | core.php:170-177 | AVG over the wrapped table divides the sum by that same key count, which is 1 |
| ExprProps.NatQuotByOne | core.php:352-355 | dividing by one is the identity |
| ExprProps.ProductIsMultiplication | core.php:341-357 | the evaluator's product is multiplication |
| ExprProps.NatQuotIsDivision | core.php:352-355 | the quotient satisfies `q*b <= a < q*b + b` |
| ExprProps.QuotRoundsTowardZero | core.php:352-355 | `/` rounds toward zero: the quotient has the sign of `a/b`, and the remainder the sign of `a` |
| ExprProps.ImplodeAppend | core.php:72-74 | implode of two lists side by side is their texts side by side |
| ExprProps.ConcatJoins | core.php:72-74 | CONCAT of two or more arguments, split at any point, is the texts of the two parts joined |
| ExprProps.ConcatOfTwo | core.php:72-74 | CONCAT(x, y) is the text of x followed by the text of y |
| ExprProps.ConcatOfOne | core.php:205-213 | one argument arrives bare, so CONCAT gives null; no argument is a missing parameter |
| ExprProps.AbsOfOne | core.php:77-79 | ABS of one argument is a non-negative integer equal to its number or its negation; no argument is a missing parameter |
| ExprProps.IfSelects | core.php:113-115 | IF gives its second argument when the first is truthy, otherwise its third, or null when there is none |
| ExprProps.IfIgnoresExtra | core.php:113-115 | arguments after the third do not change IF |
| ExprProps.SubstrCall | core.php:67-69 | SUBSTR is `substr` on the text of its first argument and the integers of the next two (a missing length reads 0), `false` where substr gives false; fewer than two arguments are refused |
| ExprProps.SubstrWindow | core.php:67-69 | SUBSTR from a start inside the text takes up to the given number of characters; without a length it gives the empty text |
| ExprProps.ReplaceCall | core.php:91-94 | REPLACE(s, x, r) is `str_ireplace(x, r, s)` on the texts of its arguments (a missing replacement reads as the empty text); fewer than two arguments are refused |
| ExprProps.ReplaceMeaning | core.php:91-94 | REPLACE leaves a text without the search word unchanged, and turns the search word itself, in any case, into the replacement |
| Relational.Filter | core.php:472-478 | the kept rows, no more than the input |
| Relational.KeptIndices | core.php:472-478 | the kept positions, in increasing order |
| Relational.KeptIndicesComplete | core.php:472-478 | every kept position is listed |
| Relational.FilterPicksKept | core.php:472-478 | the filter is exactly the rows at the kept positions, in order |
| Relational.FilterAll | core.php:472-478 | keeping every row changes nothing |
| Relational.Evaluations | core.php:472-478 | the condition's value on each row; on failure, the first row whose evaluation fails |
| Relational.EvaluationsStep | core.php:474-476 | the per-row facts carry over to one more row |
| Relational.EvaluationsSnoc | core.php:474-476 | one more row: an earlier error stays, a new one is reported, otherwise the value is appended |
| Relational.EvaluationsPrefixErr | core.php:474-476 | an error on the first rows is the error of all of them |
| Relational.EvaluationsErrAt | core.php:474-476 | the first failing row decides the error |
| Relational.FilterSnoc | core.php:474-476 | the filter of one more row |
| Relational.WhereVerdicts | core.php:475 | WHERE drops a row exactly when its value is `=== false` |
| Relational.JoinVerdicts | core.php:493 | the join keeps a pair exactly when its value is `=== true` |
| Relational.WhereStep | core.php:474-476 | one more row through the WHERE loop is kept unless its value is `false` |
| Relational.JoinStep | core.php:490-493 | one more pair through the join loop is kept when its value is `true` |
| Relational.WhereSoFarStart | core.php:472-478 | the WHERE loop's invariant holds at the start |
| Relational.WhereSoFarNext | core.php:474-476 | one row more keeps the invariant |
| Relational.WhereSoFarDone | core.php:477 | at the end the invariant gives the result |
| Relational.WhereFailsAt | core.php:474-476 | a row whose condition fails is the error of WHERE |
| Relational.Where | core.php:472-478 | no contract of its own: WhereKeepsExactly, WhereVerdicts and WhereFailsAt give its meaning |
| Relational.WhereKeepsExactly | core.php:472-478 | WHERE keeps, in order, exactly the rows whose condition is not `false` |
| Relational.MergeEach | core.php:488-494 | one accumulator row merged with every incoming row |
| Relational.TimesIsProduct | core.php:487-495 | the repeated sum is `n * m` |
| Relational.Cross | core.php:487-495 | the cross product has `|A| * |B|` rows |
| Relational.CrossStep | core.php:487-495 | the pairs of one more accumulator row follow the earlier ones |
| Relational.CrossGrows | core.php:487-495 | the cross product of a prefix of the accumulator is a prefix |
| Relational.CrossPrefix | core.php:487-495 | the pairs the nested loops have produced lead the cross product |
| Relational.MergeEachPrefix | core.php:488-494 | the inner loop's first merges are a prefix |
| Relational.CrossIndex | core.php:487-495 | the pair of rows `i` and `j` sits at `i*|B| + j` |
| Relational.CrossIndexFront | core.php:487-495 | the same, for a row before the last |
| Relational.CrossIndexLast | core.php:487-495 | the same, for the last accumulator row |
| Relational.OuterJoin | core.php:480-497 | an empty incoming table changes nothing; an empty accumulator is replaced; without a condition the result is the cross product |
| Relational.MergeEachNext | core.php:488-494 | the inner loop one incoming row further |
| Relational.KeptSoFarStart | core.php:486 | the join loop's invariant holds at the start |
| Relational.KeptSoFarNext | core.php:490-493 | one pair more keeps it |
| Relational.KeptSoFarMerge | core.php:488-494 | one step of the inner loop keeps it |
| Relational.KeptSoFarDone | core.php:486-496 | once every pair is produced, what was kept is the join |
| Relational.JoinRowFails | core.php:488-494 | a failing condition fails the rest of the inner loop |
| Relational.MergedSoFarLeads | core.php:488-494 | the merges so far lead those of the whole inner loop |
| Relational.JoinFailsIn | core.php:487-495 | a condition failing while row `a` is merged fails the whole join |
| Relational.JoinWithoutCondition | core.php:487-496 | without ON, the join has `|A|*|B|` rows, and row `i` of A merged with row `j` of B sits at `i*|B| + j` |
| Relational.JoinKeepsExactlyTrue | core.php:487-496 | with ON, a pair is kept, in order, exactly when its condition is `true` (a truthy non-boolean does not keep it) |
| Relational.Slice | core.php:849-851 | `array_slice` returns no more rows than it is given |
| Relational.Limit | core.php:849-851 | no contract of its own: SliceIsWindow gives the window of rows the intval'd offset and count select |
| Relational.SliceIsWindow | core.php:849-851 | for a non-negative offset and count, the slice is the contiguous run from the offset, `min(count, max(0, n - offset))` long |
| Grouping.BucketKeys | core.php:858-863 | the bucket keys, in order |
| Grouping.AddToBucketKeys | core.php:861-862 | filing a row adds its key at the end when it is new and leaves the keys as they were otherwise, restart or not; no bucket becomes empty |
| Grouping.AddToBucketMembers | core.php:861-862 | the row is filed under its own key and nowhere else; a restart (a value array_key_exists refuses) first drops the rows filed under that key |
| Grouping.AddToBucketBag | core.php:861-862 | filing a row adds that row and nothing else; without a restart nothing is lost |
| Grouping.FirstSeen | core.php:858-863 | the distinct keys in first-seen order: every key once |
| Grouping.Marks | core.php:858-863 | which rows the bucket of a key keeps: those with that key that no later row with the same key restarted |
| Grouping.Group | core.php:858-863 | no contract of its own: GroupSpec, GroupKeys, GroupMembers, GroupNonEmpty and GroupBag give its meaning |
| Grouping.GroupSpec | core.php:858-863 | bucketing gives the distinct keys in first-seen order, each holding exactly its rows that no later restart of the key dropped, in input order; no bucket is empty; the buckets hold input rows only, and every row once when no row restarts its bucket |
| Grouping.GroupKeys | core.php:858-863 | the bucket keys are the keys in first-seen order |
| Grouping.GroupMembers | core.php:858-863 | each bucket holds exactly its key's rows that no later restart of the key dropped, in order |
| Grouping.GroupNonEmpty | core.php:858-863 | no bucket is empty |
| Grouping.GroupBag | core.php:858-863 | the buckets hold input rows only, each at most as often as the input does, and every row once when no row restarts its bucket |
| Grouping.SurvivesSnoc | core.php:861-862 | a row stays in its bucket after one row more exactly when it stayed before and the new row does not restart that key |
| Grouping.MarksSnoc | core.php:861-862 | the marks after one row more: the new row is marked when it has the key; its restart unmarks every earlier row, and otherwise the earlier marks stand |
| Grouping.FilterNone | core.php:861 | a restart that drops every earlier row of a key leaves its bucket with nothing from before |
| Grouping.MembersAt | core.php:858-863 | with distinct keys, a bucket's rows are its key's members |
| Grouping.InBucketsBag | core.php:858-863 | a row in a bucket is in the buckets |
| Grouping.Nodes | core.php:865-873 | one node `[column => key, 'children' => rows]` per bucket, in bucket order |
| Grouping.KeysOfValues | core.php:858-863 | the group values as array keys (a boolean as 0 or 1) |
| Grouping.RestartsOfValues | core.php:861 | which group values array_key_exists refuses (the booleans), so that their row restarts its bucket |
| Grouping.GroupLevel | core.php:853-881 | past the last item, or on no rows, the rows come back unchanged; GroupTree and SingleGroupBy state the rest, with a boolean group value restarting its bucket |
| Grouping.Descend | core.php:875-878 | one subgrouped node per bucket |
| Grouping.GroupBy | core.php:910-914 | GROUP BY of no rows is no rows; GroupByKeepsEveryRow and SingleGroupBy state the rest |
| Grouping.GroupedZero | core.php:883-907 | a table is zero levels deep exactly when no row has `children` |
| Grouping.LeafBagAppend | core.php:883-907 | the leaves of two tables side by side add up |
| Grouping.GroupedAppend | core.php:883-907 | two tables side by side are `d` levels deep exactly when both are |
| Grouping.NodesTree | core.php:865-873 | the nodes of non-empty buckets of plain rows are one level deep and hold the buckets' rows |
| Grouping.PlainBuckets | core.php:858-863 | bucketing plain rows gives non-empty buckets of plain input rows, at least one when there are rows, each row at most once, and every row once when no row restarts its bucket |
| Grouping.GroupTree | core.php:853-881 | grouping plain rows by the items from `index` on builds a tree `|items| - index` levels deep whose leaves are input rows, each at most once, and every row once when none of the rows' group values from `index` on is a boolean |
| Grouping.BucketRowsFrom | core.php:858-863 | buckets that hold some of the plain input rows hold only plain input rows |
| Grouping.BucketsTree | core.php:864-880 | the level built from non-empty buckets of plain input rows is a tree of input rows, each at most once, and every row once when the buckets hold every row and no row has a boolean value below this level |
| Grouping.KeyableBuckets | core.php:875-878 | bucket rows drawn from rows without boolean group values have none either |
| Grouping.KeyableLevel | core.php:858-863 | when no row's group values from this item on are boolean, no row restarts a bucket at this level and none has a boolean value below it |
| Grouping.LevelTree | core.php:865-878 | one level built from buckets is a tree of the right depth whose leaves are the buckets' rows, each at most once, and all of them when no bucket row has a boolean value below this level |
| Grouping.GroupLevelStep | core.php:853-881 | one level unfolded: the values are evaluated, the column named, then the nodes are built or grouped further |
| Grouping.DescendTree | core.php:875-878 | subgrouping each bucket adds a level and keeps the buckets' rows, each at most once, and all of them when no bucket row has a boolean value below this level |
| Grouping.FlattenLeafGroups | core.php:883-907 | flattening one level of groups changes nothing |
| Grouping.MergeEachKeepsLeaves | core.php:897 | merging a node's column into flattened children keeps their `children` |
| Grouping.Flatten | core.php:883-907 | no contract of its own: FlattenTree, FlattenLeafGroups, FlattenStops and FlattenNext give its meaning, the break included |
| Grouping.FlattenTree | core.php:883-907 | flattening a tree `d >= 1` levels deep leaves one level of groups holding the same leaf rows, and not none when there were nodes |
| Grouping.FlattenCombine | core.php:887-904 | the inductive step of flattening |
| Grouping.FlattenStep | core.php:887-904 | one node of a grouped table: its flattened children merged with its column, then the rest |
| Grouping.FlatJoin | core.php:883-907 | two flat grouped tables side by side stay flat and their leaves add up |
| Grouping.GroupByKeepsEveryRow | core.php:910-914 | GROUP BY on plain rows gives one level of groups whose rows are input rows, each at most once, and exactly the input rows when no group value is a boolean (array_key_exists refuses those, and the bucket starts over) |
| Grouping.SingleGroupBy | core.php:853-881 | with one item: one node per distinct key in first-seen order, whose `children` are exactly the rows with that key that no later row with a boolean value of that key dropped, in input order |
| Grouping.GroupByOneLevel | core.php:910-914 | with one item, the result is the level of group nodes |
| Grouping.NodesOfGroup | core.php:858-873 | the nodes of a table: one per distinct key in first-seen order, each holding exactly the rows of that key that no later restart dropped |
| Grouping.BucketedStart | core.php:858 | the bucketing loop's invariant holds at the start |
| Grouping.BucketedNext | core.php:859-862 | one row more keeps it: the row is filed under its value's key, restarting the bucket when array_key_exists refuses the value |
| Grouping.GroupLevelFails | core.php:860 | a group value that fails is the level's error |
| Grouping.GroupLevelBucketed | core.php:864-880 | once every row is filed, the level is its nodes, grouped further when there is a next item |
| Grouping.DescendNext | core.php:875-878 | node `j` of the subgrouping loop |
| Grouping.FlattenStops | core.php:889 | a row without `children` ends the flattening |
| Grouping.FlattenNext | core.php:891-903 | a node contributes its column merged into each flattened child, or itself when there are none |
| Stages.QualifyUpToNext | core.php:563-566 | one more step of the renaming loop |
| Stages.QualifyUpToRenames | core.php:562-568 | on a well-keyed row the loop renames the entries one by one |
| Stages.LoadedRowQualified | core.php:562-568 | loading keeps each value and gives key `k` the name `prefix.lower(k)` in the same position |
| Stages.LoadedRows | core.php:562-569 | every provider row loaded, in provider order |
| Stages.LoadedRowsSnoc | core.php:562-568 | the loaded rows one row further |
| Stages.LoadedRowsAt | core.php:562-569 | row `i` of the loaded table is provider row `i` loaded |
| Stages.LoadTable | core.php:504-570 | loading fails exactly for an unregistered table ("does not exist"), and otherwise yields one row per provider row |
| Stages.LoadThenStrip | core.php:504-570 | a loaded row of a single table strips back to the provider's row |
| Stages.Mapping | core.php:607-619 | the rebuilt index lists exactly the short names of the first row's keys, with their lowered full names; no rows or an empty first row keep the old index |
| Stages.Register | core.php:635-639 | an aliased entry is recorded both ways, alias to table and table to alias; other entries change nothing |
| Stages.FromRestStops | core.php:641-643 | after a join that left no rows, the next alias is registered and the loop ends |
| Stages.FromRestLoadFails | core.php:646 | an entry whose table is not registered ends FROM with that error |
| Stages.FromRestJoinFails | core.php:646 | an entry whose join fails ends FROM with the join's error |
| Stages.FromRestNext | core.php:646-650 | an entry that loads and joins: the loop goes on from the joined table, with the index rebuilt |
| Stages.FromRest | core.php:630-651 | no contract of its own: FromRestStops, FromRestLoadFails, FromRestJoinFails and FromRestNext state the loop one entry at a time |
| Stages.From | core.php:625-652 | no contract of its own: FromOneTable, FromUnknownTable, FromStopsWhenEmpty and FromTwoTables give its meaning |
| Stages.FromOneTable | core.php:625-652 | FROM one table on a fresh engine gives that table's loaded rows and the index of the first one |
| Stages.FromUnknownTable | core.php:625-652 | tables are loaded in FROM order: an unregistered first table is the error |
| Stages.FromStopsWhenEmpty | core.php:641-643 | an empty working table after a join stops FROM without error |
| Stages.FromTwoTables | core.php:625-652 | two tables: the join of their loaded rows under the second entry's ON condition |
| Stages.SelectAliases | core.php:921-928 | the registered aliases are the old ones plus every alias the list declares |
| Stages.SelectAliasesLastWins | core.php:921-928 | a repeated alias names its last entry |
| Stages.SelectAliasesKeeps | core.php:921-928 | an alias the list does not declare keeps its entry |
| Stages.ColumnsUnder | core.php:734-737 | `t.*` picks columns of the row whose names start with `t.`, in order |
| Stages.ColumnsUnderNext | core.php:735-737 | the `t.*` loop one column further |
| Stages.Project | core.php:719-755 | one result row per input row |
| Stages.SelectRowStep | core.php:721-754 | the loop over SELECT entries one entry further |
| Stages.SelectRowPrefixErr | core.php:721-754 | the first failing entry decides the row's error |
| Stages.SelectRowErrStays | core.php:721-754 | an error before the last entry stays |
| Stages.ProjectStep | core.php:719-755 | the loop over rows one row further |
| Stages.ProjectPrefixErr | core.php:719-755 | the first failing row decides the projection's error |
| Stages.ProjectErrStays | core.php:719-755 | an error before the last row stays |
| Stages.Select | core.php:704-762 | a lone aggregate gives one row; otherwise one row per input row |
| Stages.SelectStarKeepsRows | core.php:742-744 | `SELECT *` gives every row back unchanged |
| Stages.SelectItem | core.php:724-751 | no contract of its own: SelectRowColumns states a named entry, ColumnsUnder `t.*`, and SelectStarKeepsRows `*`; the `t.*` prefix is the corrected one of the Findings |
| Stages.SelectRow | core.php:721-754 | no contract of its own: SelectRowColumns, SelectRowStep and SelectRowPrefixErr give its meaning |
| Stages.SelectRowColumns | core.php:721-754 | with distinct names and no `*`, a result row has one column per entry, named as the entry, holding the entry's value on the row |
| Stages.ColumnsSnoc | core.php:751 | the column facts carry over when the last entry's column is appended |
| Stages.DistinctInit | core.php:721-754 | the entries before the last keep distinct names and no `*` |
| Stages.SelectRowLast | core.php:751 | the last entry is evaluated on the row and appended under its name |
| Ordering.OutOfOrderAsymmetric | core.php:779-789 | two rows out of order are distinct, and not out of order the other way round; no value is out of order with itself |
| Ordering.IntsTotallyOrdered | core.php:779-789 | integer columns are totally ordered |
| Ordering.TextTotallyOrdered | core.php:779-789 | columns of non-numeric strings are totally ordered |
| Ordering.InOrderTransitive | core.php:779-789 | on such values "not out of order" is transitive, in either direction |
| Ordering.InOrderAntisymmetric | core.php:779-789 | and antisymmetric |
| Ordering.ColumnValues | core.php:779-789 | the values a column holds cover every row |
| Ordering.SameRangeReflexive | core.php:771-825 | a range is a permutation of itself |
| Ordering.SameRangeTransitive | core.php:771-825 | permutations of a range compose |
| Ordering.Swap | core.php:764-768 | `swap` keeps the length |
| Ordering.SwapInRange | core.php:764-768 | swapping two rows of a range permutes the range |
| Ordering.SameRangeWiden | core.php:797-824 | a permutation of a sub-range permutes any range around it |
| Ordering.SameRangeMember | core.php:771-825 | every row of a permuted range is one of its old rows |
| Ordering.SameRangeValuesIn | core.php:771-825 | a permutation keeps every value a column holds |
| Ordering.RunKeepsKey | core.php:797-824 | permuting a run that agrees on a key leaves that key's value at every position |
| Ordering.ExchangeStep | core.php:781-787 | one comparison keeps both loop invariants and extends the inner one |
| Ordering.SwapKeepsPlaced | core.php:784-786 | a swap after position `a` keeps the rows before `a` placed |
| Ordering.SwapExtendsHead | core.php:784-786 | swapping an out-of-order pair extends the inner invariant |
| Ordering.SwapKeepsValues | core.php:784-786 | a swap keeps the column's values |
| Ordering.KeysOrderedPermuted | core.php:771-825 | a permutation keeps every key's values totally ordered |
| Ordering.RunsAreContiguous | core.php:797-824 | in a range sorted on a totally ordered key, rows with equal values sit side by side |
| Ordering.RunJoins | core.php:797-824 | a finished run joins the rows already ordered on the later keys |
| Ordering.RunsDoneSorted | core.php:797-824 | sorted on key `idx`, with equal rows ordered on the later keys, is ordered key by key |
| Ordering.LastKeySorted | core.php:791 | with one key left, sorted on it is all there is |
| Ordering.LexSortedOnFirst | core.php:771-825 | ordered key by key implies sorted on the first key |
| Ordering.Exchange | core.php:781-787 | one comparison keeps the length |
| Ordering.ExchangeRow | core.php:780-788 | the inner loop keeps the length |
| Ordering.ExchangeSort | core.php:779-789 | the exchange sort keeps the length |
| Ordering.OrderRange | core.php:771-825 | recursiveApplyOneOrder keeps the length |
| Ordering.Runs | core.php:797-824 | the run loop keeps the length |
| Ordering.Refine | core.php:811-813 | re-sorting a run keeps the length |
| Ordering.ExchangeRowNext | core.php:780-788 | the inner loop one step further |
| Ordering.ExchangeSortNext | core.php:779-789 | the outer loop one step further |
| Ordering.RunsSame | core.php:804-806 | a row with the run's value extends the run |
| Ordering.RunsNew | core.php:808-818 | a new value ends the run, which is re-sorted, and starts a new one |
| Ordering.RunsEnd | core.php:821-824 | the last run is re-sorted after the loop |
| Ordering.ExchangeRowPermutes | core.php:780-788 | the inner loop permutes the range |
| Ordering.ExchangeRowPermutesStep | core.php:780-788 | one step of it does too |
| Ordering.ExchangePermutes | core.php:781-787 | one comparison permutes the range |
| Ordering.ExchangeSortPermutes | core.php:779-789 | the exchange sort permutes the range, whatever the values |
| Ordering.ExchangeRowPlaces | core.php:780-788 | on totally ordered values the inner loop places row `a` |
| Ordering.ExchangeRowPlacesStep | core.php:780-788 | one comparison, then the rest of the inner loop |
| Ordering.HeadPlacedExtends | core.php:779-789 | row `a` in order with every later row extends the placed prefix |
| Ordering.ExchangeSortSorts | core.php:779-789 | on totally ordered values the exchange sort sorts the range |
| Ordering.PlacedSorted | core.php:779-789 | every row placed means the range is sorted |
| Ordering.ExchangeRowKeepsSorted | core.php:780-788 | rows already in order are never swapped |
| Ordering.ExchangeSortKeepsSorted | core.php:779-789 | a sorted range is left as it is |
| Ordering.OrderRangePermutes | core.php:771-825 | whatever the values, ORDER BY of a range only permutes it |
| Ordering.RunsPermutes | core.php:797-824 | the run loop permutes the range and keeps each value under key `idx` where it was |
| Ordering.RunsPermutesNew | core.php:808-818 | the same at a new value |
| Ordering.SameValuesTransitive | core.php:797-824 | keeping each value in place composes |
| Ordering.RefinePermutes | core.php:811-813 | re-sorting a run of equal values permutes it and keeps each value under key `idx` |
| Ordering.OrderRangeSorts | core.php:771-825 | when every key's values are totally ordered, the range comes out ordered key by key |
| Ordering.RunsSorts | core.php:797-824 | the run loop over rows sorted on key `idx` orders every run on the later keys |
| Ordering.RunsSortsNew | core.php:808-818 | the same at a new value |
| Ordering.LastRunSorts | core.php:821-824 | with the last run re-sorted, the range is ordered key by key |
| Ordering.NextRunStarts | core.php:808-818 | a re-sorted run leaves the invariant holding for the next run |
| Ordering.RunStepFacts | core.php:811-813 | what re-sorting one run keeps |
| Ordering.Insert | core.php:842-845 | stable insertion adds exactly the row |
| Ordering.SortByKey | core.php:842-845 | `uasort` permutes the rows |
| Ordering.InsertMember | core.php:842-845 | every row of an insertion is the new row or an old one |
| Ordering.SortedPrefix | core.php:842-845 | a prefix of a sorted list is sorted |
| Ordering.ValuesInPrefix | core.php:842-845 | a prefix keeps the column's values |
| Ordering.InsertSorted | core.php:842-845 | inserting into a sorted list of ordered values keeps it sorted |
| Ordering.InsertBehind | core.php:842-845 | the same when the row goes before the last one |
| Ordering.InsertAtEnd | core.php:842-845 | the same when the row goes at the end |
| Ordering.SortByKeySorts | core.php:842-845 | on totally ordered values, `uasort` sorts the rows on the key |
| Ordering.SortByKeyKeepsSorted | core.php:842-845 | `uasort` leaves rows already in order where they are |
| Ordering.InsertAtTail | core.php:842-845 | a row in order with the last one goes at the end |
| Ordering.AsWrittenKey | core.php:777-782 | the as-written multi-key path reads the column exactly as typed |
| Ordering.AsWrittenKeyReadsNull | core.php:777-787 | with a bare column name, every loaded row reads null, so nothing is out of order |
| Ordering.AsWrittenExample | core.php:777-787 | rows with ages 25 and 40 read null under `age`, though they are out of order under `users.age` DESC |
| Pipeline.OrderBy | core.php:828-846 | no contract of its own: OrderByPermutes and OrderBySorts give its meaning; every key is resolved, the corrected path of the Findings |
| Pipeline.OrderByAsWritten | core.php:828-846 | no contract of its own: AsWrittenOrderKeepsRows and AsWrittenOrderCounterexample show that with several bare keys nothing moves |
| Pipeline.SelectQuery | core.php:1005-1045 | no contract of its own: the stages in the order handleSelect runs them, proved equal to Engine.SuperSql.HandleSelect |
| Pipeline.Run | core.php:1135-1150 | no contract of its own: SelectQuery on a fresh engine, then StripAll; proved equal to Engine.SuperSql.Execute |
| Pipeline.ResolveKeys | core.php:828-846 | each ORDER BY entry resolved to a full column name, left to right, keeping its direction |
| Pipeline.ResolveKeysStep | core.php:828-846 | the resolution one entry further |
| Pipeline.ResolveKeysPrefixErr | core.php:828-846 | the first entry that does not resolve decides the error |
| Pipeline.ResolveKeysErrStays | core.php:828-846 | an error before the last entry stays |
| Pipeline.OrderByPermutes | core.php:828-846 | ORDER BY fails exactly when there are rows and an entry does not resolve, and otherwise returns a permutation of the rows |
| Pipeline.OrderBySorts | core.php:771-846 | when every key's values are totally ordered, the rows come out ordered on the first key, ties on the second, and so on |
| Pipeline.AsWrittenKeys | core.php:777-782 | the as-written keys, one per entry |
| Pipeline.NullKeysKeepRows | core.php:771-825 | keys under which every row reads null leave the range as it is |
| Pipeline.NullRunsKeepRows | core.php:797-824 | the run loop over such keys changes nothing |
| Pipeline.AsWrittenOrderKeepsRows | core.php:771-846 | as written, on loaded rows, an ORDER BY of two or more bare names changes nothing |
| Pipeline.UserRow | core.php:562-568 | a loaded `users` row |
| Pipeline.ExampleNamesResolve | core.php:656-681 | `age` and `id` resolve to `users.age` and `users.id` |
| Pipeline.ExampleResolves | core.php:828-846 | `ORDER BY age DESC, id` resolves to those keys |
| Pipeline.ExampleValues | core.php:771-825 | the example rows' values under the keys |
| Pipeline.ExampleKeysOrdered | core.php:771-825 | the example's key values are totally ordered |
| Pipeline.UserRowQualified | core.php:562-568 | every column of a loaded row is qualified |
| Pipeline.ExampleQualified | core.php:562-568 | so are the example rows |
| Pipeline.ExampleAsWrittenKeeps | core.php:777-787 | as written, the example stays in the order 25, 40 |
| Pipeline.ExampleOutOfOrder | core.php:771-825 | that order is not sorted on `age DESC, id` |
| Pipeline.ExampleCorrectedSorts | core.php:771-846 | the corrected ORDER BY sorts the example |
| Pipeline.AsWrittenOrderCounterexample | core.php:777-787 | `ORDER BY age DESC, id` on ages 25 and 40 leaves them unsorted as written, and the corrected path sorts them |
| Pipeline.StripAll | core.php:577-580 | one stripped row per result row |
| Pipeline.StripAllNext | core.php:578-579 | the stripping loop one row further |
| Engine.SuperSql.Res | core.php:13-19 | the resolver reads the engine's registered tables, aliases and index |
| Engine.SuperSql.constructor | core.php:13-19 | a new engine: no rows, no aliases, an empty index |
| Engine.SuperSql.GetColumnsForSelect | core.php:921-928 | `column_alias` registers every aliased SELECT entry under its alias, later entries winning |
| Engine.SuperSql.QualifyKeys | core.php:562-568 | the in-place renaming loop yields the loaded row |
| Engine.SuperSql.LoadTableRows | core.php:504-570 | the loaded table, or "does not exist" |
| Engine.SuperSql.ConstructColumnNameMapping | core.php:607-619 | the index is rebuilt from the first row, or kept |
| Engine.SuperSql.OuterJoin | core.php:480-497 | the table becomes the join, or is left as it was with the error |
| Engine.SuperSql.JoinTables | core.php:480-497 | the nested loops compute the join |
| Engine.SuperSql.JoinRow | core.php:488-494 | the inner loop keeps the join's invariant, or reports the first failing condition |
| Engine.SuperSql.ApplyFrom | core.php:625-652 | the state after FROM, or its error |
| Engine.SuperSql.RegisterAlias | core.php:635-639 | the alias is recorded both ways |
| Engine.SuperSql.ApplyWhere | core.php:472-478 | the table becomes the WHERE result, or is left as it was with the error |
| Engine.SuperSql.WhereRows | core.php:472-478 | the loop computes WHERE |
| Engine.SuperSql.ApplyOrder | core.php:828-846 | the table becomes the corrected ORDER BY result (Pipeline.OrderBy, every key resolved), or is left as it was with the error |
| Engine.SuperSql.ResolveAll | core.php:828-846 | each entry resolved, left to right |
| Engine.SuperSql.SortRange | core.php:771-825 | the range sorted on key `idx` and refined on the later keys |
| Engine.SuperSql.RefineRuns | core.php:797-824 | the run loop |
| Engine.SuperSql.RefineRun | core.php:811-813 | a run of more than one row is re-sorted on the next key |
| Engine.SuperSql.ExchangeSortRange | core.php:779-789 | the two nested exchange loops |
| Engine.SuperSql.ExchangeRowRange | core.php:780-788 | the inner exchange loop |
| Engine.SuperSql.CompareAndSwap | core.php:781-787 | one comparison and swap |
| Engine.SuperSql.ApplyLimit | core.php:849-851 | the table becomes its LIMIT slice |
| Engine.SuperSql.ApplySelect | core.php:704-762 | the table becomes the projection and the index is rebuilt from it, or the index stays with the error |
| Engine.SuperSql.ProjectRows | core.php:719-755 | the loop over rows computes the projection |
| Engine.SuperSql.SelectColumns | core.php:721-754 | the loop over entries computes one result row |
| Engine.SuperSql.SelectEntry | core.php:724-751 | one entry: `*`, `t.*` with the corrected table prefix, or a named value |
| Engine.SuperSql.ColumnsWithPrefix | core.php:734-737 | the columns under a table's prefix |
| Engine.SuperSql.ApplyGroupBy | core.php:910-914 | the table becomes the GROUP BY result (Grouping.GroupBy, with the restarts of boolean values), or is left as it was with the error |
| Engine.SuperSql.GroupRows | core.php:853-881 | recursiveApplyOneGroupBy: the result is Grouping.GroupLevel, so GroupTree and SingleGroupBy hold of it |
| Engine.SuperSql.BucketRows | core.php:858-863 | the bucketing loop files every row, a boolean value restarting its bucket as array_key_exists makes it, or reports the level's error |
| Engine.SuperSql.LevelNodes | core.php:865-873 | the node-building loop |
| Engine.SuperSql.SubGroups | core.php:875-878 | the subgrouping loop |
| Engine.SuperSql.FlattenGroups | core.php:883-907 | recursiveFlattenGroupBy |
| Engine.SuperSql.AppendMerged | core.php:897 | each child merged with its node's column and appended |
| Engine.SuperSql.ApplyHaving | core.php:917-919 | HAVING is WHERE on its own condition |
| Engine.SuperSql.HandleSelect | core.php:1005-1045 | the aliases are registered; then the query's stages in order, with the corrected prefix, NOT IN and ORDER BY; the total is the row count |
| Engine.SuperSql.ApplyClauses | core.php:1018-1037 | the stages between FROM and SELECT |
| Engine.SuperSql.ApplyFilters | core.php:1018-1028 | WHERE, GROUP BY and HAVING, each when present |
| Engine.SuperSql.ApplyArrange | core.php:1030-1037 | ORDER BY and LIMIT, each when present |
| Engine.SuperSql.RemoveColumnPrefixIfPossible | core.php:577-580 | every result row stripped |
| Engine.SuperSql.StripRows | core.php:577-580 | the loop over rows |
| Engine.SuperSql.RemoveColumnPrefixForRow | core.php:582-603 | each column written under its short name when unambiguous, its full name otherwise |
| Engine.SuperSql.Execute | core.php:1135-1150 | a new engine runs the statement with the corrected stages, and the result rows are stripped; equal to Pipeline.Run |

## Left out

- The table cache of loadTableRows (core.php:506-540) reads and writes files and the clock. A provider is modelled as the rows it returns, a map from table name to rows. The "does not exist" error is kept.
- The `hookWillSelectFromTable` hooks and the `more_columns` callbacks (core.php:525-528, 546-554) run host code and are not modelled.
- preventArrayInColumn (core.php:37-43) encodes nested arrays as JSON. Rows here hold scalars only, so there is nothing to encode.
- The functions that read the clock or format floats (NOW, CURRENT_TIMESTAMP, DATE, TIME, FROM_UNIXTIME, UNIX_TIMESTAMP, YEAR, MONTH, ROUND, FLOOR) give the error `FunctionNotModelled`: the clock is outside the model, and the model has no floating-point numbers. CONCAT, ABS, IF, SUBSTR and REPLACE are modelled.
- Subqueries in a column or under IN / NOT IN (core.php:255-257, 403-415, 429-442) would run the parser and a nested engine, and are not modelled.
- Floating point: arithmetic is on integers. `/` truncates toward zero where PHP gives a float. AVG is integer division.
- PHP 7's loose comparison is simplified: a numeric string is an optional sign followed by digits. Leading blanks, decimals and exponents are not recognised.
- The SQL parser, `_execute`, INSERT, UPDATE, DELETE and TRUNCATE, the define* registries, and printing are not part of this model.
- `vsprintf` and `strtolower` of the SQL text in execute are not modelled. The statement arrives parsed and already lower-cased.
- An alias that refers back to itself makes PHP recurse without end. The model gives the error `AliasCycle` once a fuel bound, the number of aliases, is spent.
- Exceptions are modelled as `Err` results. Where the source throws midway through a stage, the model reports the error and makes no promise about the partly updated fields.
- `uasort` is modelled as a stable insertion sort. PHP's sort is stable since 8.0, and the keys it keeps are discarded by later stages. The model does not promise the order PHP 7's unstable sort would give equal rows.
- The `$this->parsed` field is not modelled; the statement is passed as a parameter.
- COUNT and AVG divide by `count($parent_row)`, the parent row's key count, as core.php:128-133 and 170-177 do. That is not the number of child rows. The model follows the code.
- Engine.SuperSql.ApplyFrom: on error, only the error is stated, not the partly updated fields.
- Engine.SuperSql.ApplyClauses: on error, only the error is stated.
- Engine.SuperSql.ApplyFilters: on error, only the error is stated.
- Engine.SuperSql.ApplyArrange: on error, only the error is stated.
- Engine.SuperSql.HandleSelect: on error, only the error is stated. On success it gives the corrected pipeline (the prefix, NOT IN and ORDER BY of the Findings), not core.php as written; the as-written halves are Names.ToTableAliasIfPossibleAsWritten, Expr.NotInAsWritten and Pipeline.OrderByAsWritten.
- Engine.SuperSql.ApplyOrder: runs the corrected Pipeline.OrderBy, which resolves every key. core.php:830-832 passes several keys unresolved, so that `ORDER BY age DESC, id` leaves the rows as they are; that path is Pipeline.OrderByAsWritten.
- Engine.SuperSql.SelectEntry: `t.*` takes its prefix from the corrected Names.ToTableAliasIfPossible, so an unaliased `users.*` selects the table's columns, where core.php:731-737 selects none (Names.ToTableAliasIfPossibleAsWritten).
- Engine.SuperSql.Execute: equal to Pipeline.Run, the corrected pipeline; it does not reproduce the three as-written behaviours of the Findings.
- Pipeline.Run: composes the corrected stages (Names.ToTableAliasIfPossible, Expr.EvalChain, Pipeline.OrderBy), not their as-written counterparts (Names.ToTableAliasIfPossibleAsWritten, Expr.NotInAsWritten, Pipeline.OrderByAsWritten).
- Names.ToTableAliasIfPossible: gives an unaliased table its own name as prefix; core.php:688-701 gives the empty prefix, modelled as Names.ToTableAliasIfPossibleAsWritten.
- Expr.EvalChain: NOT IN reads the in-list at position 3; core.php:417-426 reads position 2 and is always true, modelled as Expr.NotInAsWritten.
- Expr.ScalarFunction: IF, SUBSTR and REPLACE with one argument and ABS with two or more give the error `BadArguments`. PHP would index into a bare scalar or pass a list to abs(), with version-dependent warnings. IF with three or more arguments, CONCAT with one, and the functions called with no argument follow the code. SUBSTR reads its start and length as the leading integer of their text, where PHP 7 refuses a string with no leading number (a warning and a null result); strings are sequences of characters where PHP counts bytes.
- Ordering.OrderRangeSorts: sortedness is proved only when every key's values are totally ordered (integers, or non-numeric strings), because PHP's loose order is not transitive in general (Values.CompareNotTransitive).
- Pipeline.OrderBySorts: the same restriction.
- Ordering.SortByKeySorts: the same restriction.
- Names.QualifyThenStrip: proved only for provider rows whose keys are lower case, dot-free and distinct once lowered.
- Stages.SelectStarKeepsRows: proved only for rows without duplicate column names.
- Grouping.GroupByKeepsEveryRow: proved only for input rows that have no `children` entry, as rows after FROM and WHERE have none.
- Grouping.GroupLevel: a float group value is refused by PHP 7's array_key_exists too, and every arithmetic result in PHP is a float (core.php:346-347); the model's arithmetic gives integers, so such a group keeps all its rows where PHP keeps only the last. Only booleans restart a bucket here.
- Grouping.GroupBy: the same float restriction as Grouping.GroupLevel.
- Grouping.GroupTree: the same float restriction as Grouping.GroupLevel.
- Grouping.GroupByKeepsEveryRow: the same float restriction as Grouping.GroupLevel.
- Grouping.SingleGroupBy: the same float restriction as Grouping.GroupLevel.
- Grouping.KeysOfValues: the same float restriction as Grouping.GroupLevel; PHP would also truncate a float key to an integer.
- Engine.SuperSql.ApplyGroupBy: the same float restriction as Grouping.GroupLevel.
- Engine.SuperSql.GroupRows: the same float restriction as Grouping.GroupLevel.
- Engine.SuperSql.BucketRows: the same float restriction as Grouping.GroupLevel.
- Assoc.MergeFind: keys are kept as strings. PHP's array_merge renumbers integer-like keys, so a column named `1` (from `SELECT 1, *`, core.php:743 and 751) becomes `0`, and such keys of both arrays are appended rather than merged.
- Rows.MergeRowsGet: the same integer-key restriction as Assoc.MergeFind. The join at core.php:489 merges prefixed names, which contain a dot and are never integer-like.

## Findings

| source | as written | input that shows it | evidently intended | confidence | as-written member | corrected member |
|---|---|---|---|---|---|---|
| core.php:688-701 | for a table name, toTableAliasIfPossible returns getTableAlias(), which is `false` for a table without an alias | `users.id` with `users` unaliased becomes `.id` | the prefix the table's columns were loaded under: its first alias, or its own name when it has none | not executed | Names.UnaliasedTablePrefixLost | Names.TablePrefixResolves |
| core.php:417-426 | NOT IN reads the list from `$structs[2]['sub_tree']`, the `in` token, so the list is always empty | `'a' not in ('a')` is true | the negation of IN over `$structs[3]` | not executed | ExprProps.NotInExample | ExprProps.NotInNegatesIn |
| core.php:777-787 | with several ORDER BY keys the rows are read by the column name as typed, without toColumnNameWithPrefix, so bare names read null and nothing moves | `ORDER BY age DESC, id` on ages 25 and 40 leaves 25 first | the keys resolved to full column names, as the single-key path does | not executed | Pipeline.AsWrittenOrderCounterexample | Pipeline.OrderBySorts |
