# Kconfig engine and build hashes: a verified model

This project models the part of the build system that decides what gets built
and what the downloads must hash to, in Dafny 4.11, and proves properties of it:

- the simplifier of dependency expressions (`scripts/config/expr.c`): removal of
  constants, common factors and duplicates, negation normal form, inserted
  comparisons;
- the evaluation of symbols (`scripts/config/symbol.c`): memoised values over a
  graph of prompts, defaults, selects and implies, setting a value, choices, and
  the search for dependency cycles;
- the restructuring of the menu tree in place, and the conditions it builds
  (`scripts/config/menu.c`);
- the macro expander (`scripts/config/preprocess.c`) and the strings of `.config`
  files (`scripts/config/confdata.c`);
- SHA-256 and MD5 over a message that arrives in pieces (`scripts/mkhash.c`),
  against FIPS 180-4 and RFC 1321.

`dafny verify dfyconfig.toml` checks everything.

## Reading the model

Values are n < m < y, written 0, 1, 2; AND is the minimum, OR the maximum and NOT
the difference to y (`tristate.dfy`). `Exprs.Eval` gives an expression its value
under an assignment (`Env`), and "under every assignment" below means for all
values of that type. Comparisons follow the source: two texts that are both
numbers are compared as numbers, all others as texts (`Symbols.Compare`).

| file | module | content |
|---|---|---|
| `tristate.dfy`, `option.dfy`, `text.dfy`, `symbol.dfy`, `expr.dfy`, `numerals.dfy` | `Tristates`, `Options`, `Texts`, `Symbols`, `Exprs`, `Numerals` | values, characters, symbols, comparison, expressions, and the numbers that texts spell |
| `expr_yn.dfy`, `expr_eq.dfy`, `expr_join.dfy`, `expr_dups.dfy`, `expr_dups_exact.dfy`, `expr_transform.dfy`, `expr_compare.dfy`, `expr_reorder.dfy` | `EliminateYn`, `EliminateEq`, `Joins`, `EliminateDups`, `DupsExact`, `Transforms`, `Comparisons`, `Reordering` | the simplifier |
| `symbol_graph.dfy` | `SymbolGraph` | what one evaluation yields, and the assignments that satisfy all of them |
| `symbol_calc.dfy`, `symbol_rules.dfy`, `symbol_laws.dfy` | `SymbolCalc`, `SymbolRules`, `SymbolLaws` | the memoised evaluator as a class, its rules, and the values read off the properties one by one |
| `paths.dfy`, `symbol_check.dfy`, `symbol_edges.dfy` | `Paths`, `SymbolCheck`, `SymbolEdges` | cycles and orders of a graph, the cycle search as a class, and what it follows |
| `choice.dfy` | `Choices` | choices and their members |
| `menu.dfy`, `menu_deps.dfy`, `menu_tree.dfy` | `Menus`, `MenuDeps`, `MenuTree` | the linked menu tree, the conditions of its nodes, and both together |
| `blocks.dfy`, `words.dfy` | `Blocks`, `Words32` | blocks, padding, byte order and 32-bit words, shared by both hashes |
| `sha256_core.dfy`, `sha256.dfy`, `sha256_context.dfy`, `sha256_hash.dfy`, `sha256_roots.dfy`, `sha256_example.dfy` | `Sha256Core`, `Sha256`, `Sha256Context`, `Sha256Hash`, `Sha256Roots`, `Sha256Example` | SHA-256, where its constants come from, and a published digest |
| `md5_context.dfy`, `md5.dfy`, `md5_example.dfy` | `Md5Context`, `Md5`, `Md5Example` | MD5 and a published digest |
| `preprocess_text.dfy`, `preprocess_spec.dfy`, `preprocess.dfy`, `preprocess_laws.dfy`, `preprocess_calls.dfy` | `PreprocessText`, `PreprocessSpec`, `Preprocess`, `PreprocessLaws`, `PreprocessCalls` | macro expansion |
| `confdata.dfy` | `ConfData` | string values |

Functions describe results; where the source changes state step by step there is a
class or a method with loops over arrays, fields or linked nodes, and its `ensures`
ties it to such a function. The laws are then lemmas about the functions.

- The symbol evaluator is not compared with itself. A `Solution` is an assignment
  in which every symbol holds what one evaluation yields from the values of the
  symbols it reads. On an acyclic graph there is exactly one
  (`SymbolGraph.PureIsSolution`, `SymbolGraph.SolutionUnique`), and the memoised
  evaluator finds it in any order and from any set of valid symbols
  (`SymbolCalc.SymbolTable.CalcAll`).
- The menu code is proved for an arbitrary outcome of its tests (`accept`), on
  nodes with `parent`, `list` and `next` pointers; `Menus.Seg` ties the pointers to
  a `Forest`, and `Menus.Finalize` is the resulting forest.
- The hashes are proved over any type of words with the operations of the
  standard, and then for 32-bit vectors. `HashBlocks` is the plain iteration over
  all complete blocks.  The constants of SHA-256 are proved to be the roots of the
  first primes, and the published digests of "abc" (`Sha256Example.DigestOfAbc`,
  `Md5Example.DigestOfAbc`) to follow from the standards as stated here.
- Macro expansion is described by `PreprocessSpec.Expand`, a recursion that ends
  because the counts of expansions leave only finitely many of them, whatever the
  variables refer to.

The functions that both the code and the statements about it go through have laws
of their own, which do not mention them: the value of a symbol by the indices of its
properties (`SymbolLaws`), the links of the dependency check by the symbols found in
expressions (`SymbolEdges`), the comparison of numerals (`Numerals`), the operands
that are accepted or cancelled (`Comparisons.DependsIff`, `Reordering`), and the
references of a text from the text to the result (`PreprocessCalls`).

Where the code does not keep a promise on all inputs, the exact condition is
proved, with an input outside it: `Joins.EqualUnequalKeepsIff` and
`DupsExact.DupsKeepsValueIff` (constants such as "0" compare numerically,
`Joins.NumericConstantBreaksJoin` and `DupsExact.NumericConstantBreaksDups`), and
from them `Comparisons.RewrittenValueIff` and `MenuDeps.PropagateValueIff`,
`Comparisons.TransCompareUnderNot` (NOT above an expression at m),
`Comparisons.TransCompareSymbol` (strings as truth values),
`MenuDeps.BooleanReadingSameIff` and `MenuDeps.BooleanReverseIff` (the boolean
reading of conditions), `MenuDeps.MenuGates` with `SymbolRules.UnmetDependencyIff`
(a symbol defined at nodes with and without dependencies,
`MenuDeps.MixedNodesNotGated`), `SymbolRules.SetInRangeTakesEffect` and
`SymbolRules.SetSameKeepsIff` (setting a value, `MenuDeps.SetExceptionArises` and
`SymbolRules.SetSameMayLower`), `SymbolCheck.CheckedIsRanked` (cycles through
range bounds, `SymbolCheck.RangeCycleUnseen`), `ConfData.WriteRead` (newlines in
strings). The comment in
`scripts/config/expr.c:569` gives the result of `(a!='m') && (a!='n')` as `(a='m')`;
the code yields `(a='y')`, and so does the model.

## Model

| member | source | states |
|---|---|---|
| Symbols.StrCmpZero | scripts/config/expr.c:1034-1103 | the fallback text comparison is zero exactly for equal texts |
| Symbols.CompareTriConst | scripts/config/expr.c:1002-1103 | comparing any symbol with y, m or n tests its text, and for a boolean or tristate symbol its value |
| Numerals.NumbersCompare | scripts/config/expr.c:1002-1103 | two number symbols, or one and a constant, are related as the numbers that their decimal texts spell, for all six relations |
| Numerals.HexCompare | scripts/config/expr.c:1002-1103 | so are two hex symbols whose texts are numbers after 0x, up to 64 bits |
| Numerals.LogicCompare | scripts/config/expr.c:1002-1103 | boolean and tristate symbols are compared as 0, 1 and 2, with one another and with number constants |
| Numerals.TextsCompare | scripts/config/expr.c:1062-1103 | two string symbols are compared as texts even if they spell numbers: one is less exactly if it comes before, at the first difference or as a proper prefix |
| Numerals.ParseReads | scripts/config/expr.c:1002-1029 | the decimal text of a number is read as that number |
| Numerals.NegativeReads | scripts/config/expr.c:1002-1029 | with a minus sign as its negative, down to the 64-bit limit |
| Numerals.HexReads | scripts/config/expr.c:1002-1029 | the hexadecimal text of a number is read as that number in a hex symbol |
| Numerals.CapitalDigits | scripts/config/expr.c:1002-1029 | capital letters are digits as well |
| Numerals.PrefixReads | scripts/config/expr.c:1002-1029 | 0x and hexadecimal digits are read as their number, as a hex symbol and as a constant |
| Numerals.OctalReads | scripts/config/expr.c:1002-1029 | a constant that starts with 0 is read in base 8 |
| Numerals.StrToLLReads | scripts/config/symbol.c:107-153 | strtoll reads a decimal or hexadecimal number after spaces and a sign, limited to 64 bits |
| EliminateYn.ElimYnValue | scripts/config/expr.c:316-397 | removing constant operands changes no value under any assignment |
| EliminateYn.ElimYnReduces | scripts/config/expr.c:316-397 | the result has no constant operand, exactly the expressions without one are unchanged, and all others get strictly smaller |
| EliminateEq.CancelFactor | scripts/config/expr.c:150-219 | for one operator: there is one X with both old sides equal in value to X joined to their new sides |
| EliminateEq.ElimEqFactor | scripts/config/expr.c:221-250 | expr_eliminate_eq removes a true common factor: one operator and one X explain both sides, under every assignment |
| EliminateEq.ExprEqSound | scripts/config/expr.c:252-303 | expressions that expr_eq accepts have equal value under every assignment; the mutual recursion of the two ends |
| EliminateEq.ExprEqOptSound | scripts/config/expr.c:252-303 | the same with absent expressions, which count as y |
| EliminateEq.AbsentIsYes | scripts/config/expr.c:257-262 | an absent expression is equal to another absent one and to y, and to nothing else |
| EliminateEq.CancelLeaf | scripts/config/expr.c:150-190 | against a single operand either both sides stay as they are, or both lose an operand; y and n always stay |
| Reordering.CancelIsAll | scripts/config/expr.c:150-219 | the walk over two trees is that of every operand of one level over every operand of the other, in order |
| Reordering.AllFind | scripts/config/expr.c:150-250 | an operand that occurs on both sides is cancelled on both, if the operands of a side are apart; y and n stay |
| Reordering.ReorderedEqual | scripts/config/expr.c:252-303 | expr_eq accepts two levels with the same operands in any order |
| Reordering.SettledApart | scripts/config/expr.c:252-303 | every expression that the simplifier leaves is equal to itself for expr_eq, and its operands are apart |
| Reordering.SingleLeftAlone | scripts/config/expr.c:221-250 | two single operands are left alone by expr_eliminate_eq, even equal ones |
| Reordering.SingleFound | scripts/config/expr.c:221-250 | a single operand that is one of several on the other side is cancelled |
| Joins.JoinOrKeeps | scripts/config/expr.c:431-493 | whenever two operands of || are joined, the joined operand has the value of both under every assignment |
| Joins.JoinAndKeeps | scripts/config/expr.c:495-587 | the same for && and every rule but one |
| Joins.EqualUnequalKeepsIff | scripts/config/expr.c:539-553 | the remaining rule, a equal to b and unequal to c, keeps the value under every assignment if and only if no tristate value equals both constants although they differ |
| Joins.NumericConstantBreaksJoin | scripts/config/expr.c:539-553 | with the constant "0", which compares numerically with n, the rule does change the value |
| Joins.JoinSound | scripts/config/expr.c:431-587 | if no symbol is compared with two clashing constants, every join keeps the value, adds no comparison beyond those joins can make, and keeps negation normal form |
| Joins.JoinShape | scripts/config/expr.c:431-587 | a join yields its first operand or a single node, and never consumes a y that was left behind |
| Joins.OrRules | scripts/config/expr.c:431-493 | the rules of || that are there: a = t or a = u for two of y, m, n is a unequal to the third, and a boolean or its negation is y |
| Joins.AndRules | scripts/config/expr.c:530-587 | those of && for two comparisons: a unequal to two of y, m, n is a equal to the third, and of a = b and a unequal to c the first remains, or n for b = c |
| Joins.AndSymbolRules | scripts/config/expr.c:513-530 | those of && for a symbol and a comparison of it with y, n or m, in either order |
| EliminateDups.EliminateDups | scripts/config/expr.c:664-686 | the loop of passes and clean-ups ends and yields Dups(e) |
| EliminateDups.PassSound | scripts/config/expr.c:596-662 | a pass over a level, with its recursion into the operands, keeps the value under every assignment, unless constants clash |
| EliminateDups.PassProgress | scripts/config/expr.c:596-662 | a pass that counted a simplification leaves a constant operand, so that the following clean-up strictly shrinks the tree |
| EliminateDups.PassSettled | scripts/config/expr.c:596-662 | a pass that counts nothing changes nothing and has found no joinable pair at any level |
| EliminateDups.DupsKeepsValue | scripts/config/expr.c:664-686 | expr_eliminate_dups keeps the value under every assignment of every expression whose comparisons, with those that joins can make of them, have no clashing constants |
| DupsExact.DupsKeepsValueIff | scripts/config/expr.c:664-686 | the exact condition: all expressions over given comparisons and truth values of tristate symbols keep their value under every assignment if and only if these, with what joins can make of them, have no clashing constants |
| DupsExact.ClashChanges | scripts/config/expr.c:595-686 | whenever constants clash, also only after joins, there is an expression over the given comparisons and an assignment under which expr_eliminate_dups changes its value |
| DupsExact.DupsKeepsTriTests | scripts/config/expr.c:664-686 | with comparisons of tristate symbols against y, m and n only, the value is always kept |
| DupsExact.NumericConstantBreaksDups | scripts/config/expr.c:539-686 | a = n && a != "0" becomes a = n, which turns n into y where a is n |
| EliminateDups.DupsValue | scripts/config/expr.c:664-686 | the same relative to any set of comparisons closed under joins; no other comparison appears, and normal form is kept |
| EliminateDups.DupsSettled | scripts/config/expr.c:664-686 | at exit no two distinct operands of a level can be joined, at any depth; the result is the input or free of constant operands, and not larger |
| Transforms.DeMorganWeight | scripts/config/expr.c:798-816 | the weight that multiplies under NOT falls in both De Morgan rewrites, which re-transform their own output |
| Transforms.TransformValue | scripts/config/expr.c:694-853 | expr_transform keeps the value under every assignment |
| Transforms.TransformNormal | scripts/config/expr.c:694-853 | its result is in negation normal form: NOT only above a symbol other than y, m, n, and no =/!= test of a boolean symbol against y, m or n |
| Transforms.TransformKeepsNormal | scripts/config/expr.c:694-853 | a normal form is left exactly as it is |
| Transforms.TransformIdempotent | scripts/config/expr.c:694-853 | transforming twice is transforming once |
| Transforms.TransformMayGrow | scripts/config/expr.c:694-853 | the number of nodes can grow, so that it is no termination measure |
| Comparisons.TransCompareExact | scripts/config/expr.c:926-989 | for every expression, the inserted comparisons with y or n compute one of two two-valued readings of it |
| Comparisons.AtLeastReading | scripts/config/expr.c:926-989 | wherever the texts of the truth values tell, that reading agrees with the value at y and n, and everywhere without a NOT |
| Comparisons.TransCompareNotNo | scripts/config/expr.c:926-989 | "!= n" always yields y or n; wherever the texts of the truth values tell, y where the original is y, n where it is n, and without NOT y exactly where it is not n |
| Comparisons.TransCompareSymbol | scripts/config/expr.c:926-989 | for a symbol by itself that is needed too: the text of a string or number symbol, whose value is n, tells only if it is n |
| Comparisons.TransCompareUnderNot | scripts/config/expr.c:926-989 | above a NOT the inserted test of an expression without NOT agrees with the value if and only if the expression is not m |
| Comparisons.TransCompareMod | scripts/config/expr.c:926-989 | compared with m, a symbol is tested for m, a comparison never is m, and && and || are left as they are |
| Comparisons.TransBoolKeepsNo | scripts/config/expr.c:402-426 | on normal forms the boolean reading never raises a value and does not change whether it is n |
| Comparisons.TransBoolSameIff | scripts/config/expr.c:402-426 | all expressions over a set of tests != n keep their value if and only if none of the tested symbols holds m, in normal form or not |
| Comparisons.TransBoolNeedsNormal | scripts/config/expr.c:402-426 | outside normal form it turns n into m |
| Comparisons.ContainsFrame | scripts/config/expr.c:855-881 | a symbol the test does not find has no influence on the value |
| Comparisons.ContainsIff | scripts/config/expr.c:855-881 | the symbols found are exactly those that some part of the expression names |
| Comparisons.DependsSound | scripts/config/expr.c:883-910 | a dependency accepted by expr_depends_symbol is n whenever the symbol is n |
| Comparisons.DependsIff | scripts/config/expr.c:883-910 | a dependency is accepted if and only if one of its && operands is s, s = y, s = m or s unequal to n |
| Comparisons.SupersetSound | scripts/config/menu.c:457-470 | an item accepted by the superset test has a rewritten dependency of at most that of the menu entry, under every assignment |
| Comparisons.SubmenuImplies | scripts/config/menu.c:435-474 | in terms of the original conditions: where the item's holds, so does the menu entry's, in the two-valued reading |
| Comparisons.SubmenuSound | scripts/config/menu.c:442-470 | the whole test: an accepted item mentions the symbol, and it is n wherever the symbol is n, or it never holds without the prompt of the symbol |
| Comparisons.RewrittenValue | scripts/config/menu.c:435-437 | the chain of rewritings applied before the test computes that reading |
| Comparisons.RewrittenValueIff | scripts/config/menu.c:435-437 | for all conditions that meet given comparisons, the rewritings compute that reading if and only if the comparisons have no clashing constants |
| Reordering.CoveredIsSuperset | scripts/config/menu.c:447-470 | the superset test accepts an item whose rewritten condition has several && operands, among them all of the rewritten prompt condition |
| SymbolGraph.LocalFrame | scripts/config/symbol.c:302-444 | evaluating a symbol depends only on the symbols it reads |
| SymbolGraph.PureIsSolution | scripts/config/symbol.c:302-444 | on an acyclic graph the recursive evaluator satisfies every symbol's equation |
| SymbolGraph.SolutionUnique | scripts/config/symbol.c:302-444 | and there is only one such assignment, so the order of recursion does not matter |
| SymbolGraph.SolutionTypes | scripts/config/symbol.c:302-444 | a boolean symbol, or a tristate one without modules, never holds m; an unknown symbol holds its name |
| SymbolLaws.VisibilityLaw | scripts/config/symbol.c:175-236 | the visibility is that of the most visible prompt with a text, with m as y unless the symbol is tristate with modules |
| SymbolLaws.DependencyLaw | scripts/config/symbol.c:210-236 | the three dependencies have the values of their expressions; absent, the direct one is met and the others are n |
| SymbolLaws.LogicLaw | scripts/config/symbol.c:350-391 | the whole value rule of a boolean or tristate symbol, by the index of its first active default: user value, default, imply, select, m as y |
| SymbolLaws.BaseExists | scripts/config/symbol.c:350-391 | for every symbol there is a value before the selects that the rule speaks of |
| SymbolLaws.FirstDefaultDecides | scripts/config/symbol.c:83-93 | without a user value, imply and select the first default whose condition is not n decides, and if there is none the value is n |
| SymbolLaws.TextLaw | scripts/config/symbol.c:392-408 | a string, or a number without an active range, is the text of the user if visible, else that of the symbol of the first active default |
| SymbolLaws.RangeLaw | scripts/config/symbol.c:96-153 | the first active range is taken: below its lower bound the value is the lower bound, else above its upper bound the upper one, else it stays |
| SymbolLaws.WriteLaw | scripts/config/symbol.c:302-444 | when a symbol is written: visible, selected, implied or with an active default; for others with a default symbol; and not if it is never written |
| SymbolCalc.SymbolTable.CalcExpr | scripts/config/expr.c:1034-1103 | evaluating an expression, with the symbols it needs, yields its value in the solution |
| SymbolCalc.SymbolTable.CalcVisibility | scripts/config/symbol.c:175-236 | visible, dir_dep, rev_dep and implied get their values in the solution; no symbol under way is touched |
| SymbolCalc.SymbolTable.CalcLogic | scripts/config/symbol.c:350-391 | the new value of a boolean or tristate symbol: prompt, user value, default, imply, select, and m read as y |
| SymbolCalc.SymbolTable.CalcPlain | scripts/config/symbol.c:392-408 | the new text of a text or number symbol |
| SymbolCalc.SymbolTable.ValidateRange | scripts/config/symbol.c:107-153 | a number outside its active range becomes the bound it violates |
| SymbolCalc.SymbolTable.Recalculate | scripts/config/symbol.c:302-444 | a full evaluation leaves the symbol with its value in the solution |
| SymbolCalc.SymbolTable.CalcValue | scripts/config/symbol.c:302-444 | memoised evaluation: whichever symbols are already valid, the symbol ends up valid and with its value in the solution, and no valid symbol loses its value |
| SymbolCalc.SymbolTable.CalcAll | scripts/config/symbol.c:302-444 | symbols evaluated in any order from any set of valid symbols all get the values of the solution |
| SymbolCalc.SymbolTable.SetTristate | scripts/config/symbol.c:457-510 | a refused value leaves all state as it was; an accepted one becomes the user's value, and a change invalidates every symbol |
| SymbolCalc.SymbolTable.SetAndCalc | scripts/config/symbol.c:457-510 | setting an evaluated symbol and evaluating it again: accepted if it holds the value already or may have it; a refusal changes nothing; the value held already changes no evaluation; any other is then what the symbol holds, if and only if it is not selected against an unmet direct dependency |
| SymbolRules.LogicValueRules | scripts/config/symbol.c:350-391 | a select does not override an unmet direct dependency and otherwise is a floor; an effectively boolean symbol is never m |
| SymbolRules.ImplyAndUserBounds | scripts/config/symbol.c:353-391 | an imply raises a symbol up to its direct dependency and not above; a user value of a visible symbol is not bound by it and capped by the visibility; only selects go further |
| SymbolRules.UnmetDependencyIsNo | scripts/config/symbol.c:350-391 | with gated prompts and defaults, a direct dependency of n forces n, selected or not |
| SymbolRules.UnmetDependencyIff | scripts/config/symbol.c:353-391 | without the gate, an unmet direct dependency leaves n if and only if the symbol is selected, or its user value for a visible prompt is n, or without one it is implied or its default is n |
| SymbolRules.OthersKeep | scripts/config/symbol.c:476-510 | setting a symbol does not change any symbol that comes no later in the evaluation order |
| SymbolRules.SetInRangeTakesEffect | scripts/config/symbol.c:457-510 | a value within range is what re-evaluation yields if and only if the symbol is not selected against an unmet direct dependency |
| SymbolRules.SetGatedTakesEffect | scripts/config/symbol.c:457-510 | with gated prompts the exception cannot occur |
| SymbolLaws.MayBeSetIff | scripts/config/symbol.c:457-474 | for a visible symbol outside that exception: a value may be set if and only if evaluation then yields it and the selects do not reach the visibility |
| SymbolLaws.MayBeSetRange | scripts/config/symbol.c:457-474 | these are the values between the floor and the visibility, without m for a symbol with two values |
| SymbolRules.SetSameKeepsIff | scripts/config/symbol.c:476-510 | setting the value a symbol already has skips the range test; the value survives re-evaluation if and only if the symbol is invisible, the value is not above the visibility, or equals the select floor |
| SymbolRules.SetSameMayLower | scripts/config/symbol.c:476-510 | a concrete graph in which that call is accepted and leaves another value |
| SymbolRules.ValueInRange | scripts/config/symbol.c:123-153 | a number or hex symbol lies between the bounds of its active range, if they are ordered and of its own base |
| SymbolRules.BoundedBetween | scripts/config/symbol.c:123-153 | the clamped text lies between the bounds |
| SymbolCheck.Checker.CheckAll | scripts/config/symbol.c:1184-1216 | with recursive_is_error the check of all symbols reports an error exactly if the dependency relation has a cycle, and otherwise orders the symbols; without it nothing is reported; no symbol is expanded twice |
| SymbolCheck.Checker.CheckDeps | scripts/config/symbol.c:1184-1216 | one call: a reported symbol lies on a cycle, and if nothing was ever found its edges lead only to symbols finished before it; the CHECK flags are back as they were |
| SymbolCheck.Checker.CheckSymDeps | scripts/config/symbol.c:1099-1145 | the same for the direct, reverse and implied dependency and the properties of a symbol |
| SymbolCheck.Checker.CheckProps | scripts/config/symbol.c:1121-1142 | the same for the conditions and default values of the properties, without range bounds |
| SymbolCheck.Checker.CheckExprDeps | scripts/config/symbol.c:1064-1096 | the same for the symbols of an expression |
| SymbolEdges.FollowedIff | scripts/config/symbol.c:1099-1145 | the links that the check follows, by the symbols found in expressions: the three dependencies, the conditions of properties that are no choice value, select or imply, and the values of defaults; no others |
| SymbolEdges.ReadIff | scripts/config/symbol.c:302-444 | an evaluation reads these and the bounds of ranges, and nothing else |
| SymbolEdges.SelectsAreNoDependencies | scripts/config/symbol.c:1121-1127 | without its selects and implies a graph has the same links, and so the same answer of the check |
| SymbolEdges.SelectConditionNoCycle | scripts/config/symbol.c:1121-1127 | a select under a condition that depends on the selecting symbol is no cycle |
| Paths.RankedHasNoCycle | scripts/config/symbol.c:1184-1216 | an order along which all links fall excludes cycles |
| Paths.OrderIffNoCycle | scripts/config/symbol.c:1184-1216 | a finite graph has such an order if and only if it has no cycle |
| Paths.AddedCycleIff | scripts/config/symbol.c:1124-1139 | links added to a graph without a cycle make one if and only if one of them is led back over |
| SymbolCheck.EvaluationOrderIff | scripts/config/symbol.c:302-444 | the evaluation of all symbols has an order if and only if what they read, range bounds included, has no cycle |
| SymbolCheck.CheckedIsRanked | scripts/config/symbol.c:1064-1216 | on a graph that passed the check the evaluation has an order if and only if no bound of a range leads back, by what is read, to the symbol it bounds |
| SymbolCheck.RangeCycleUnseen | scripts/config/symbol.c:1124-1139 | the check does not follow range bounds: a cycle through one is a cycle of the evaluation and not found |
| Choices.Member.CalcVisibility | scripts/config/symbol.c:184-207 | the visibility of a choice value: its prompts within the choice, and n under a choice at m if it needs y |
| Choices.Member.VisibleUnderYes | scripts/config/symbol.c:184-207 | under a choice at y a member is visible at y or not at all |
| Choices.Member.UnderYesIff | scripts/config/symbol.c:184-207 | under y it is visible exactly if a prompt is y, or m for a member that is not tristate |
| Choices.Member.UnderModIff | scripts/config/symbol.c:184-207 | under m a tristate member is visible at m exactly if a prompt is not n |
| Choices.Choice.ChoiceDefault | scripts/config/symbol.c:244-268 | without a visible user pick: the first visible default, otherwise the first visible member |
| Choices.Choice.PickUnique | scripts/config/symbol.c:244-300 | the order of precedence leaves no choice: two picks that meet it are equal (Choice.CalcChoice finds one) |
| Choices.Choice.CalcChoice | scripts/config/symbol.c:270-300 | the pick is the user's if visible, else the first visible default, else the first visible member; without one the choice is n |
| Choices.Choice.Evaluate | scripts/config/symbol.c:353-391 | a choice at y gives exactly one member y and all others n; below y no member is y |
| Choices.Choice.MembersSettled | scripts/config/symbol.c:353-391 | the same from the settled visibilities: exactly one y, or none if the pick is no member |
| Menus.FinalizeNode | scripts/config/menu.c:285-563 | in-place restructuring of the linked tree: for every outcome of the tests the links form the tree Finalize describes, and the nodes finalized are listed in order |
| Menus.FinalizePre | scripts/config/menu.c:285-563 | the pre-order sequence of the nodes does not change |
| Menus.VisitsOnce | scripts/config/menu.c:285-563 | every node of the tree is finalized exactly once, although siblings move while the loop runs |
| Menus.FinalizeDistinct | scripts/config/menu.c:285-563 | no node occurs twice in the new tree and none is lost |
| Menus.FinalizeFlat | scripts/config/menu.c:554-563 | below a finalized node no entry without a prompt has children left |
| Menus.AdoptMaximal | scripts/config/menu.c:439-475 | a submenu takes accepted siblings only and stops at the first refused one |
| Menus.WhoAdopts | scripts/config/menu.c:294-431 | only a symbol without children takes siblings, and it does if the first is accepted |
| MenuTree.SubmenuBelongs | scripts/config/menu.c:435-481 | with the submenu test of the source: whatever ends up directly below a symbol without children of its own belongs there, or moved up out of a node without a prompt that does; what belongs mentions the symbol, and is n wherever the symbol is n or never holds without its prompt |
| MenuTree.SubmenuStops | scripts/config/menu.c:442-475 | the first sibling left behind is refused by that test |
| MenuTree.LeftBehind | scripts/config/menu.c:442-475 | the first sibling left behind has no && operand that needs the symbol, and if it mentions the symbol it does not cover the condition of its prompt |
| Menus.FinalizeKids | scripts/config/menu.c:410-411 | the recursion over the children rebuilds their list and visits as FinalizeAll says |
| Menus.MakeSubmenu | scripts/config/menu.c:439-481 | the accepted siblings hang below the entry, and the rest of the siblings follows it |
| Menus.AdoptSiblings | scripts/config/menu.c:440-475 | the loop over the siblings: which are adopted, where it stops, which was the last |
| Menus.CutAfter | scripts/config/menu.c:477-481 | the adopted run of siblings becomes the child list |
| Menus.FlattenKids | scripts/config/menu.c:485-564 | children of entries without a prompt move up behind their parent |
| Menus.MoveUp | scripts/config/menu.c:554-563 | one list of children is spliced in between its parent and the next sibling |
| MenuDeps.RewriteMValue | scripts/config/menu.c:83-106 | with modules a bare m keeps its value, without them it reads n |
| MenuDeps.PropagateValue | scripts/config/menu.c:335-339 | a propagated dependency is the conjunction of the parent's and the own condition, in normal form |
| MenuDeps.PropagateValueIff | scripts/config/menu.c:335-339 | for all conditions over given comparisons and truth values propagation is conjunction if and only if these have no clashing constants |
| MenuTree.DependencyOnLine | scripts/config/menu.c:305-339 | over the whole tree: the dependency of every node is the least of the own conditions on its way down, starting from the top or from the symbol of the last choice above it |
| MenuDeps.PropCondBelow | scripts/config/menu.c:379-385 | a property's condition is never above its node's dependency; the boolean reading does not change whether it is n |
| MenuDeps.PropCondTristate | scripts/config/menu.c:379-385 | in a tristate symbol the condition of a property is the conjunction itself |
| MenuDeps.BooleanVisibility | scripts/config/menu.c:379-385 | for a boolean symbol the boolean reading of a prompt condition gives the same visibility |
| MenuDeps.BooleanReadingSameIff | scripts/config/menu.c:379-385 | the boolean reading of all conditions over some comparisons equals the conditions if and only if no symbol that they compare with n holds m |
| MenuDeps.BooleanReadingDiffers | scripts/config/menu.c:379-394 | for a single test: it asks for m instead of y exactly while the symbol is m |
| MenuDeps.BooleanReverseIff | scripts/config/menu.c:391-399 | a select in a boolean symbol asks for the same under the boolean reading if and only if the symbol is n, y is asked for already, or the readings agree |
| MenuDeps.AddReverseValue | scripts/config/menu.c:391-399 | after a select the reverse dependency is the old one or the selecting symbol under its condition |
| MenuDeps.DirectDepCovers | scripts/config/menu.c:483 | the direct dependency is never below a node's dependency |
| MenuDeps.DirectDepBestIff | scripts/config/menu.c:483 | it is the best of the nodes' dependencies if and only if no node lacks one, all do, or the others reach y |
| MenuDeps.PropGateIff | scripts/config/menu.c:335-385 | the condition of a property is gated by the direct dependency if and only if that is met, its node has a dependency, or its own condition is n |
| MenuDeps.MenuGates | scripts/config/menu.c:335-385 | so the prompts and defaults of a symbol are gated if and only if that holds of each of them |
| MenuDeps.MixedNodesNotGated | scripts/config/menu.c:483 | a symbol at a node with the dependency n and at one without: its prompt stays visible and the user value y is its value |
| MenuDeps.SetExceptionArises | scripts/config/symbol.c:457-510 | if it is selected up to m, setting it to y is accepted and it stays n |
| MenuDeps.ChoiceFloor | scripts/config/menu.c:587-591 | a visible choice that is not optional is selected by its own visibility, up to m |
| Blocks.ZeroCountLeast | scripts/mkhash.c:574-600 | the padding uses the least number of zero bytes that completes a block |
| Blocks.EndShort | scripts/mkhash.c:346-385 | if the padding fits, hashing the padded message is hashing one block more |
| Blocks.EndLong | scripts/mkhash.c:574-600 | otherwise two blocks more, the second one starting with zeros |
| Blocks.PendingAfterFill | scripts/mkhash.c:643-647 | filling up the block under way hashes exactly the blocks up to there |
| Blocks.HashBlocksStep | scripts/mkhash.c:649-654 | one more complete block is one more compression |
| Blocks.BeBytesValue | scripts/mkhash.c:98-116 | the bytes written, most significant first, have the value of the number |
| Blocks.LeBytesValue | scripts/mkhash.c:370-378 | the bytes written, least significant first, have the value of the number |
| Blocks.EightLeBytes | scripts/mkhash.c:370-378 | two 32-bit halves written in turn are the 64-bit number |
| Sha256Core.ScheduleAt | scripts/mkhash.c:503-508 | the schedule starts with the block and every further word follows from those before |
| Sha256Core.SlotIndex | scripts/mkhash.c:495-501 | the place of each working variable after j rounds is the index (64 + k - j) % 8 |
| Sha256Core.ViewShift | scripts/mkhash.c:489-501 | two writes to the array are a shift of all eight variables |
| Sha256Core.RndR | scripts/mkhash.c:489-501 | one round in place is one round on the shifted variables |
| Sha256Core.MixAll | scripts/mkhash.c:513-550 | 64 rounds with the schedule extended sixteen words at a time are 64 rounds over the whole schedule |
| Sha256Core.Extend | scripts/mkhash.c:534-549 | sixteen more words of the schedule, none of the earlier ones changed |
| Sha256Core.Transform | scripts/mkhash.c:459-563 | SHA256_Transform computes the source's rounds over the precomputed schedule and adds the state |
| Sha256Core.SameCompress | scripts/mkhash.c:450-563 | for every state and block that is the computation of section 6.2.2 of FIPS 180-4 |
| Sha256.SourceIsStandard | scripts/mkhash.c:450-452 | the source's formulas for Ch and Maj and its grouping of additions compute the standard's values |
| Sha256Roots.FirstPrimes | scripts/mkhash.c:462-479 | the table of primes holds the primes up to 311 in order, 64 of them |
| Sha256Roots.ConstantsAreCubeRoots | scripts/mkhash.c:462-479 | section 4.2.2 of FIPS 180-4: every word of K is the first 32 bits of the fractional part of the cube root of its prime |
| Sha256Roots.InitialIsSquareRoots | scripts/mkhash.c:609-617 | section 5.3.3: every initial word likewise for the square roots of the first eight primes |
| Sha256.Be32DecValue | scripts/mkhash.c:118-132 | a word has the value of its four bytes, the first being the most significant |
| Sha256.EncodedValue | scripts/mkhash.c:98-107 | the bytes written have the value of the word |
| Sha256.DecodesEncoded | scripts/mkhash.c:98-132 | reading back the four bytes of a word gives the word |
| Sha256Context.Context.Init | scripts/mkhash.c:603-618 | the context stands for the empty message |
| Sha256Context.Context.Update | scripts/mkhash.c:622-658 | the state folds all complete blocks, the buffer holds the remaining bytes, and the count is the bit length modulo 2^64 |
| Sha256Context.Context.TakeBlocks | scripts/mkhash.c:649-654 | the loop over complete blocks |
| Sha256Context.Context.PadOut | scripts/mkhash.c:574-600 | the state becomes the hash of the padded message |
| Sha256Context.Context.Final | scripts/mkhash.c:665-674 | the bytes of that hash are returned and the context is cleared |
| Sha256Context.Be64EncAt | scripts/mkhash.c:110-116 | the eight bytes of the bit count, most significant first; nothing else changes |
| Sha256Context.CountTail | scripts/mkhash.c:628-629 | the number of buffered bytes taken from the bit count is the message length modulo 64, also after the count wrapped |
| Sha256Hash.Sha256OfChunks | scripts/mkhash.c:715-728 | for every cut of every message into chunks, the result is the digest of FIPS 180-4 |
| Sha256Example.DigestOfAbc | scripts/mkhash.c:440-560 | the digest of "abc" is the published one, which fixes all constants, rotations and byte orders |
| Sha256Hash.ExactLength | scripts/mkhash.c:594-595 | below 2^61 bytes the length field is the exact bit length |
| Md5Context.Transform | scripts/mkhash.c:204-289 | the unrolled steps with renamed registers are 64 steps with moving registers, plus the old registers |
| Md5.SourceSteps | scripts/mkhash.c:151-163 | the source's F, G, H2 and grouping compute the operations of section 3.4 of RFC 1321 |
| Md5.Le32DecValue | scripts/mkhash.c:165-183 | a word has the value of its four bytes, the first being the least significant |
| Md5.EncodedValue | scripts/mkhash.c:380-395 | the bytes written have the value of the word |
| Md5.DecodesEncoded | scripts/mkhash.c:165-183 | reading back the four bytes of a word gives the word |
| Md5Context.SameDigest | scripts/mkhash.c:151-163 | operations of equal results give equal digests |
| Md5Context.Context.AddCount | scripts/mkhash.c:316-318 | the 29-bit lo, the carry test and the 32-bit hi keep encoding the byte count modulo 2^61 |
| Md5Context.CountIsBits | scripts/mkhash.c:316-318 | lo << 3 and hi are the two halves of the 64-bit bit length |
| Md5Context.Context.Hash | scripts/mkhash.c:311-344 | the registers fold all complete blocks, the buffer holds the remaining bytes, the counters the length |
| Md5Context.Context.Body | scripts/mkhash.c:189-297 | all complete blocks given are hashed in order |
| Md5Context.Context.End | scripts/mkhash.c:346-396 | the digest of the padded message is returned and the context is cleared |
| Md5.Md5OfChunks | scripts/mkhash.c:699-713 | for every cut of every message into chunks, the result is the digest of RFC 1321 |
| Md5Example.DigestOfAbc | scripts/mkhash.c:160-293 | the digest of "abc" is that of the test suite in RFC 1321, which fixes all constants, shifts and the order of the words |
| PreprocessText.CloseFinds | scripts/config/preprocess.c:472-485 | the place found is, and is the only, ")" that closes the parenthesis opened before: all prefixes stay balanced up to it |
| PreprocessText.SplitJoin | scripts/config/preprocess.c:384-402 | the tokens of a clause joined by commas are the clause |
| PreprocessText.SplitTokens | scripts/config/preprocess.c:384-402 | no token holds a comma outside parentheses |
| PreprocessText.StrtoulSpell | scripts/config/preprocess.c:362-363 | a number written out is read back |
| PreprocessText.ShellTextIff | scripts/config/preprocess.c:150-179 | the text of a shell call is the output, as far as the buffer holds it, without the newlines at its end and with spaces for the others |
| PreprocessSpec.LeftFalls | scripts/config/preprocess.c:260-277 | each counted expansion uses up one of finitely many |
| Preprocess.Expander.ExpandString | scripts/config/preprocess.c:498-540 | expansion ends for every text and every variables, self-referring ones included, with the described text or error, and on success every exp_count is back |
| Preprocess.Expander.ExpandOneToken | scripts/config/preprocess.c:562-578 | a token is expanded up to a character that is no part of one, and what is left starts there |
| Preprocess.Expander.ExpandDollar | scripts/config/preprocess.c:456-491 | the same for what follows a "$"; a missing ")" is an error |
| Preprocess.Expander.EvalClause | scripts/config/preprocess.c:346-442 | the same for a reference: argument number, variable, built-in function, environment, or nothing |
| Preprocess.Expander.SplitClause | scripts/config/preprocess.c:368-402 | the tokens of a clause, or the error exactly if there are more than sixteen |
| Preprocess.Expander.VariableExpand | scripts/config/preprocess.c:251-277 | the value of a variable, with both recursion errors; exp_count is counted up and down again |
| Preprocess.Expander.FunctionExpand | scripts/config/preprocess.c:202-224 | the table of built-in functions and the checks of their numbers of arguments |
| Preprocess.Expander.RunFunction | scripts/config/preprocess.c:112-187 | the six functions one by one |
| Preprocess.Expander.CleanOutput | scripts/config/preprocess.c:141-179 | the loops over the buffer yield the cleaned-up output |
| Preprocess.Expander.FindClose | scripts/config/preprocess.c:472-485 | the scan finds the closing parenthesis |
| PreprocessLaws.PlainText | scripts/config/preprocess.c:462-470 | a text in which no "$(" starts expands to itself |
| PreprocessLaws.ExpandConcat | scripts/config/preprocess.c:498-540 | a text that expands to its end, not ending in "$", expands the same before any other text |
| PreprocessLaws.ExpandSmaller | scripts/config/preprocess.c:251-277 | an expansion that succeeds gives the same text under all smaller counts: the counts stop expansions and never change a text |
| PreprocessLaws.ArgumentByNumber | scripts/config/preprocess.c:357-366 | $(n) is the n-th argument |
| PreprocessLaws.ReferenceValue | scripts/config/preprocess.c:416-433 | $(name) is the value of the variable, built-in function or environment variable |
| PreprocessCalls.CallExpands | scripts/config/preprocess.c:352-440 | a written call with plain arguments expands to what the name yields for them, before the expansion of the rest |
| PreprocessCalls.ShellLaw | scripts/config/preprocess.c:141-179 | $(shell,cmd) expands to the cleaned-up output of cmd before the expansion of the rest; without an output the program ends |
| PreprocessCalls.ErrorIfLaw | scripts/config/preprocess.c:112-118 | $(error-if,c,t) ends the program if and only if c is y, and is nothing otherwise |
| PreprocessCalls.WarningIfLaw | scripts/config/preprocess.c:181-187 | $(warning-if,c,t) is nothing |
| PreprocessCalls.InfoLaw | scripts/config/preprocess.c:125-130 | $(info,t) is nothing |
| PreprocessCalls.FileNameLaw | scripts/config/preprocess.c:120-123 | $(filename) is the name of the file |
| PreprocessCalls.LineNumberLaw | scripts/config/preprocess.c:132-139 | $(lineno) is the number of the line |
| PreprocessCalls.ArityLaw | scripts/config/preprocess.c:202-224 | a function called with another number of arguments than it takes ends the program |
| PreprocessCalls.TooManyLaw | scripts/config/preprocess.c:375-402 | a call with sixteen or more arguments ends the program |
| PreprocessCalls.FunctionLaw | scripts/config/preprocess.c:251-278 | a function of value $(k) yields its k-th argument |
| PreprocessCalls.DepthLaw | scripts/config/preprocess.c:260-265 | a variable expanded for more than the 1001st time within itself ends the program, and without arguments already at the second |
| PreprocessCalls.SimpleLaw | scripts/config/preprocess.c:251-278 | a simply expanded variable yields its text verbatim |
| PreprocessCalls.EnvironmentLaw | scripts/config/preprocess.c:414-433 | any other name is looked up in the environment, and is nothing if absent there |
| PreprocessCalls.TokenLaw | scripts/config/preprocess.c:562-578 | a word of letters, digits and the four other token characters is one token, and ends before any other character |
| PreprocessLaws.CycleFails | scripts/config/preprocess.c:256-271 | a variable that refers to itself eventually, through any number of variables, nested references and arguments, cannot be expanded, with any arguments and from any counts |
| PreprocessLaws.SelfReferenceFails | scripts/config/preprocess.c:256-271 | so a variable whose own value refers to it, at any depth of nested references, cannot be expanded |
| ConfData.WriteRead | scripts/config/confdata.c:474-506 | a written value read back is the same if and only if it holds no newline; otherwise the line is rejected |
| ConfData.ParseEscape | scripts/config/confdata.c:253-269 | unescaping inverts escaping for every text |
| ConfData.EscapeForm | scripts/config/confdata.c:649-689 | a written value has quotes around it and a backslash before each quote and backslash, and nothing else is added |
| ConfData.ReadMarked | scripts/config/confdata.c:253-280 | a line that no escaping produced: a backslash stands for the character after it, and nothing after the closing quote counts |
| ConfData.EscapedSize | scripts/config/confdata.c:656-668 | the counting loop finds exactly the size of the text and its terminator |
| ConfData.EscapeStringValue | scripts/config/confdata.c:649-689 | the escaped text fills the allocated buffer exactly |
| ConfData.UnescapeInPlace | scripts/config/confdata.c:258-268 | the in-place loop leaves the value behind a terminator, or finds that the closing quote is missing |
| ConfData.DropChar | scripts/config/confdata.c:263 | the memmove drops one character and keeps what is before |
| ConfData.SetStringValue | scripts/config/confdata.c:253-280 | a string value is set, left alone without an opening quote, or rejected |
| ConfData.PassOver | scripts/config/confdata.c:258 | characters that are neither quote nor backslash stay where they are |

## Left out

- The front ends, the lexer and parser tables, help texts, searches, relation printing: the model starts from expressions, symbols and menu nodes already built.
- File access, the shell, the environment and printing: their results are parameters (`PreprocessSpec.Config`), and the chunks a file is read in are arbitrary.
- Allocation and release of memory, warnings, and the SYMBOL_CHANGED and MENU_CHANGED bookkeeping.
- Expressions of the kinds E_LIST and E_RANGE: the members of a choice and the bounds of a range are fields of their own.
- Expression trees are values: the model does not capture that the source rewrites nodes in place or shares subtrees. `EliminateDups` walks a level as a sequence of operands with two positions, where the source walks two pointers; the count of simplifications is a result instead of a global.
- EliminateDups.DupsKeepsValue: requires that no tristate symbol is compared with two constants of which one value equals both, such as n and "0", because the rule of `Joins.EqualUnequalKeepsIff` then changes values; `DupsExact.DupsKeepsValueIff` shows the condition to be exact for the expressions over given comparisons, not for each expression by itself. The lemmas built on it require the same.
- Choices are not part of the symbol graph and of the cycle search; `Choices` models one evaluation of a choice, not the clearing of its user flag over repeated ones.
- The value of the modules symbol is fixed before other symbols are evaluated, and SymbolCalc.SymbolTable.SetTristate is for symbols other than it and than choice values.
- SymbolCalc.SymbolTable.SetTristate: states the user's value and the invalidation; what re-evaluation then yields is in `SymbolCalc.SymbolTable.SetAndCalc` and `SymbolRules`.
- sym_set_string_value and the toggling of a symbol are not modelled.
- Menus.FinalizeNode: covers the links only; the conditions are in `MenuDeps`, and the tests that decide about submenus are in `Comparisons`. `MenuTree` puts them together on values: that the fields of the nodes are overwritten while the links change is not captured. The types and choice membership that menu_finalize sets are not modelled.
- MenuTree.DependencyOnLine: is about dependencies as they are propagated; the test of the choice for y that a choice value which is not tristate gets afterwards is not part of them.
- The unrolled rounds of both hashes are written as loops; the words of a little-endian machine that MD5 reads directly are put together from bytes. The message of a hash is at most as long as memory, but the model sets no bound.
- Sha256Context.Context.Update: the length of one piece is unbounded here and a 64-bit number in the source; the count is kept modulo 2^64 in both.
- The strings of the expander, the output of commands and the values of `.config` hold no NUL; one fread gets as much output as fits. Letters and digits are those of ASCII, as in the C locale.
- Preprocess.Expander.ExpandString: after an error nothing is said about exp_count, since the program ends.
- variable_add, with its simple, recursive and appending assignments, is not modelled: the variables are given.
- The reading of a whole `.config` file is not modelled, only the rest of a line after NAME= and the values of string symbols.
- Firmware headers, downloads, packing and the other scripts of the repository.
