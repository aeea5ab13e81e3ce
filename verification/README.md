# A model of the Kconfig engine

This project models the engine that decides what a configuration means: the C implementation in
`support/kconfig`, and the second implementation `support/scripts/kconfiglib.py`. Everything is proved
by Dafny 4.11; `dafny verify dfyconfig.toml` checks the whole project.

## What is modelled

**Expressions** (`Tristates`, `Exprs`, `Simplify`, `Equality`, `Duplicates`, `DuplicatesOnMod`, `Submenus`,
`Visibility`). Dependency expressions are three-valued: n, m and y are 0, 1 and 2, AND and OR are minimum and
maximum, and a negation is 2 - x. Their meaning is a one-page evaluator, and the rewrites of `expr.c` are
measured against it. `ExprHeaps` and `EqualityHeaps` are the same rewrites on the nodes they overwrite and
reuse: each method takes the linked nodes of an expression and leaves them representing what the function of
the same name yields. Slots (`struct expr **`) are passed as their contents and returned. In
`expr_eliminate_dups` both slots lie in one tree and may be nested; there a slot is a path into a tree.

**Values** (`Numbers`, `Configuration`, `SymbolTables`, `Choices`). `Configuration` says what a configuration
means without caches and without an order of evaluation: the one assignment of values in which every value
follows from the others. `SymbolTable` is the memoised evaluator of `symbol.c` with its SYMBOL_VALID flags, and
refines it. `Choices` adds a boolean choice: the choice symbol and its members calculate each other.

**Checks and tables** (`Cycles`, `SymbolHashes`). The search for recursive dependencies with its flags and its
linked stack, and the chained table of symbols.

**Files** (`Strings`, `ConfigFiles`, `Defconfigs`, `Stamps`). Escaping and in-place unescaping, the lines of
`.config`, the minimal defconfig, and the stamps that `conf_split_config` touches.

**Menus** (`MenuTrees`, `MenuHeaps`, `MenuEffects`). `MenuTrees` is what `menu_finalize` makes of a tree of entries,
as a function; `MenuHeaps` relinks the entries' `next`, `list` and `parent` pointers in place and refines it.
`MenuEffects` is what finalization does to the symbols' reverse and direct dependencies. The walk without a stack is
that of `conf_write` and `conf_write_defconfig`.

**Kconfiglib** (`PyExprs`, `PyConfiguration`, `PyModels`, `PyChoices`, `PyDependents`, `PyCaches`, `PyParser`,
`PyPrinter`, `PyTokens`). The n-ary expressions and their constructors, the values `get_value` computes, what they
mean for the items of a choice, the caches with their selective invalidation, and the tokenizer, parser and printer
of expressions.

Files, directories, the environment and messages are not modelled: text comes in and goes out as lines and
strings. `struct symbol *` is a value of type `Symbol`, and what a symbol's fields hold is a function on symbols.

## What the code does that its users might not expect

Each of these is stated by a member of the table below.

- `expr_eliminate_dups` can turn m into n (`DecidingModChangesValue`); it never changes a value that is y or n, and
  nothing at all unless some operand contradicts what it is compared with (`UndecidedKeepsValue`,
  `EliminateDupsChangesExactly`).
- `expr_trans_bool` can make an invisible prompt visible where it rewrites below an odd number of negations
  (`TransBoolBelowOddNegations`), but never a visible one invisible (`TransBoolLoosens`); `menu_finalize` only
  applies it in negation normal form.
- A hex symbol pushed to a negative bound of its range is not in its range (`ClampHoldsHex`).
- A string symbol whose default names a bool or tristate symbol gets "n" from the C implementation whatever that
  symbol's value is, and its value from Kconfiglib (`LogicalDefaultOfString`).
- `savedefconfig` loses the value of a string symbol that is selected as far as it is visible
  (`SelectedStringIsLost`).
- `savedefconfig` also loses a number that was held in a range with its bounds the wrong way round
  (`InvertedRangeExample`), and it writes the line of a number whose default is moved by its range to the same value
  (`EveryLineIsNeeded`).
- The stamp of an int or hex symbol with a value that is no number is touched at every build (`StampsAreExact`).
- `sym_check_deps` returns null from every outermost call, so the parser's error counter is never raised by a
  recursive dependency; only the printed report shows it (`Cycles.Checker.CheckAll`).
- The search for recursive dependencies does not look at the bounds of ranges (`SearchMissesBounds`), so nothing is
  reported when two symbols are each the bound of the other's range (`CircularBoundsEscape`).

- The direct dependency of a symbol with several entries ignores the entries that have no condition (`DirDepMeans`).
- In Kconfiglib, `unset_user_value` on one item of a choice also forgets what was set through the other items
  (`UnsettingRestoresExactly`).

Two comments in the repository say something else than the code. The comment in `expr_trans_bool` speaks of a bool
symbol, while the code rewrites `FOO != n` for tristate symbols. The comment in `conf_write_defconfig` says that
unchangeable symbols can be skipped, which is right for bool and tristate symbols only. The code is followed.

## Model

| member | source | states |
|---|---|---|
| `Simplify.EliminateYnKeepsValue` | support/kconfig/expr.c:231-312 | removing y and n below AND and OR keeps the three-valued value under every valuation |
| `Simplify.EliminateYnShrinks` | support/kconfig/expr.c:231-312 | the result has no y or n left below AND or OR, and is strictly smaller unless there was nothing to remove |
| `Simplify.TransformKeepsValue` | support/kconfig/expr.c:636-771 | expr_transform keeps the three-valued value under every valuation |
| `Simplify.TransformIsNnf` | support/kconfig/expr.c:636-771 | it ends in negation normal form: every negation stands directly on a symbol other than y, m, n, and nowhere is a bool symbol left in a comparison with y, m or n |
| `Simplify.PushingNotLosesWeight` | support/kconfig/expr.c:711-732 | why it terminates: pushing a negation inwards adds nodes but loses weight when a negation doubles what it covers |
| `Simplify.TransformIdempotent` | support/kconfig/expr.c:636-771 | a second pass changes nothing |
| `Simplify.TransBoolLoosens` | support/kconfig/expr.c:317-341 | for any expression, what expr_trans_bool yields is m or the value from before, so what is not n never becomes n |
| `Simplify.TransBoolRewritesAll` | support/kconfig/expr.c:317-341 | afterwards no tristate symbol is left in a comparison != n below &&, or, and negations, and an expression without any is not changed |
| `Simplify.TransBoolKeepsValue` | support/kconfig/expr.c:317-341 | while no tristate symbol is m, every value is kept |
| `Simplify.LosesValueExactly` | support/kconfig/expr.c:317-341 | when a value y or n is lost, told from the expression and the values of its symbols, both ways |
| `Simplify.TransBoolKeepsNotNoExactly` | support/kconfig/expr.c:317-341 | "not n" is kept if and only if the expression does not lose the value n in this sense |
| `Simplify.ParityProtects` | support/kconfig/expr.c:317-341 | if all that is rewritten stands below an even number of negations, n is never lost; below an odd number, y is not |
| `Simplify.TransBoolKeepsNotNo` | support/kconfig/expr.c:317-341 | in negation normal form in particular, being n is kept both ways |
| `Simplify.TransBoolKeepsPromotedVisibility` | support/kconfig/expr.c:317-341 | hence the promoted visibility of a non-tristate symbol is the same before and after |
| `ExprHeaps.Copy` | support/kconfig/expr.c:62-97 | expr_copy builds the same expression from nodes that did not exist before |
| `ExprHeaps.EliminateYnInPlace` | support/kconfig/expr.c:231-312 | working on the nodes, the root stays in place and then represents exactly EliminateYn of what it represented; only nodes of the expression are touched, and none is used twice |
| `ExprHeaps.TransBoolInPlace` | support/kconfig/expr.c:317-341 | the same for expr_trans_bool |
| `ExprHeaps.TransformInPlace` | support/kconfig/expr.c:636-771 | the same for expr_transform, which passes nodes on, drops them, and allocates new ones |
| `ExprHeaps.PushNot` | support/kconfig/expr.c:711-732 | De Morgan's step on the nodes: the operator's node becomes the first negation, the second is new |
| `EqualityHeaps.EliminatePairsInPlace` | support/kconfig/expr.c:130-162 | __expr_eliminate_eq assigning to the slots of two expressions in turn leaves in them exactly what EliminatePairs yields |
| `EqualityHeaps.EliminateEqInPlace` | support/kconfig/expr.c:164-184 | expr_eliminate_eq on nodes refines EliminateEq, whatever operators the two roots have |
| `EqualityHeaps.ExprEqOnCopies` | support/kconfig/expr.c:189-229 | expr_eq answers ExprEq and, cancelling only in copies, changes nothing |
| `Equality.EliminatePairsCancels` | support/kconfig/expr.c:130-162 | there is one value c such that either original is its remainder combined with c |
| `Equality.CancellingReflectsOrder` | support/kconfig/expr.c:130-162 | so if the remainders are ordered, the originals are |
| `Equality.ExprEqSound` | support/kconfig/expr.c:189-229 | expressions that expr_eq equates have the same three-valued value under every well-formed valuation |
| `Equality.ExprEqExact` | support/kconfig/expr.c:189-229 | without y and n below AND and OR, expr_eq holds if and only if the expressions are equal up to associativity and commutativity |
| `Equality.ConstantsNeedNotMatch` | support/kconfig/expr.c:189-229 | with a constant it can equate more: n && a and n && b |
| `Equality.ReducedByYn` | support/kconfig/expr.c:231-312 | after cancelling, an expression reduces to the unit exactly when none of its operands is left |
| `Equality.EliminatedToYesIsImplied` | support/kconfig/expr.c:164-184 | if the second expression has reduced to y, the first original is at most the second under every valuation |
| `Equality.EliminatedToYesExactly` | support/kconfig/expr.c:164-184 | without y and n, the second reduces to y if and only if the first is a conjunction that has all its operands, as often as they occur |
| `Equality.ExtractEqTopSplits` | support/kconfig/expr.c:826-875 | what the two have in common, combined with what is left of each, is the value of the original |
| `Equality.ExtractedExactly` | support/kconfig/expr.c:826-875 | nothing is left of the first expression if and only if the second has all its operands |
| `Duplicates.JoinKeepsValue` | support/kconfig/expr.c:346-502 | every rule of expr_join_or and expr_join_and keeps the three-valued value |
| `Duplicates.JoinedExactly` | support/kconfig/expr.c:346-502 | two operands are joined if and only if expr_eq equates them, they are a bool symbol and its negation below or, or comparisons of one tristate symbol with values of which one rules out or contains the other |
| `Duplicates.Dups1KeepsValue` | support/kconfig/expr.c:504-554 | expr_eliminate_dups1 keeps the three-valued value of the tree both slots lie in, although the slots may be nested or the same |
| `Duplicates.Dups2Refines` | support/kconfig/expr.c:556-610 | expr_eliminate_dups2 keeps every value that is y or n |
| `Duplicates.ContradictionDecides` | support/kconfig/expr.c:574-608 | a decision gives the tree the value that decides its operator, and so changes the value if and only if that was m |
| `Duplicates.Dups2OperandDecides` | support/kconfig/expr.c:574-608 | an operand that contradicts what it is compared with leaves the tree decided |
| `Duplicates.Dups2KeepsDecided` | support/kconfig/expr.c:556-610 | a tree that is decided stays so through a whole call |
| `Duplicates.QuietIsIdle` | support/kconfig/expr.c:556-610 | a call counts no change if and only if no operand of the tree it is given contradicts what it is compared with, at any depth |
| `Duplicates.DecidedUnlessQuiet` | support/kconfig/expr.c:556-610 | when the operands are quiet in themselves, a call that counts a change leaves the tree decided |
| `Duplicates.Dups2ChangesExactly` | support/kconfig/expr.c:556-610 | for such a tree the value changes if and only if it is m and two operands contradict each other |
| `Duplicates.Pass` | support/kconfig/expr.c:612-634 | a round that counts a change leaves a constant behind for expr_eliminate_yn, and one that counts none changes nothing |
| `Duplicates.EliminateDuplicates` | support/kconfig/expr.c:612-634 | the loop with its change counter ends, and yields EliminateDups |
| `Duplicates.EliminateDupsRefines` | support/kconfig/expr.c:612-634 | whatever value is y or n before is the same after, even when single operands are m |
| `Duplicates.EliminateDupsKeepsValue` | support/kconfig/expr.c:612-634 | without an m-valued operand the value is kept exactly |
| `Duplicates.EliminateDupsChangesExactly` | support/kconfig/expr.c:612-634 | the same for the whole loop: the value changes if and only if it is m and in some round two operands of the root contradict each other |
| `Duplicates.UndecidedKeepsValue` | support/kconfig/expr.c:612-634 | when what expr_eliminate_dups1 leaves is quiet in every round, at any depth, the three-valued value is kept under every valuation |
| `Duplicates.EliminateDupsIsIrredundant` | support/kconfig/expr.c:504-634 | duplicates do go away: at every && and or outside negations, at any depth, no two slots of the result hold operands that are equal up to associativity and commutativity, or one of the other pairs that are joined |
| `Duplicates.EliminateDupsIsConsistent` | support/kconfig/expr.c:556-634 | nor is an operand of its root opposed by the other operands |
| `DuplicatesOnMod.DecidingModChangesValue` | support/kconfig/expr.c:556-610 | with m-valued operands it need not be: (A or B) && !A && !B at A = B = m becomes n |
| `DuplicatesOnMod.ContradictionIsNotQuiet` | support/kconfig/expr.c:556-610 | that tree is one of those the exact condition is about |
| `Submenus.TransCompareIsExact` | support/kconfig/expr.c:877-936 | expr_trans_compare with y or n has the value of the comparison when no negated operand is m and every symbol's string and tristate agree about the constant |
| `Submenus.TransCompareThroughNot` | support/kconfig/expr.c:877-936 | through a negation it is right if and only if the operand is not m |
| `Submenus.TransCompareOfSymbol` | support/kconfig/expr.c:877-936 | on a symbol it is right if and only if its string and its tristate agree about n |
| `Submenus.LogicalIsComparable` | support/kconfig/expr.c:877-936 | they do agree for bool and tristate symbols and for y, m, n |
| `Submenus.TransCompareWithMod` | support/kconfig/expr.c:877-936 | with m, a conjunction or disjunction is compared rightly if and only if its value is n, a comparison always, and a symbol if and only if its string and tristate agree about m |
| `Submenus.DependsSymbolNeedsIt` | support/kconfig/expr.c:797-824 | what expr_depends_symbol accepts is n while the symbol is n, and mentions the symbol |
| `Submenus.DependsSymbolExactly` | support/kconfig/expr.c:797-824 | expr_depends_symbol accepts exactly the conjunctions with an operand that asks for the symbol: the symbol itself, or its comparison with y or m, or with n by != |
| `Submenus.UnmentionedSymbolIsIrrelevant` | support/kconfig/expr.c:773-795 | an expression that expr_contains_symbol denies to mention a symbol has the same value whatever that symbol is |
| `Submenus.ContainsSymbolExactly` | support/kconfig/expr.c:773-795 | expr_contains_symbol answers whether the symbol occurs |
| `Submenus.NotNoFormCompares` | support/kconfig/menu.c:337-351 | rewriting a comparison with n keeps its value exactly, for any condition |
| `Submenus.NotNoFormIsSimplified` | support/kconfig/menu.c:337-351 | what is compared is in negation normal form and holds no duplicates |
| `Submenus.ImpliedByCompares` | support/kconfig/menu.c:349-359 | the implication test, for any two conditions: what passes compares unequal to n only where the base does |
| `Submenus.ImpliedByIsSound` | support/kconfig/menu.c:349-359 | hence what passes is visible only where the base is, as far as both comparisons answer rightly, in particular for comparable conditions |
| `Submenus.ImpliedByExactly` | support/kconfig/menu.c:349-359 | the test passes, for forms without y and n, if and only if the condition is a conjunction with all the operands of the base |
| `Visibility.InheritedIsNnf` | support/kconfig/menu.c:311-334 | below a condition in negation normal form, only conditions in negation normal form are produced |
| `Visibility.InheritMeansBoth` | support/kconfig/menu.c:311-328 | an inherited condition has the value of the conjunction wherever that is y or n |
| `Visibility.InheritedIsIrredundant` | support/kconfig/menu.c:311-328 | an inherited condition holds no duplicates: FOO below FOO is inherited as FOO |
| `Visibility.TransBoolStepIsInvisible` | support/kconfig/menu.c:323-328 | the expr_trans_bool step never changes a promoted visibility |
| `Visibility.TransBoolBelowOddNegations` | support/kconfig/expr.c:317-341 | the failing case: FOO != n below an odd number of negations is n while FOO is m, and becomes m |
| `Configuration.SolutionExists` | support/kconfig/symbol.c:293-440 | every acyclic configuration has values that follow from each other |
| `Configuration.SolutionIsUnique` | support/kconfig/symbol.c:293-440 | and only one assignment of them |
| `Configuration.SolutionIsLocal` | support/kconfig/symbol.c:293-440 | a new user value of one symbol leaves every other symbol of no higher rank alone |
| `Configuration.SolutionIsWellFormed` | support/kconfig/expr.h:45-47 | evaluated configurations meet the conditions of all results about rewriting |
| `Configuration.AcceptedValueIsTaken` | support/kconfig/symbol.c:474-491 | a value the prompt accepts is the value the symbol then has |
| `Configuration.AcceptedIsTaken` | support/kconfig/symbol.c:474-491 | conversely, the values a bool or tristate symbol takes when it is set are the current one and those the prompt accepts |
| `Configuration.ValueIsWritten` | support/kconfig/symbol.c:293-440 | a bool or tristate symbol that is not n, a string symbol that is not empty, and a number that is not just its lower bound have SYMBOL_WRITE |
| `Configuration.WrittenIsReached` | support/kconfig/symbol.c:293-440 | whatever is visible has it, and nothing has it that no prompt, select or default reaches |
| `Configuration.DirDepExactly` | support/kconfig/symbol.c:211-216 | a direct dependency counts as n exactly if its condition is n, and as y otherwise |
| `Configuration.FirstRangeCounts` | support/kconfig/symbol.c:125-136 | the range in effect is the first whose condition is not n |
| `Configuration.BoundIsReadInItsBase` | support/kconfig/symbol.c:138-153 | a bound is read in the base of its own type, and in that of the symbol it bounds only if it is no number itself |
| `Configuration.SettingCurrentValueIsNeutral` | support/kconfig/symbol.c:493-527 | setting a symbol to the value it has changes nothing anywhere |
| `Configuration.ClampHoldsInt` | support/kconfig/symbol.c:155-187 | an int symbol ends up within its active range |
| `Configuration.ClampHoldsHex` | support/kconfig/symbol.c:155-187 | a hex symbol does if and only if it is not pushed to a negative bound, which reads back as the largest number |
| `Configuration.ClampTwice` | support/kconfig/symbol.c:155-187 | clamping a second time changes nothing, if and only if no bound was put in whose counterpart is beyond it, but for negative hex bounds |
| `Numbers.DecimalRoundTrip` | support/kconfig/symbol.c:178-186 | every long long survives being printed in decimal and read again |
| `Numbers.NegativeHexSaturates` | support/kconfig/symbol.c:178-186 | a negative one printed in hexadecimal does not |
| `Numbers.ReadLikeStrtoll` | support/kconfig/symbol.c:138-153 | reading a number takes a sign and all digits of the base, stops at the first other character, and saturates |
| `Numbers.BlanksAreSkipped` | support/kconfig/symbol.c:138-153 | and blanks in front do not matter |
| `Numbers.PrefixIsSkipped` | support/kconfig/symbol.c:138-153 | in base 16 it skips 0x and 0X |
| `Numbers.DigitsInBothCases` | support/kconfig/symbol.c:138-153 | a digit has one character, or a small and a capital letter |
| `SymbolTables.SymbolTable.CalcValue` | support/kconfig/symbol.c:293-440 | whatever has been calculated before, afterwards the symbol is valid with its denotational value, and every valid symbol is still right |
| `SymbolTables.SymbolTable.CalcVisibility` | support/kconfig/symbol.c:189-227 | stores visibility, direct and reverse dependency as the configuration defines them |
| `SymbolTables.SymbolTable.ValidateRange` | support/kconfig/symbol.c:155-187 | replaces the string by its clamped value |
| `SymbolTables.SymbolTable.ClearAllValid` | support/kconfig/symbol.c:442-452 | forgets everything but the constants |
| `SymbolTables.SymbolTable.SetTristateValue` | support/kconfig/symbol.c:474-527 | accepts exactly the current value and what is in range; once accepted, it is the value of the symbol; if the value changed, nothing else stays cached |
| `SymbolTables.SymbolTable.Run` | support/kconfig/symbol.c:293-527 | any sequence of queries and changes is answered as by an evaluator without a cache |
| `Choices.InheritedConditionsAreGuarded` | support/kconfig/menu.c:301-318 | the condition menu_finalize gives to the entry of a choice member is n while the choice symbol is n |
| `Choices.InheritedPromptsAreGuarded` | support/kconfig/menu.c:301-328 | and so are those of its prompts, after the second step and expr_trans_bool |
| `Choices.ChosenIffVisible` | support/kconfig/symbol.c:235-291 | a member is chosen if and only if one is visible, and the chosen one is visible |
| `Choices.MembersDoNotMatter` | support/kconfig/symbol.c:235-291 | mode and visibilities are functions of the symbols outside the choice and of the choice symbol |
| `Choices.ChosenInOrder` | support/kconfig/symbol.c:235-291 | the user's choice counts first while it is visible, then the first default that applies, then the first member that is visible |
| `Choices.ModeExactly` | support/kconfig/symbol.c:293-440 | the choice is y if and only if it is visible and the user has set it to more than n, or if it is selected; it is never m |
| `Choices.PlainChoiceIsYes` | support/kconfig/menu.c:436-440 | a choice that is not optional is y exactly where its prompt is visible |
| `Choices.Choice.CalcMember` | support/kconfig/symbol.c:293-440 | a member is calculated through its choice, and the choice through all members, with the same result in any order |
| `Choices.Choice.CalcChosen` | support/kconfig/symbol.c:261-291 | the visible user choice, else the first visible default, else the first visible member; without any the choice falls back to n |
| `Choices.Choice.Recalculate` | support/kconfig/symbol.c:342-344 | never more than one member is y; in y mode exactly one is if and only if any member can be visible |
| `Choices.Choice.SelectMember` | support/kconfig/symbol.c:488-524 | setting a member to y is accepted exactly when it is visible, and then all others are n |
| `Cycles.NoCycleInOrder` | support/kconfig/symbol.c:1255-1287 | symbols whose search ended in order are on no cycle |
| `Cycles.EdgesExactly` | support/kconfig/symbol.c:1184-1216 | which symbols the search follows from a symbol: those in the conditions of its selects, prompts, defaults and ranges and in the values of its defaults, not those it selects |
| `Cycles.ReportShowsCycle` | support/kconfig/symbol.c:1081-1151 | what is reported is a cycle of the dependency graph |
| `Cycles.MessagesShowCycle` | support/kconfig/symbol.c:1102-1147 | one message per stack entry from the symbol upwards: each says truly why its symbol depends on the next, and the last leads back |
| `Cycles.Checker.Insert` | support/kconfig/symbol.c:1059-1067 | pushes onto the doubly linked stack |
| `Cycles.Checker.Remove` | support/kconfig/symbol.c:1069-1074 | pops, and unlinks |
| `Cycles.Checker.PrintRecursive` | support/kconfig/symbol.c:1081-1151 | the symbol is always found on the stack, and a cycle is reported |
| `Cycles.Checker.CheckDeps` | support/kconfig/symbol.c:1255-1287 | SYMBOL_CHECK is set exactly for the symbols on the stack; a result is one of them, so the outermost call returns null; without a report the symbol is in order |
| `Cycles.Checker.CheckSymDeps` | support/kconfig/symbol.c:1184-1216 | leaves stack and flags as they were, and has put everything the symbol depends on in order unless something was reported |
| `Cycles.Checker.CheckAll` | support/kconfig/symbol.c:1255-1287 | checking all symbols reports something if and only if there is a cycle; the error counter of the caller stays at zero |
| `Cycles.SearchMissesBounds` | support/kconfig/symbol.c:1194-1209 | the search follows all dependencies except range bounds, and dir_dep where nothing else repeats it |
| `Cycles.RankedIffNotCircular` | support/kconfig/symbol.c:293-440 | evaluation is well-founded if and only if no symbols need each other in a circle |
| `Cycles.UnreportedIsRanked` | support/kconfig/symbol.c:1255-1287 | after an empty report, evaluation is well-founded if and only if no circle of dependencies goes through a bound or a dir_dep that the search does not follow |
| `Cycles.UnreportedWithPlainBounds` | support/kconfig/symbol.c:1194-1209 | it is when those are constants, depend on nothing, or come earlier in the order the search has found |
| `Cycles.CircularBoundsEscape` | support/kconfig/symbol.c:1194-1209 | the concrete failure: nothing to report, and no order of evaluation |
| `SymbolHashes.SymbolHash.Lookup` | support/kconfig/symbol.c:798-837 | the table is a finite map from name and kind; a lookup returns the entry or adds one, and changes no other |
| `SymbolHashes.SymbolHash.Prepend` | support/kconfig/symbol.c:824-836 | a new symbol at the head of its bucket keeps every symbol in the bucket of its name |
| `SymbolHashes.SymbolHash.Find` | support/kconfig/symbol.c:839-864 | finds the newest symbol of the name that is no constant |
| `SymbolHashes.SymbolHash.FoundMeans` | support/kconfig/symbol.c:839-864 | which is the ordinary symbol or the choice of that name, and null if and only if there is neither |
| `SymbolHashes.SymbolHash.LookupAll` | support/kconfig/symbol.c:798-837 | in any sequence of lookups two give the same symbol if and only if they ask for the same name and kind |
| `Strings.SymEscapeStringValue` | support/kconfig/symbol.c:915-956 | the counting pass predicts the length exactly: the buffer is filled to its last byte with the escaped string |
| `Strings.UnescapeInPlace` | support/kconfig/confdata.c:154-169 | the in-place loop leaves the unescaped string where it was, and fails if and only if there is no closing quote |
| `Strings.UnescapeUndoesEscape` | support/kconfig/confdata.c:154-169 | unescaping undoes escaping, whatever follows the closing quote |
| `Strings.EscapersAgree` | support/scripts/kconfiglib.py:2500-2504 | both programs escape alike |
| `Strings.PyUnescapeUndoesEscape` | support/scripts/kconfiglib.py:304-312 | the two replacements that read a value undo the two that wrote it |
| `ConfigFiles.SplitUndoesJoin` | support/kconfig/confdata.c:310-316 | what was written line by line is read line by line |
| `ConfigFiles.LineRoundTrip` | support/kconfig/confdata.c:317-390 | reading the line written for a symbol gives it its value back and touches no other symbol |
| `ConfigFiles.LineIsRead` | support/kconfig/confdata.c:317-390 | any line written is read as the value without a carriage return at its end, or ignored if the symbol cannot have it |
| `ConfigFiles.LinesOfFoo` | support/kconfig/confdata.c:481-503 | the lines of a symbol FOO, literally, by its type |
| `ConfigFiles.AssignedExactly` | support/kconfig/confdata.c:345-372 | which lines assign which text to which name |
| `ConfigFiles.SplitAtExactly` | support/kconfig/confdata.c:346-349 | a line is split at the first = |
| `ConfigFiles.CarriageReturnDropped` | support/kconfig/confdata.c:350-355 | one carriage return at the end of a line is dropped |
| `ConfigFiles.UnsetExactly` | support/kconfig/confdata.c:313-344 | which lines unset which name |
| `ConfigFiles.LoadLineFits` | support/kconfig/confdata.c:317-390 | a line gives a symbol only values of its type and leaves all others alone |
| `ConfigFiles.ValidIntIsShown` | support/kconfig/symbol.c:552-568 | the texts accepted for an int symbol are the decimal numbers as they are printed, and -0 |
| `ConfigFiles.ValidHexIsDigits` | support/kconfig/symbol.c:569-578 | those for a hex symbol are hexadecimal digits, at least one, with or without 0x in front |
| `ConfigFiles.ShownIsValidHex` | support/kconfig/symbol.c:569-578 | every number printed in hexadecimal is among them |
| `Defconfigs.GetStringDefault` | support/kconfig/symbol.c:693-758 | computes StringDefault, calculating the visibility once more |
| `Defconfigs.DefaultIsWithoutUser` | support/kconfig/symbol.c:693-758 | which is the value the symbol would have without a user value, before a number is held in its range |
| `Defconfigs.WriteDefconfig` | support/kconfig/confdata.c:661-732 | the lines written are those of the symbols, each once, that are changeable and differ from their default |
| `Defconfigs.RestoredExactly` | support/kconfig/confdata.c:684-689 | a symbol of any type gets its value back from its saved value if and only if it is restorable: bool, tristate and invisible symbols always, others when the line is read as it is and the range is stable, or when the default gives the value |
| `Defconfigs.PlainConfigurationIsRestored` | support/kconfig/confdata.c:661-732 | bool, tristate and changeable string symbols are |
| `Defconfigs.InvertedRangeIsLost` | support/kconfig/confdata.c:684-689 | an int symbol that is written and read back is not if and only if its active range has the bounds the wrong way round |
| `Defconfigs.InvertedRangeExample` | support/kconfig/symbol.c:155-187 | the concrete failure: with range 20 10 the value 5 becomes 20, which is read back as 10 |
| `Defconfigs.DefconfigRestoresEverything` | support/kconfig/confdata.c:661-732 | loading only what was written gives every symbol the value it had, if and only if every symbol is restorable |
| `Defconfigs.EveryLineIsNeeded` | support/kconfig/confdata.c:661-732 | without the line of a written symbol, that symbol has another value, if and only if it is not a number whose default the range moves to the same value |
| `Defconfigs.DroppingIsRemovingALine` | support/kconfig/confdata.c:661-732 | leaving a symbol out is removing exactly one line of the file |
| `Defconfigs.SelectedStringIsLost` | support/kconfig/confdata.c:684-689 | a visible string symbol with a value of its own is restorable if and only if it is selected less than it is visible |
| `Stamps.WriteAutoconf` | support/kconfig/confdata.c:1014-1025 | auto.conf holds the lines of the written symbols that are not n |
| `Stamps.LogicalLine` | support/kconfig/confdata.c:661-732 | a bool or tristate symbol has a line in auto.conf if and only if it is not n, and the line says y |
| `Stamps.StringLine` | support/kconfig/confdata.c:661-732 | a string symbol that is not empty has the line that assigns its escaped value |
| `Stamps.LinesOfAll` | support/kconfig/confdata.c:1014-1025 | the file has the lines of all symbols and no others |
| `Stamps.SplitConfig` | support/kconfig/confdata.c:837-910 | touches the stamps decided by Touched, in order |
| `Stamps.AutoLinesAreRead` | support/kconfig/confdata.c:310-375 | reading auto.conf back yields for every symbol what its line says |
| `Stamps.StampsAreExact` | support/kconfig/confdata.c:866-910 | a stamp is touched if and only if the line changed, provided the old one can be read; otherwise if and only if there is a new line, or one that says another number than was read |
| `Stamps.StampsFollowLines` | support/kconfig/confdata.c:837-910 | from one build to the next: a symbol's stamp is touched if and only if its line in auto.conf differs, is new or is gone |
| `MenuTrees.FinalizeKeepsOrder` | support/kconfig/menu.c:279-422 | absorbing siblings and hoisting children keep the preorder of the entries, and each entry is finalized exactly once |
| `MenuTrees.FinalizeLeavesPrompted` | support/kconfig/menu.c:412-421 | afterwards nothing hangs from an entry without a prompt text, except from the root |
| `MenuTrees.HoistKeepsPrompted` | support/kconfig/menu.c:412-421 | an entry with a prompt text keeps what is below it |
| `MenuTrees.FinalizeIsNormal` | support/kconfig/menu.c:279-422 | if the condition the root hands down is in negation normal form, every condition, prompt and property of the finalized tree is; they hold no duplicates, and prompts and properties of symbols that are not tristate no comparison that expr_trans_bool rewrites |
| `MenuTrees.FinalizeGivesFinals` | support/kconfig/menu.c:279-422 | every entry's conditions come from the entry that was its parent before anything moved |
| `MenuTrees.FinalConditionsMean` | support/kconfig/menu.c:279-422 | the final condition of every entry, of its prompt and of each of its properties is n where its own or any condition above it in the original tree is n, and while no tristate symbol is m it has the value of their conjunction wherever that is y or n |
| `MenuTrees.AbsorbedFollow` | support/kconfig/menu.c:339-364 | everything absorbed passed the test with the condition it keeps |
| `MenuTrees.AbsorbStops` | support/kconfig/menu.c:339-364 | and siblings are taken in until one does not pass it |
| `MenuTrees.FinalizeStops` | support/kconfig/menu.c:336-364 | a symbol's entry with nothing below it leaves only what does not follow it, and no other entry takes anything |
| `MenuTrees.AbsorbSettles` | support/kconfig/menu.c:339-364 | whatever is absorbed has taken in its own followers first, so the sibling left after it is none of them |
| `MenuTrees.FinalizeAllSettles` | support/kconfig/menu.c:335-336 | and the same for the children of any entry |
| `MenuTrees.FollowsExactly` | support/kconfig/menu.c:343-359 | the test: an entry that mentions the symbol passes if one of its conjuncts asks for the symbol, or if all conjuncts of the symbol's own prompt are among its own; for conditions without y and n only then |
| `MenuTrees.FollowersNeedTheirParent` | support/kconfig/menu.c:343-359 | what passes the test is visible only while the absorbing entry is visible or its symbol is not n, as far as conditions can be compared with n; in any case the comparisons say so |
| `MenuTrees.RevDepsAreSelects` | support/kconfig/menu.c:329-333 | what is added to the reverse dependencies of a symbol: for each property of an entry below the root that selects it, the entry's symbol with the property's final condition, as often as there is one |
| `MenuTrees.DirDepsAreLeaves` | support/kconfig/menu.c:368-371 | what is added to the direct dependencies: the final condition of each entry that had nothing below it, as often as there is one |
| `MenuEffects.SelectedToHighest` | support/kconfig/menu.c:329-333 | after finalization a symbol is selected to at least m or y if and only if some entry selects it whose symbol and condition both are at least that |
| `MenuEffects.DirDepMeans` | support/kconfig/menu.c:368-371 | its direct dependency is at least m or y if and only if the condition of one of its entries is, of those that have a condition |
| `MenuHeaps.InheritLoop` | support/kconfig/menu.c:311-334 | rewrites the conditions of the linked children in place |
| `MenuHeaps.InheritProperties` | support/kconfig/menu.c:311-334 | the loop over the properties of one entry: prompts and conditions are rewritten in order, and each select is recorded with its final condition |
| `MenuHeaps.AbsorbLoop` | support/kconfig/menu.c:339-364 | finalizes and adopts the following siblings as long as they depend on the entry; parents and links are those of the resulting trees |
| `MenuHeaps.HoistLoop` | support/kconfig/menu.c:412-421 | relinks the children of promptless entries behind them |
| `MenuHeaps.MenuFinalize` | support/kconfig/menu.c:279-422 | the relinked entries represent exactly what Finalize makes of the trees they represented |
| `MenuHeaps.FinalizeRoot` | support/kconfig/menu.c:279-422 | on the root: order kept, each entry once, every parent pointer right, no entry linked twice, and the reverse and direct dependencies recorded are those of the tree |
| `MenuHeaps.Walk` | support/kconfig/confdata.c:786-819 | the walk without a stack visits every entry exactly once, in preorder, and ends |
| `MenuHeaps.Climb` | support/kconfig/confdata.c:811-818 | going up finds the next entry in preorder, or the end |
| `PyExprs.MakeAndMeansAnd` | support/scripts/kconfiglib.py:3196-3219 | _make_and, which simplifies, flattens and reorders, means conjunction |
| `PyExprs.MakeOrMeansOr` | support/scripts/kconfiglib.py:3221-3246 | _make_or means disjunction |
| `PyExprs.MadeOfBoth` | support/scripts/kconfiglib.py:3196-3246 | the operands of what is built from two expressions are those of both, as often as they occur, and no operand is of the same operator |
| `PyExprs.ConstantsDisappear` | support/scripts/kconfiglib.py:3196-3246 | y and None do not show in a conjunction, and n not in a disjunction; the deciding constant replaces everything |
| `PyExprs.EvaluatorsAgree` | support/scripts/kconfiglib.py:1425-1480 | both evaluators give a shared expression the same value |
| `PyConfiguration.ImplementationsAgree` | support/scripts/kconfiglib.py:1846-1909 | sym_calc_value and Symbol.get_value give every bool, tristate and string symbol the same value, if and only if no string symbol takes its default from a bool or tristate symbol that is not n |
| `PyConfiguration.StringValuesAgree` | support/scripts/kconfiglib.py:1895-1909 | of a single string symbol: given that those it depends on agree, the two values are equal if and only if no default in effect names a bool or tristate symbol that is not n, with or without a user value |
| `PyConfiguration.LogicalDefaultOfString` | support/scripts/kconfiglib.py:1904-1909 | the concrete failure: a string symbol whose default is a bool symbol that is y is "n" for one and "y" for the other |
| `PyDependents.BuildDep` | support/scripts/kconfiglib.py:1508-1549 | dep holds exactly the symbols that mention a symbol |
| `PyDependents.DependentsAreClosed` | support/scripts/kconfiglib.py:2513-2541 | with the symbol itself, _get_dependent is closed under dep and choice siblings |
| `PyDependents.DependentsAreLeast` | support/scripts/kconfiglib.py:2513-2541 | and contained in every such set the symbol is in: it is exactly the closure |
| `PyDependents.DependentsRankHigher` | support/scripts/kconfiglib.py:2513-2541 | no dependent is a constant, and every one ranks above the symbol or is its sibling |
| `PyDependents.ChangeIsLocal` | support/scripts/kconfiglib.py:2401-2414 | a change at a symbol leaves every value outside its closure alone |
| `PyModels.CachelessMeans` | support/scripts/kconfiglib.py:1830-1982 | the cache-free evaluation gives every symbol the value that follows from the others |
| `PyModels.MeaningIsUnique` | support/scripts/kconfiglib.py:1830-1982 | and no other assignment does |
| `PyModels.NumberDefaultIsFirst` | support/scripts/kconfiglib.py:1910-1967 | the default of an int or hex symbol is the first one in effect that is a number, held in the range |
| `PyModels.BoundsOfFirstRange` | support/scripts/kconfiglib.py:1918-1931 | the bounds are those of the first range in effect, and 0 for what is no number |
| `PyModels.NoBounds` | support/scripts/kconfiglib.py:1912-1931 | and there are none without a range in effect |
| `PyModels.NumberIsWithin` | support/scripts/kconfiglib.py:1910-1967 | every value of such a symbol that is a number lies in the range |
| `PyModels.UserNumberIsTaken` | support/scripts/kconfiglib.py:1910-1931 | a user value is taken if the symbol is visible and the number lies in the range, and only a number within the range is ever taken |
| `PyModels.NumberByItself` | support/scripts/kconfiglib.py:1910-1980 | without a user value and a default in effect it is the lower bound if that is positive, and else empty |
| `PyChoices.OneItemIsYes` | support/scripts/kconfiglib.py:1846-1868 | in y mode at most one item of a choice is y, all others are n, and one is exactly if there is a selection |
| `PyChoices.ExactlyOneItemIsYes` | support/scripts/kconfiglib.py:2720-2762 | in a choice that is not optional exactly one item is y if any is visible |
| `PyChoices.DefaultIsSelected` | support/scripts/kconfiglib.py:2741-2762 | without a user's selection that is visible, the first default in effect is selected if it is visible |
| `PyChoices.FirstItemIsSelected` | support/scripts/kconfiglib.py:2741-2762 | and else the first visible item |
| `PyChoices.ItemByMode` | support/scripts/kconfiglib.py:1846-1868 | what an item is in each mode |
| `PyChoices.ModeByDefault` | support/scripts/kconfiglib.py:2849-2860 | a visible choice that is not optional is in y mode by itself |
| `PyChoices.ModeIsBounded` | support/scripts/kconfiglib.py:2849-2860 | an optional one is in n mode by itself, and none is more than its visibility |
| `PyChoices.SettingSelects` | support/scripts/kconfiglib.py:1984-2016 | setting an item to y makes it y and every other item n if the item is visible; otherwise it is not y |
| `PyChoices.SettingItemToNo` | support/scripts/kconfiglib.py:1984-2016 | setting an item to n in y mode changes no item, not even that one |
| `PyChoices.SettingItemToMod` | support/scripts/kconfiglib.py:1984-2016 | setting a tristate item to m puts the choice into m mode and forgets the selection |
| `PyChoices.SettingTakes` | support/scripts/kconfiglib.py:1984-2016 | the value of a symbol outside choices after set_user_value, by visibility and selects |
| `PyChoices.AssignableExactly` | support/scripts/kconfiglib.py:2416-2475 | which texts set_user_value takes for which symbol, and that it does nothing with others |
| `PyChoices.UnsettingForgetsSetting` | support/scripts/kconfiglib.py:2018-2023 | unset_user_value forgets whatever set_user_value has done to the symbol and its choice |
| `PyChoices.UnsettingRestoresExactly` | support/scripts/kconfiglib.py:2018-2023 | it restores what was before set_user_value if and only if neither the symbol had a user value nor its choice a selection or a mode |
| `PyCaches.Config.GetValue` | support/scripts/kconfiglib.py:1830-1982 | returns the cache-free value and keeps every cached value, visibility and selection right |
| `PyCaches.Config.GetVisibility` | support/scripts/kconfiglib.py:3175-3194 | the same for the visibility of a symbol |
| `PyCaches.Config.GetSelection` | support/scripts/kconfiglib.py:2720-2762 | the same for the selection of a choice with items |
| `PyCaches.Config.EvalTerms` | support/scripts/kconfiglib.py:1439-1463 | stopping at the operand that decides gives the minimum or maximum |
| `PyCaches.Config.GetDependent` | support/scripts/kconfiglib.py:2513-2541 | the recursion with its own cache returns the dependents |
| `PyCaches.Config.Invalidate` | support/scripts/kconfiglib.py:2401-2410 | drops the caches of a symbol and of its choice; whatever else was right stays right |
| `PyCaches.Config.SetUserValue` | support/scripts/kconfiglib.py:1984-2016 | after the change everything still cached is right for the new user values |
| `PyCaches.Config.UnsetUserValue` | support/scripts/kconfiglib.py:2018-2023 | the same for unset_user_value, which also resets the choice |
| `PyCaches.Config.Run` | support/scripts/kconfiglib.py:1830-2023 | any sequence of set_user_value, unset_user_value and queries is answered as without caches |
| `PyParser.Feed.Check` | support/scripts/kconfiglib.py:3131-3137 | takes the token if and only if it is next |
| `PyParser.ParseExpr2` | support/scripts/kconfiglib.py:821-826 | the loop parses what the grammar says: same expression, same tokens left, or the same error |
| `PyParser.ParseOrTerm` | support/scripts/kconfiglib.py:828-833 | the same for chains of && |
| `PyParser.ParseFactor` | support/scripts/kconfiglib.py:835-884 | the same for parentheses, negations and comparisons |
| `PyParser.AloneOperandMeans` | support/scripts/kconfiglib.py:835-884 | m on its own means m && MODULES while there is a MODULES symbol; every other operand means itself |
| `PyPrinter.PrintedExpressionIsReadBack` | support/scripts/kconfiglib.py:3301-3357 | a printed expression is parsed back up to merging nested same operators, with equal value, and what follows is left unread |
| `PyPrinter.ParensAreNeeded` | support/scripts/kconfiglib.py:3301-3354 | parentheses are printed only around an or below &&, and around what is negated unless it is a symbol or a string |
| `PyPrinter.ParsedIsBuilt` | support/scripts/kconfiglib.py:835-884 | what the parser builds has at least two operands under every AND and OR, as printing requires |
| `PyPrinter.MergedIsBuilt` | support/scripts/kconfiglib.py:3196-3246 | and so has what the constructors build |
| `PyTokens.LexReadsBack` | support/scripts/kconfiglib.py:661-783 | tokenizing the joined text of tokens gives back the tokens |
| `PyTokens.ProtectedReadsBack` | support/scripts/kconfiglib.py:721-745 | any string is read back when a backslash stands before each quote and backslash in it, between quotes of either kind |
| `PyTokens.OtherTextIsIgnored` | support/scripts/kconfiglib.py:755-783 | a comment ends the tokens, and characters that begin none are skipped, a single & or bar among them |
| `PyTokens.NamesAfterKeywords` | support/scripts/kconfiglib.py:661-699 | a name is a string after the keywords that take one, and a symbol after the others |
| `PyTokens.Tokenize` | support/scripts/kconfiglib.py:611-785 | the loop of the tokenizer yields the tokens of the text, or fails where a quote is not closed |
| `PyTokens.TextIsReadBack` | support/scripts/kconfiglib.py:3356-3357 | the text of an expression without quotes and backslashes in its strings is read back as that expression, with equal value |

## Left out

- Modules: `modules_val` is no and there is no MODULES symbol, so tristate symbols are promoted to y everywhere.
- Named, non-boolean and nested choices of the C side; choice members have no defaults and their conditions do not mention each other. Choices are absent from the evaluator, the cycle check, the menu tree and the saved files.
- `SYMBOL_NEED_SET_CHOICE_VALUES`, randconfig, allyesconfig and its relatives, `defconfig_list`, environment symbols, and `$`-expansion in strings.
- `SYMBOL_CHANGED`, `SYMBOL_AUTO` and the change counter; `SYMBOL_WRITE` is modelled outside choices only.
- Warnings and messages, apart from the report of a recursive dependency; there, line numbers are left out.
- Shared nodes: the rewrites on nodes assume that the expressions they are given share none. Freed nodes are dropped, not reused.
- `expr_eliminate_dups1`, `expr_eliminate_dups2`, `expr_join_or`, `expr_join_and` and `expr_extract_eq` are modelled on values, with slots as paths: the order of assignments is kept, the reuse of nodes is not.
- The symbols' fields on the C side are maps from symbols, not objects, so aliasing between symbols is not captured; the same holds for Kconfiglib's symbols and choices, whose fields are maps of one `Config` object.
- The C lexer and grammar, and Kconfiglib's parser of whole files, menus and help texts; `referenced_syms`, `write_to_conf`, warnings and locations of Kconfiglib. Names are ASCII.
- The fixed-size line and name buffers of the C side, `conf_read`'s clean-up after reading, headings, comments and menu titles in written files, `tristate.conf` and `autoconf.h`.
- `int()`, `hex()` and `str()` of Python are parameters of `PyModels.Model`.
- PyConfiguration.ImplementationsAgree: covers bool, tristate and string symbols outside choices; for int and hex symbols the two programs clamp differently, since C reads any text as a number.
- PyParser.ParseFactor: when `=` or `!=` is followed by neither a symbol nor a string, Kconfiglib takes whatever comes next as the operand; such trees have no meaning to its evaluator, and the model reports an error instead.
- PyCaches.Config.Run: `load_config`, `set_user_value` on MODULES, and symbols that get their value from the environment are not among the calls; choices are asked only if they have items, because what is cached for a choice without items is never dropped.
- Defconfigs.DefconfigRestoresEverything: choices are left out, and values that contain a newline.
- Stamps.StampsFollowLines: speaks of symbols that still exist and whose line in the old file can be read (the other case is in `StampsAreExact`); stamps of symbols that are gone from the Kconfig files are not modelled.
- Duplicates.EliminateDupsChangesExactly: where operands of operands contradict each other before two operands of the root do, a value m stays m or becomes y or n, and which of these is not told.
- MenuHeaps.MenuFinalize: an entry's prompt and properties are one field, a value; `rev_dep` and `dir_dep` are recorded as events instead of being assigned to the symbols, and what the events amount to is said in `MenuEffects`.
- Duplicates.EliminateDupsIsIrredundant: equality up to associativity and commutativity is spoken of for operands without y and n only; with them expr_eq equates more (`ConstantsNeedNotMatch`) and is not transitive, so what an operand is compared with matters.
- Duplicates.EliminateDupsIsConsistent: speaks of the operands of the root, like the loop.
- Cycles.Checker.CheckAll: choices are left out, and with them the detour through the choice symbol.
- Choices.Choice.Recalculate: the values of symbols outside the choice are given and fixed.
