# Models and proofs for the configuration engine, the firmware tool and sstrip

This project models three programs of the repository in Dafny and proves what they promise.

**The configuration engine** (`package/config`): dependency expressions over the tristate
values n < m < y, with AND as minimum, OR as maximum, NOT as 2 - v, and comparisons of strings.

- `Exprs`, `Factor`, `Matching`, `Negation`, `Joining`, `Slots`, `Simplify`, `Shapes`, `Complete`,
  `Merging`, `Refuting`, `Clash`:
  the expression rewrites of `expr.c` as functions on values, and what they do to the
  value of an expression in every state.
- `Cells`, `Places`, `InPlace`, `InPlaceEq`, `InPlaceDups`: the same rewrites as the program runs
  them, overwriting cells in memory through `struct expr **`, two of which may lead into one
  tree. Each method is proved against the function of the same name; it touches no cell of
  another expression, uses no cell after it was freed and ends.
- `Dependence`, `Adopting`, `Submenus`, `Inheriting`, `Guarding`, `Menu`, `Selecting`, `MenuLinks`, `MenuBuild`: how entries
  are linked while the files are read, how dependencies are handed down, when an entry becomes a
  submenu, how `menu_finalize` relinks the `next`, `list` and `parent` pointers, and what it puts
  into the `rev_dep` of every symbol.
- `Graphs`, `Symbols`, `Checking`, `DepCheck`, `Accepting`, `Grouped`: the check for recursive
  dependencies, choice groups included, as a function on its flags and as methods that realise it;
  tables that it lets pass; and which tables can be evaluated upwards.
- `Evaluation`, `Values`, `Setting`, `Calculation`, `Settling`, `Evaluator`, `Startup`: the values of all symbols, choices
  and their members included, as the unique solution of equations; the memoising evaluator as
  functions on its cells and as methods that realise them; and that the cells satisfy the
  equations.
- `Choices`, `AtMostOne`, `Orders`, `Stale`, `Harmless`: exclusivity of choices, on tables that can be
  evaluated upwards and on all others, and what the order of calculation can do.
- `Printing`: printing an expression and parsing it back.
- `Numbers`, `Config`, `Lines`, `ConfigWrite`: reading and writing the configuration file.

**The firmware tool** (`dns323-fw.c`), modules `Firmware` and `Headers`: merging four components into one file
with a header in one of two layouts, and splitting it again.

**sstrip** (`sstrip.c`), module `Sstrip`: cutting an ELF file behind the last byte that is needed.

`Wrappers` holds the option type that all of them use. A state of all symbols is a `Valuation`. It is *well-typed* if booleans are n or y, if the strings
of booleans and tristates are those of their values, and if distinct constants have distinct
strings; `Evaluation.SolutionWellTyped` shows that the evaluator reports no other.

## What does not hold, and exactly when it does

- The second pass of the simplifier replaces `(FOO or BAR) && !FOO && !BAR` by n, without asking
  whether FOO can be m (`package/config/expr.c:582-590`). `Clash.Clashes` is a state in which that is
  wrong; `Simplify.RefuteExactIff` says when one such step is right; `Simplify.EliminateDupsSharpens`
  says that nothing worse happens, `Simplify.MergesOnlyExact` and `Simplify.NeverModExact` when nothing
  happens at all.
- `expr_trans_compare` carries a comparison through `!` by flipping `=` and `!=`
  (`package/config/expr.c:913-914`): right if and only if the negated expression is not m
  (`Dependence.TransCompareNotExactIff`); `Dependence.TransCompareExactIff` is the condition for any
  expression.
- A submenu entry may be shown while nothing above it is: a condition that is m where its
  two-valued reading is n is adopted all the same (`package/config/menu.c:292-318`).
  `Adopting.HiddenBelow` is such a pair of conditions; `Dependence.AdoptedImpliesParent` shows that it
  does not happen where the condition is y, or is read as y, or negates booleans only;
  `Adopting.AdoptionAtModIff` says exactly when it cannot happen at m.
- The dependency check does not follow range operands, which the evaluator reads: two ints that
  bound each other are accepted (`Grouped.AcceptedCycle`). A table can be evaluated upwards if
  and only if no symbol mentions itself, range operands included (`Evaluation.RankedIff`); with
  constant ranges and without choices that is what the check decides (`Grouped.CheckedOrCyclic`).
- A choice is flagged no longer when its members are checked (`package/config/symbol.c:831`), so a
  table in which a member depends on an outside symbol and that on the choice is accepted, unless
  the check comes to that symbol first (`Accepting.SharedAcceptedIff`). If the symbol is calculated
  first, the choice can end at y with a visible member and no member at y (`Orders.NoMemberAtYes`,
  `Orders.SharedUnwatched`). It does not happen where no choice, taken as one
  with its members, depends on itself: then a choice at y has its member at y, in every state
  between calculations (`Choices.ExclusiveSoFar`, `Grouped.ContractedIff`). That condition is not
  necessary: `Harmless.AnyOrder` is a table without it on which every order comes to the same.
- Two members of a choice can be at y: while the choice is being calculated, its value of before is
  there to be read (`package/config/symbol.c:285-288`), and a member that is calculated on the way
  reads it (`Stale.TwoAtYes`, on a table that is accepted: `Accepting.CrossedAccepted`). On every
  table where no choice comes to calculate its own properties by way of a member, and everywhere
  the first time, at most one member is at y, and none in a choice that is not
  (`AtMostOne.ValueKeeps`, `AtMostOne.OneAtMost`, `AtMostOne.UserKept`); an accepted table with a single
  choice is such a table (`AtMostOne.OneChoiceHasNone`).
- A member with a default, of which the program warns, can be at y although it is hidden and another
  member is chosen (`Choices.DefaultedMember`).
- `sym_set_tristate_value` clears nothing when the value is already there
  (`package/config/symbol.c:463-464`), although the value then counts as the user's; for a default
  above the visibility the cache is stale (`Evaluator.SameValueSettled`, both directions;
  `Evaluation.KeptValueChanges` is a table where it is).
- A menu prompt is read back as an assignment if and only if it begins with the name of a bool or
  tristate symbol and " is not set", whatever follows (`Config.HeadingSkippedIff`,
  `Config.HeadingMistaken`).
- A visible int or hex without a value is written as `NAME=` and not read back
  (`Config.EmptyNumberIsLost`); an entry is read back if and only if it is no number or a valid
  one (`Config.EntryReadsBackIff`). `Config.ConfigRoundTripIff` is the condition for a whole file.
- A 128-byte firmware header whose checksums spell a signature is taken for a 64-byte one
  (`Firmware.ImageRecognised`; `Firmware.LookingShort` is such an input); merging and splitting undo
  each other exactly when that does not happen and the file has 128 bytes
  (`Firmware.SplitUndoesMerge`).
- `modifyheaders` overwrites `newsize` while it loops (`toolchain/sstrip/sstrip.c:256`), so a single
  program header that reaches over the cut already shortens later segments
  (`Sstrip.LaterSegmentLost`, for every run on such a file); `Sstrip.SegmentKeptIff` says exactly which segments survive.
- `readphdrtable` does not seek to `e_phoff` (`toolchain/sstrip/sstrip.c:163-182`): it reads what stands
  behind the ELF header, and `commitchanges` writes that to `e_phoff`. It is the right table if and
  only if the same bytes stand in both places (`Sstrip.RightTableIff`); `Sstrip.WrongTable` is a file of
  which every run cuts off what it loads.
- The loop of `truncatezeros` would not end on a file whose only nonzero byte is its first
  (`Sstrip.OnlyFirstByteLoops`); the ELF magic number excludes it.

## Model

| member | source | states |
|---|---|---|
| `Exprs.CombineSharpens` | package/config/expr.h:47-49 | minimum and maximum are monotone in Kleene's information order: sharpening an m in an operand sharpens at most an m of the result |
| `Factor.EliminateYN` | package/config/expr.c:236-317 | no literal y or n is left as an operand outside a `!`; the tree strictly shrinks if there was one and is unchanged otherwise |
| `Factor.EliminateYNExact` | package/config/expr.c:236-317 | the tristate value is kept in every state |
| `Factor.CommonFactor` | package/config/expr.c:135-167 | both trees lose one and the same factor R: each original is the min (or max) of R and its remainder |
| `Factor.EliminateEqOrder` | package/config/expr.c:169-189 | order between the two remainders, in either direction, is order between the originals, whether conjunctions, disjunctions or both were factored |
| `Factor.ExprEqSound` | package/config/expr.c:194-234 | expressions that `expr_eq` accepts have the same value in every state |
| `Factor.UsedUpIsImplied` | package/config/expr.c:169-189 | if the second expression is used up (becomes y), the first implies it everywhere |
| `Factor.ExtractEqTopFactor` | package/config/expr.c:831-880 | the extracted expression is exactly the factor that both originals lose |
| `Matching.EliminatesCommon` | package/config/expr.c:135-167 | exact contents: the operands left on each side are the bag difference of the two sides, each common operand removed as often as both have it |
| `Matching.ExprEqExact` | package/config/expr.c:194-234 | `expr_eq` holds **if and only if** the expressions are equal up to order and grouping of operands at every depth (no literal y/n operands); so it is reflexive, symmetric and transitive |
| `Matching.UsedUpIff` | package/config/expr.c:169-189 | exact, for any two expressions without literal y or n operands: the second is used up if and only if it is y already, or the first is a conjunction that has every operand of it, with multiplicity |
| `Matching.NormalFormIsClean` | package/config/expr.c:641-776 | what transformation and `expr_eliminate_yn` leave meets the condition of the two rows above |
| `Negation.Transform` | package/config/expr.c:641-776 | the result is in negation normal form (`!` only over a symbol other than y/m/n, no boolean compared with y/m/n); termination by a weight in which `!` doubles its operand |
| `Negation.TransformExact` | package/config/expr.c:641-776 | the tristate value is kept in every well-typed state |
| `Negation.TransformIdempotent` | package/config/expr.c:641-776 | normal forms are left alone; transforming twice is transforming once |
| `Joining.JoinOrExact` | package/config/expr.c:351-413 | every non-NULL result of `expr_join_or` has the value of e1 OR e2 in every well-typed state |
| `Joining.JoinAndExact` | package/config/expr.c:415-507 | every non-NULL result of `expr_join_and` has the value of e1 AND e2 in every well-typed state |
| `Slots.PutElsewhere` | package/config/expr.c:509-521 | two different operand pointers into one tree do not disturb each other |
| `Slots.MergeSlots` | package/config/expr.c:530-547 | two distinct positions of one tree: neutral constant into the first, the joint value into the second, value of the tree kept |
| `Simplify.Dups1Exact` | package/config/expr.c:509-559 | the first pass, started with both pointers at the root of one tree, keeps the exact tristate value |
| `Simplify.Dups2` | package/config/expr.c:561-615 | same spine, no growth, nothing counted means nothing changed, something counted means a literal y/n is left; lexicographic termination through the nested calls and the missing `return` |
| `Simplify.RefuteExactIff` | package/config/expr.c:578-608 | the refutation rewrite answers n (dually y); it is exact in a state **if and only if** the whole is not m there |
| `Simplify.Dups2Sharpens` | package/config/expr.c:561-615 | the second pass can only turn an m into y or n |
| `Simplify.EliminateDups` | package/config/expr.c:617-639 | the loop terminates on every input and never grows the tree |
| `Simplify.EliminateDupsSharpens` | package/config/expr.c:561-639 | a value of y or n survives simplification in every well-typed state; only an m may be sharpened |
| `Simplify.MergesOnlyExact` | package/config/expr.c:617-639 | when no round refutes anything the value is kept exactly, m included: only `dups2` can sharpen |
| `Simplify.NeverModExact` | package/config/expr.c:617-639 | exact for every expression over booleans, y, n and comparisons |
| `Simplify.EliminateDupsIdempotent` | package/config/expr.c:617-639 | a second run finds nothing |
| `Complete.AllPairsJoined` | package/config/expr.c:509-559 | a first pass that counted nothing has looked at every pair of distinct operands: none can be joined, and none contains anything to merge |
| `Complete.AllPairsRefuted` | package/config/expr.c:561-615 | a second pass that counted nothing: no operand is refuted by another operand or by any part of the spine |
| `Complete.SimplifiedIsIrreducible` | package/config/expr.c:617-639 | simplification goes all the way: at every level no operands can be merged or refuted |
| `Complete.NothingJoined` | package/config/expr.c:509-559 | conversely a pass counts and changes nothing unless some pair can be joined |
| `Complete.NothingRefuted` | package/config/expr.c:561-615 | the same for the second pass |
| `Merging.MergeableIff` | package/config/expr.c:351-507 | a pair of operands is merged **if and only if** it is one of the pairs written out: equal up to the order of operands; under OR two comparisons of one tristate or a boolean and its negation; under AND a symbol with what it is compared with, or two comparisons of one tristate that say what it is or is not |
| `Merging.SimplifiedIsMerged` | package/config/expr.c:509-639 | what is left after simplification has no such pair at any level; in particular no two operands of one chain that `expr_eq` accepts |
| `Merging.OrPairBecomes` | package/config/expr.c:377-403 | what a whole run makes of each such pair under OR, comparison by comparison; of a boolean and its negation, y |
| `Merging.AndPairBecomes` | package/config/expr.c:459-492 | and under AND, for any constants |
| `Merging.SymbolPairBecomes` | package/config/expr.c:443-457 | what becomes of a bool or tristate together with a comparison of it |
| `Merging.TwinsBecomeOne` | package/config/expr.c:420-421 | a symbol, a comparison or a negated symbol that is there twice is there once |
| `Refuting.RefutesIff` | package/config/expr.c:578-608 | an operand is refuted **if and only if** the operands of its opposite (every operand negated, AND for OR) are all among those of the other one, each as often as there |
| `Refuting.NothingIsRefuted` | package/config/expr.c:561-639 | what is left after simplification has no operand with its opposite among the others, however they are grouped |
| `Clash.LeftOperandGone` | package/config/expr.c:572-594 | on `(FOO OR BAR) && (!FOO && !BAR)` the pass goes on after the parts of the conjunction and refutes by the whole |
| `Clash.Clashes` | package/config/expr.c:582-590 | a concrete whole run that is not exact: with FOO at m, BAR at n the value is m, the simplified form is n |
| `Cells.Frame` | package/config/expr.h:39-42 | an expression in memory survives every change to cells that are not its own |
| `InPlace.ExprMemory.Free` | package/config/expr.c:104-128 | exactly the cells of the tree are given back, except those of a `!`; each is in use when it is freed |
| `InPlace.ExprMemory.Copy` | package/config/expr.c:67-102 | a copy of the same meaning in new cells; no existing cell is touched |
| `InPlace.ExprMemory.EliminateYN` | package/config/expr.c:236-317 | in place: the cells behind the pointer hold the function's result, the root address stays, no other cell is touched, no freed cell is used |
| `InPlace.ExprMemory.TransBool` | package/config/expr.c:322-346 | in place, in the same cells: the function's result |
| `InPlace.ExprMemory.Transform` | package/config/expr.c:641-776 | in place: the function's result, made of old cells of the tree and new ones; no other cell is touched |
| `InPlaceEq.ElimSpine` | package/config/expr.c:135-167 | both trees overwritten at once become the function's pair; they never share a cell; trans_count rises by the number of pairs taken out |
| `InPlaceEq.EliminateEq` | package/config/expr.c:169-189 | both trees become the function's pair, trans_count rises by the pairs of both rounds |
| `InPlaceEq.ExprEq` | package/config/expr.c:194-234 | answers the predicate; whatever it rewrites are copies, existing cells and trans_count are as before; mutual recursion ends |
| `InPlaceEq.ExtractEq` | package/config/expr.c:853-880 | common operands are moved, not copied, to the third expression; all three trees as the function says |
| `InPlaceDups.Dups1` | package/config/expr.c:509-559 | two aliased `struct expr **` into one tree: the tree becomes the function's result, spine cells stay in place, trans_count rises by what the function counts |
| `InPlaceDups.Dups2` | package/config/expr.c:561-615 | the same for the second pass, with its missing `return` |
| `InPlaceDups.RefuteTest` | package/config/expr.c:580-608 | the refutation test works on copies even when one pointer leads into what the other points to; it answers `Refutes` |
| `InPlaceDups.SameTarget` | package/config/expr.c:522-523 | two pointers into the tree point to the same cell if and only if they are the same slot |
| `InPlaceDups.EliminateDups` | package/config/expr.c:617-639 | the whole loop in place: result of the function, other cells untouched, trans_count put back, terminates |
| `Dependence.TransCompareReads` | package/config/expr.c:882-941 | what the rewrite really computes, in every state and for all types: the comparison under a two-valued reading in which m counts as y (for n) or n (for y) |
| `Dependence.TransCompareExact` | package/config/expr.c:882-941 | with every `!` over booleans the result is the comparison that was asked for |
| `Dependence.TransCompareExactIff` | package/config/expr.c:882-941 | for any expression over bool and tristate symbols: the rewrite is right in a state **if and only if** the value is not m, or the two-valued reading differs from the constant too |
| `Dependence.TransCompareNotExactIff` | package/config/expr.c:913-914 | through a `!` the rewrite is right in a state **if and only if** the negated expression is not m there |
| `Dependence.TransCompareMod` | package/config/expr.c:882-941 | a comparison with m is not made for a conjunction or disjunction (the expression itself, or its negation, is taken); for a symbol or a comparison it is right if and only if it stands under an even number of negations |
| `Dependence.ContainsSound` | package/config/expr.c:778-800 | an expression that does not contain a symbol does not depend on its value |
| `Submenus.ContainsIff` | package/config/expr.c:778-800 | an expression contains a symbol **if and only if** it changes when another one is put in its place |
| `Submenus.DependsIff` | package/config/expr.c:802-829 | a condition depends on a symbol **if and only if** one of its conjuncts is the symbol or a test that it is not n |
| `Dependence.DependsSound` | package/config/expr.c:802-829 | where the condition is not n, a bool or tristate symbol it depends on is not n |
| `Dependence.TransBoolKeepsNo` | package/config/expr.c:322-346 | on a normal form the value is never raised and "not n" is kept |
| `Dependence.VisibleReads` | package/config/menu.c:296-307 | transform, compare and simplify together keep the two-valued reading of the condition, for all types |
| `Dependence.AdoptionSound` | package/config/menu.c:292-318 | an adopted condition that depends on the symbol is n where the symbol is n; of any other the two-valued reading is at most that of the condition above, for all types |
| `Dependence.AdoptedImpliesParent` | package/config/menu.c:292-318 | the entry above is reachable (its symbol set or its condition not n) in every state in which the adopted condition is y, or is read as y, or is not n and negates booleans only |
| `Adopting.AdoptionAtModIff` | package/config/menu.c:292-318 | for an adopted condition at m: whatever entry adopts it is reachable **if and only if** the condition is read as y or is not prepared to a conjunction |
| `Adopting.HiddenBelow` | package/config/menu.c:292-318 | the failing input: with T at m and S at n, `!T && S=n` is m and is adopted below `T=n`, which is n |
| `Submenus.AdoptsIff` | package/config/menu.c:285-313 | a following entry is taken **if and only if** its condition mentions the symbol (changes with another in its place) and has it for a conjunct or, prepared, has all conjuncts of the prepared prompt above |
| `Submenus.StaysBehind` | package/config/menu.c:293-295 | an entry whose condition does not mention the symbol is not taken and ends the list: it and all that follow it stay where they are |
| `Submenus.IsTaken` | package/config/menu.c:293-323 | one whose condition has the symbol for a conjunct becomes the first of the submenu |
| `Submenus.ListTakesNone` | package/config/menu.c:235-284 | an entry that has a list of its own takes over none of those that follow |
| `Submenus.PromptKeeps` | package/config/menu.c:359-369 | an entry with a prompt keeps what is below it; only one without gives it up |
| `Printing.UnaryReadsBack` | package/config/expr.c:1016-1086 | every printed operand is read back as one operand, with nothing left over |
| `Printing.PrintedExprReadsBack` | package/config/expr.c:984-1086 | print then parse under the precedences of the grammar: the same expression up to grouping to the left, all tokens consumed |
| `Printing.LeftGroupedExact` | package/config/zconf.y:82-85 | regrouping keeps the value in every state |
| `Printing.ReprintsSame` | package/config/expr.c:1016-1086 | the expression read back prints as the same tokens |
| `Printing.OnlyNeeded` | package/config/expr.c:984-1090 | no parentheses are printed but those that are needed |
| `Graphs.OrderedIsAcyclic` | package/config/symbol.c:763-817 | symbols that can be listed after everything they follow form no cycle |
| `Graphs.CloseCycle` | package/config/symbol.c:859-867 | meeting a symbol of the current path again closes a cycle |
| `Graphs.AcyclicHasOrder` | package/config/symbol.c:763-889 | conversely, symbols that form no cycle can be so listed |
| `Symbols.UnwatchedCycles` | package/config/symbol.c:819-851 | what a table that passes is free of, by paths of any length: a symbol that depends on itself, a member on a member of the same choice, the own properties of a choice on one of its members |
| `Symbols.StagesAreSymbols` | package/config/symbol.c:853-889 | without choices all three notions of a cycle are the same |
| `Symbols.RefsIff` | package/config/symbol.c:763-792 | the references of an expression are the symbols that it mentions, no more and no fewer |
| `Symbols.FollowsMeans` | package/config/symbol.c:794-851 | what the check follows, read off the properties: rev_dep, all conditions but those of selects, and the values of defaults except those of a choice |
| `Checking.FollowedIdsAre` | package/config/symbol.c:794-817 | the list that is gone through for a symbol holds what it follows, and nothing else |
| `Checking.MembersIdsAre` | package/config/symbol.c:835-841 | and for a choice, what its members follow |
| `Checking.DepsReports` | package/config/symbol.c:853-889 | the check leaves the flags of what is on the way as they were and reports only a symbol on the way to it; so nothing is ever reported to the loop of `conf_parse` |
| `Symbols.NotFollowed` | package/config/symbol.c:804-805 | selects and range operands are not followed: with others in their place the same is |
| `DepCheck.Checker.CheckDeps` | package/config/symbol.c:853-889 | flags, errors and the report are those of the specification `Checking.Deps`; a report is a flagged symbol; a symbol that was passed without any report has all it follows passed before it, despite CHECKED symbols left half explored; a member is checked by way of its choice |
| `DepCheck.Checker.CheckChoiceDeps` | package/config/symbol.c:819-851 | the members are flagged with the choice and the choice is freed before them; what they follow was passed before; flags are put back, and a report of a member becomes one of the choice |
| `DepCheck.Checker.CheckSymDeps` | package/config/symbol.c:794-817 | selects, prompt conditions, default conditions and, except for choices, default values are followed, range operands are not |
| `DepCheck.Checker.CheckAll` | package/config/zconf.tab.c:2278-2283 | for the symbols in any order, flags and errors are those of the specification `Checking.All`; no error counted: nothing the check watches is cyclic; an error counted: with every choice taken as one with its members there is a cycle. Without choices the two are one condition (`Symbols.StagesAreSymbols`): no error **if and only if** no symbol can be reached from itself |
| `Accepting.SharedAcceptedIff` | package/config/symbol.c:819-889 | the table of `Orders.NoMemberAtYes` is accepted **if and only if** the check does not come to X first |
| `Accepting.CrossedAccepted` | package/config/symbol.c:819-889 | the table of `Stale.TwoAtYes` is accepted, in every order that begins with the member of the other choice |
| `Evaluation.ValueAgrees` | package/config/symbol.c:257-380 | the equation of a symbol depends on nothing but the symbols it mentions; that of a member also on its choice, that of a choice on what its members mention |
| `Evaluation.SolutionUnique` | package/config/symbol.c:257-380 | a table that can be evaluated upwards has at most one assignment that satisfies all equations, choices and members included |
| `Evaluation.Solution` | package/config/symbol.c:257-380 | such a table has such an assignment |
| `Evaluation.SolutionWellTyped` | package/config/symbol.c:326-327 | every state the evaluator reports is well-typed: booleans are never m, strings are those of the values |
| `Evaluation.SelectIsLowerBound` | package/config/symbol.c:297-330 | value >= rev_dep; boolean-typed symbols are never m |
| `Evaluation.RangeIsKept` | package/config/symbol.c:156-187 | an int or hex symbol with an active range reads as a number within it, whatever the user typed |
| `Evaluation.UserValueSticksIff` | package/config/symbol.c:293-330 | in a changed state a visible symbol takes the user's value **if and only if** it is within visibility and selects and of a possible type |
| `Values.StringMeans` | package/config/symbol.c:257-380 | a string, int or hex in a solution: what the user has set, where a prompt is shown; otherwise the string of the first default whose condition is not n; otherwise nothing. A number outside its active range reads as the bound that it passed, in the base of its type; a number within it, and a string, is just that |
| `Values.TriMeans` | package/config/symbol.c:293-330 | a bool or tristate in a solution: what the user has set as far as it can be seen, or else the first default under its condition, but not below rev_dep; and a visible member of a choice is y if and only if chosen |
| `Values.ChoiceMeans` | package/config/symbol.c:219-255 | a choice at y has chosen the user's member if that is shown; otherwise that of the first default that offers one; otherwise the first that is shown; and is n if none is |
| `Values.UnknownMeans` | package/config/symbol.c:281-284 | a symbol without a type has its name |
| `Values.StateMeans` | package/config/symbol.c:626-647 | the state that expressions are evaluated in: symbols have their values there, constants their names |
| `Setting.InRangeIff` | package/config/symbol.c:414-431 | a value is in range **if and only if** the symbol can be seen above what selects it and comes to have that value in the solution once it is recorded |
| `Setting.MemberInRange` | package/config/symbol.c:428-429 | a member of a choice that is shown at y can only be set to y |
| `Setting.RecordedIs` | package/config/symbol.c:433-467 | what is recorded: the value of the symbol; of a member set to y also the choice's pick, and that the choice and the members shown have been set; nothing else |
| `Evaluation.RankedIff` | package/config/symbol.c:156-187 | evaluation can be ordered **if and only if** no symbol reads itself, by range operands or through a choice |
| `Grouped.ContractedIff` | package/config/symbol.c:763-889 | with constant ranges a table can be evaluated upwards **if and only if** no choice, taken as one with its members, and no other symbol depends on itself |
| `Grouped.OutsideStaysOutside` | package/config/symbol.c:819-851 | then no path of references that leaves a choice and its members comes back to them |
| `Grouped.CheckedOrCyclic` | package/config/symbol.c:809-811 | without choices, what the dependency check rejects cannot be evaluated upwards; the converse holds where range operands are constants |
| `Grouped.AcceptedCycle` | package/config/symbol.c:809-811 | the failing input: two ints that bound each other are accepted and have no order |
| `Evaluation.KeptValueChanges` | package/config/symbol.c:452-463 | a table and its solution that setting the value already there invalidates |
| `Evaluator.SymbolTable.CalcValue` | package/config/symbol.c:257-380 | ends on every table, cyclic or not, and does to the cells exactly what the function `Calculation.CalcValue` says, choices and members included |
| `Evaluator.SymbolTable.CalcVisibility` | package/config/symbol.c:189-217 | the cells become what the function says; rev_dep of members is not looked at |
| `Evaluator.SymbolTable.CalcExpr` | package/config/expr.c:943-982 | the symbols of the expression are calculated in order, and the value is that of the expression in the cells afterwards |
| `Evaluator.SymbolTable.ValidateRange` | package/config/symbol.c:156-187 | the clamped string, by the function, operands calculated on the way |
| `Evaluator.SymbolTable.CalcChoice` | package/config/symbol.c:219-255 | the user's member, the defaults and the members are tried one after the other, as the function says |
| `Settling.ValueSettles` | package/config/symbol.c:257-380 | on a table that can be evaluated upwards: after any calculation, started in any order and in the midst of others, every finished symbol has the value, visibility and selects that its equation gives for whatever values the unfinished ones may take |
| `Settling.AgreesWithSolution` | package/config/symbol.c:257-392 | so what was calculated agrees with every solution |
| `Settling.AllIsSolution` | package/config/symbol.c:257-392 | and when all have been calculated, it is one |
| `Evaluator.SymbolTable.Calc` | package/config/symbol.c:257-380 | a call from outside keeps every state between calculations consistent, up to date if it was, and at most one member of a choice at y |
| `Evaluator.SymbolTable.ValidAgrees` | package/config/symbol.c:257-392 | whatever was calculated in whatever order agrees with every solution |
| `Evaluator.SymbolTable.ClearAllValid` | package/config/symbol.c:382-392 | no symbol is VALID, everything else is as before |
| `Evaluator.SymbolTable.SetTristateValue` | package/config/symbol.c:433-467 | for symbols, members and choices, from any state between calculations: accepted if and only if it is the value last calculated or in range; what is recorded, for a member also as the pick of its choice; if different all is cleared and the new solution takes the value; the state stays consistent in every case |
| `Evaluator.SetTakes` | package/config/symbol.c:433-467 | in the new solution a symbol has the value set; a member set to y in a choice at y is the one chosen and at y; a choice set to y is so if it has a visible member, else n |
| `Evaluator.Recorded` | package/config/symbol.c:433-467 | recording values of the user without a recalculation leaves every calculated symbol right under the values of then, whichever symbols were not calculated |
| `Evaluator.SameValueSettled` | package/config/symbol.c:452-463 | recording the value a symbol has anyway keeps all cached results right **if and only if** the symbol is invisible or the value is within visibility or selects; otherwise the cache is stale because nothing is cleared |
| `Startup.ParseAndEvaluate` | package/config/zconf.tab.c:2278-2287 | end to end, tables with choices included: refused only if a choice as a whole or another symbol depends on itself, without choices if and only if; otherwise evaluation ends, no choice has two members at y, and where no symbol reads itself the result is the one solution, with every choice exclusive |
| `Choices.PickIsVisible` | package/config/symbol.c:219-255 | the picked member is one of the choice and visible; no pick means that no member is visible |
| `Choices.InvisibleInUnsetChoice` | package/config/symbol.c:194-205 | no member is visible while the choice is n |
| `Choices.Exclusive` | package/config/symbol.c:219-376 | in a solution: a choice at y has chosen one visible member, which alone may be y, and is unless it is a tristate shown at m; in any other choice no member is y; in a choice at n none is visible |
| `Choices.ExclusiveSoFar` | package/config/symbol.c:219-376 | the same for what is calculated in every state between calculations of a table that can be evaluated upwards, outside symbols calculated on the way, whoever was the user when each was calculated |
| `Choices.MemberTakes` | package/config/symbol.c:433-467 | a visible member that the user picks in a choice at y is then the one chosen, and at y |
| `Choices.ChoiceTakes` | package/config/symbol.c:433-467 | a choice takes a value in range; y if a member is visible, else n |
| `Choices.DefaultedMember` | package/config/symbol.c:304-325 | the failing input without the condition on members: one is hidden and y by default, the other chosen |
| `AtMostOne.ValueKeeps` | package/config/symbol.c:257-380 | on every table, in any order and in the midst of other calculations: a finished member at y is the one its finished choice has chosen, if no choice with a value of before calculates its own properties by way of a member |
| `AtMostOne.OneAtMost` | package/config/symbol.c:298-300 | so at most one member of a choice is at y, and the choice is at y then |
| `AtMostOne.UserKept` | package/config/symbol.c:382-392 | whoever is the user, and also after everything is to be calculated again |
| `AtMostOne.OneChoiceHasNone` | package/config/symbol.c:819-851 | a table with one choice that the dependency check accepts, ranges constant, has no such path |
| `AtMostOne.UpwardsHasNone` | package/config/symbol.c:763-889 | nor has a table that can be evaluated upwards |
| `Orders.NoMemberAtYes` | package/config/symbol.c:219-376 | the failing run: X is calculated first; the choice ends at y with K visible and no member at y |
| `Orders.SharedUnwatched` | package/config/symbol.c:831-835 | of that table nothing the check watches is cyclic, but the choice taken with its members is |
| `Stale.TwoAtYes` | package/config/symbol.c:257-392 | the failing run over two rounds: two members of one choice are at y |
| `Stale.CrossedUnwatched` | package/config/symbol.c:819-851 | of that table nothing the check watches is cyclic, but the choice calculates its own properties by way of a member |
| `Harmless.AnyOrder` | package/config/symbol.c:257-380 | a table on which every sequence of calculations comes to the same |
| `Harmless.LooseCyclic` | package/config/symbol.c:819-851 | although on it the choice, taken with its member, depends on itself |
| `MenuBuild.MenuReader.AddEntry` | package/config/menu.c:44-58 | appending through last_entry_ptr adds one entry at the open place and moves nothing |
| `MenuBuild.MenuReader.AddMenu` | package/config/menu.c:64-69 | the entry just read becomes the open menu |
| `MenuBuild.MenuReader.EndMenu` | package/config/menu.c:71-75 | the menu around it is open again, after its last child |
| `MenuBuild.MenuReader.Read` | package/config/menu.c:38-75 | for every bracketed sequence of calls the linked entries are the nesting it describes |
| `MenuBuild.NestsBack` | package/config/menu.c:38-75 | round trip: the calls for a forest, nested or not, build that forest |
| `MenuBuild.MenuReader.ReadAndFinalize` | package/config/zconf.tab.c:2277-2277 | reading then finalising: the linked tree is the function of the files, every entry finalised exactly once, in file order, and every rev_dep is, in every state, the highest of what the finished entries give |
| `Menu.FinalizeFlat` | package/config/menu.c:228-370 | adoption and splicing keep the order of the entries and what they hold: it is what handing dependencies down the original tree gives |
| `Menu.FinalizePreorder` | package/config/menu.c:228-370 | no entry is lost, doubled or reordered |
| `Menu.MoveUpFlattens` | package/config/menu.c:359-369 | no entry without a prompt keeps children, one level below a finished entry |
| `Selecting.GiftsConserved` | package/config/menu.c:260-387 | the operands added to rev_deps are exactly those of the finished entries, each once: every select under its final condition, and every choice that must be set |
| `Selecting.RevDepMeans` | package/config/menu.c:279-387 | so in every state the value of a rev_dep is the highest of its operands: no operand exceeds it, and one has it unless it is n |
| `Selecting.ForcedTo` | package/config/menu.c:277-284 | a symbol is forced to the highest value that a finished entry forces it to: `select B if C` to no more than the entry's symbol and C, a choice that must be set to m, where its prompt is shown; and not at all if none does |
| `MenuLinks.MenuTable.Finalize` | package/config/menu.c:228-370 | relinking next, list and parent in place gives the function's forest with consistent parent pointers, touches no entry outside it, finalises each entry exactly once and ORs to the rev_deps what `Selecting.Gifts` lists, in that order |
| `MenuLinks.MenuTable.InheritKids` | package/config/menu.c:260-284 | the loop that hands dependencies down gives every child the function's conditions, and adds every select of a child to its target's rev_dep |
| `MenuLinks.MenuTable.AdoptNext` | package/config/menu.c:287-318 | the loop over following siblings takes over exactly those the function adopts, and cuts them out of the list |
| `MenuLinks.MenuTable.MoveUpKids` | package/config/menu.c:359-369 | children of entries without a prompt are spliced in behind them, and looked at in their turn |
| `Shapes.SimplifiedKeepsNormal` | package/config/menu.c:260-277 | the simplifier keeps negation normal form, so `expr_trans_bool` may follow it |
| `Inheriting.RestrictMeans` | package/config/menu.c:260-275 | the condition handed down says what both conditions say, up to a sharpened m |
| `Inheriting.ShownAsBefore` | package/config/menu.c:276-277 | `expr_trans_bool` does not change the visibility of any symbol |
| `Inheriting.Inherits` | package/config/menu.c:260-278 | where own condition, dependency or outer dependency is n the condition is n; where all are y the entry is shown |
| `Inheriting.AllCovered` | package/config/menu.c:228-290 | for whole trees: at every level, no entry can be reached by any condition where what the entry above hands down is n |
| `Submenus.HandedBelow` | package/config/menu.c:253-278 | what an entry right below another one holds in the end: not shown where the choice above is n, or the prompt above is hidden, or, without a prompt, the dependencies are n; nor where its own dependencies or condition are; shown where all are y |
| `Submenus.HandedSimplified` | package/config/menu.c:254-272 | dependencies are handed down, and prompts compared, as simplified normal forms |
| `Submenus.TransBoolForm` | package/config/expr.c:322-346 | every test that a tristate is not n is gone, and without one nothing changes |
| `Submenus.TestsKept` | package/config/menu.c:273-276 | entries for symbols that are no tristates lose those tests; those for tristates, and menus, keep them |
| `Guarding.SimplifiedKeepsHeld` | package/config/expr.c:617-639 | simplifying a condition keeps a symbol that is a conjunct of it, as the symbol, its comparison with y, or n |
| `Guarding.RestrictKeepsHeld` | package/config/menu.c:260-275 | a condition restricted by one with that conjunct has it too |
| `Guarding.BelowChoice` | package/config/menu.c:250-290 | below a choice every dependency and every condition, at every level down to the next choice, has the choice, or n, as a conjunct |
| `Config.WriteEscaped` | package/config/confdata.c:498-507 | the write loop produces the escaped string |
| `Config.EscapeOnly` | package/config/confdata.c:498-507 | nothing but the quote and the backslash is escaped, each by one character: any other string is written as it is |
| `Lines.TristateWritten` | package/config/confdata.c:478-493 | a bool or tristate at n is a comment, at m and y an assignment of one letter |
| `Lines.StringWritten` | package/config/confdata.c:494-519 | a number is written as it is, a string between quotes, longer by the number of quotes and backslashes in it |
| `Lines.HeadingWritten` | package/config/confdata.c:462-468 | a menu prompt between two empty comments |
| `Lines.AssignmentMeans` | package/config/confdata.c:92-150 | what an assignment does when read, whatever stands behind the `=` and however the line ends: for bools and tristates the first letter counts, a number is taken if it is valid, a string only with a quote |
| `Lines.CommentMeans` | package/config/confdata.c:216-246 | a comment unsets the bool or tristate symbol with whose name it begins, if " is not set" follows |
| `Lines.CommentSkipped` | package/config/confdata.c:216-246 | any other comment does nothing |
| `Lines.OtherwiseSkipped` | package/config/confdata.c:247-286 | nor does an assignment to a name that no symbol has, or a line that begins with anything but `#` and the letters from A to Z |
| `Lines.LongLine` | package/config/confdata.c:216-216 | a line that does not fit into the buffer is read in pieces |
| `Lines.NumeralIff` | package/config/symbol.c:492-533 | a valid int is the decimal numeral of a natural number, perhaps behind a minus; a valid hex any hexadecimal digits, perhaps behind `0x` |
| `Lines.NamedIff` | package/config/confdata.c:216-232 | a heading unsets the bool or tristate symbol with whose name it begins, if a space and "is not set" follow |
| `Config.EscapeReadsBack` | package/config/confdata.c:124-132 | escaping is undone by reading, for every string and whatever follows the quote |
| `Config.UnescapeInPlace` | package/config/confdata.c:124-136 | the strpbrk/memmove loop, in place: accepts exactly the quoted strings and leaves exactly the unescaped string |
| `Config.RemoveChar` | package/config/confdata.c:131-131 | memmove over one character: the rest of the C string moves down, the part before is untouched |
| `Config.ReadConfig` | package/config/confdata.c:216-307 | the line loop computes the reader's function |
| `Config.EntryReadsBackIff` | package/config/confdata.c:478-519 | a line written for a symbol sets exactly that symbol to exactly that value **if and only if** it is no number or a valid one |
| `Config.EmptyNumberIsLost` | package/config/confdata.c:138-146 | the failing input: an int or hex without a value is written as `NAME=`, which is rejected |
| `Config.HeadingSkippedIff` | package/config/confdata.c:216-232 | a heading is skipped in every context **if and only if** it does not begin with the name of a bool or tristate symbol and " is not set" |
| `Config.FileReads` | package/config/confdata.c:458-521 | reading a file of any items, of whatever values and headings, does what its items do one by one |
| `Config.ConfigRoundTripIff` | package/config/confdata.c:154-521 | exactly the written symbols are set, each to its value, **if and only if** every number is valid and every heading that names a symbol is followed by its entry or the symbol is n |
| `Config.HeadingMistaken` | package/config/confdata.c:216-232 | a prompt that begins with "NAME is not set", whatever follows, unsets NAME when read back |
| `ConfigWrite.WriteEntries` | package/config/confdata.c:458-536 | the walk by list, next and parent pointers ends and visits every entry exactly once in file order |
| `ConfigWrite.WrittenIff` | package/config/confdata.c:469-473 | a symbol is in the file if and only if its flag is set and some entry shows it |
| `ConfigWrite.WrittenOnce` | package/config/confdata.c:469-473 | no symbol is written twice, however many entries it has |
| `ConfigWrite.ItemsInOrder` | package/config/confdata.c:458-535 | what is written for entries that come first comes first |
| `ConfigWrite.HeadingsWritten` | package/config/confdata.c:462-468 | every visible menu or comment is written as one heading, and nothing else is |
| `ConfigWrite.WrittenConfigReadsBackIff` | package/config/confdata.c:154-535 | what the walk wrote is read back as exactly the shown, flagged symbols, each with its value, **if and only if** the items meet the condition of `Config.ConfigRoundTripIff` |
| `Numbers.FormatReadsBack` | package/config/symbol.c:176-186 | a number written by `%d` or `0x%x` is read back by `strtol` as itself |
| `Numbers.FormatForm` | package/config/symbol.c:176-186 | numbers are written without leading zeros, negative ones behind a minus, hexadecimal ones behind `0x` in small letters and as 32 bits |
| `Numbers.ReadsNumeral` | package/config/symbol.c:140-154 | reading stops before the first character that is no digit and saturates at the ends of long; an int keeps the low 32 bits |
| `Numbers.SkipsSpaces` | package/config/symbol.c:140-154 | blanks and a plus in front of a number are skipped |
| `Firmware.WordRoundTrip` | package/alt-f-utils/alt-f-utils-0.1.11/dns323-fw.c:188-203 | a word is read back from its four bytes |
| `Firmware.WordOfBytes` | package/alt-f-utils/alt-f-utils-0.1.11/dns323-fw.c:188-203 | conversely, four bytes are those of the word they are read as |
| `Headers.WordOfOne` | package/alt-f-utils/alt-f-utils-0.1.11/dns323-fw.c:188-203 | the byte at the lowest address counts least |
| `Headers.XorMeans` | package/alt-f-utils/alt-f-utils-0.1.11/dns323-fw.c:196-203 | a checksum is taken bit by bit |
| `Firmware.BlockChecksum` | package/alt-f-utils/alt-f-utils-0.1.11/dns323-fw.c:188-203 | the inner loop XORs exactly the complete 32-bit words of the block |
| `Firmware.ChecksumAppend` | package/alt-f-utils/alt-f-utils-0.1.11/dns323-fw.c:170-212 | the checksum of whole words appended is the XOR of the checksums, so the block size does not matter |
| `Firmware.ReadWrite` | package/alt-f-utils/alt-f-utils-0.1.11/dns323-fw.c:154-223 | copies the bytes that are there, zeros filling the block in which the file ends; the checksum is the XOR of all complete 32-bit words of what was copied, across blocks; a nonzero expected checksum is met if and only if it succeeds |
| `Firmware.CopiedWhole` | package/alt-f-utils/alt-f-utils-0.1.11/dns323-fw.c:154-223 | when the file has the bytes, all of them are copied |
| `Firmware.SaveComp` | package/alt-f-utils/alt-f-utils-0.1.11/dns323-fw.c:257-288 | succeeds if and only if the size fits and a u-boot part has the magic; the part is appended and its offset, length and checksum recorded |
| `Firmware.HeaderReadsBack` | package/alt-f-utils/alt-f-utils-0.1.11/dns323-fw.c:290-344 | the header written is the header read, in both layouts |
| `Headers.MagicIs` | package/alt-f-utils/alt-f-utils-0.1.11/dns323-fw.c:135-147 | a signature is the name of the box between the bytes 0x55 0xAA and the same again |
| `Headers.ShortLayout` | package/alt-f-utils/alt-f-utils-0.1.11/dns323-fw.c:290-314 | at which byte each field stands in a header of 64 bytes |
| `Headers.LongLayout` | package/alt-f-utils/alt-f-utils-0.1.11/dns323-fw.c:316-344 | and in one of 128 |
| `Firmware.HeaderOf` | package/alt-f-utils/alt-f-utils-0.1.11/dns323-fw.c:524-602 | components are contiguous and disjoint |
| `Headers.ImageHolds` | package/alt-f-utils/alt-f-utils-0.1.11/dns323-fw.c:524-602 | the merged file holds every part where the header says, with its length and checksum |
| `Headers.MergeAsks` | package/alt-f-utils/alt-f-utils-0.1.11/dns323-fw.c:257-288 | what merging asks of its input: u-boot images for kernel and initramfs, and sizes within those of the box |
| `Firmware.Merge` | package/alt-f-utils/alt-f-utils-0.1.11/dns323-fw.c:524-602 | succeeds if and only if the input is within limits; the file is header followed by the parts |
| `Firmware.Split` | package/alt-f-utils/alt-f-utils-0.1.11/dns323-fw.c:639-689 | computes the split of any file |
| `Headers.SplitAsks` | package/alt-f-utils/alt-f-utils-0.1.11/dns323-fw.c:639-689 | what is split has a signature in one of the two places, u-boot images where its header says, and checksums that are met or 0; each part is given out from its bytes in the file |
| `Headers.IsSplit` | package/alt-f-utils/alt-f-utils-0.1.11/dns323-fw.c:639-689 | and every file with all of these is split |
| `Headers.CopiedShort` | package/alt-f-utils/alt-f-utils-0.1.11/dns323-fw.c:154-223 | where the file ends in the first block, zeros fill up that block or what was asked for |
| `Firmware.MagicsApart` | package/alt-f-utils/alt-f-utils-0.1.11/dns323-fw.c:449-467 | no two boxes share a signature |
| `Firmware.ImageRecognised` | package/alt-f-utils/alt-f-utils-0.1.11/dns323-fw.c:449-467 | the layout is recognised and the header read back unless a 128-byte header happens to look like a 64-byte one |
| `Firmware.LookingShort` | package/alt-f-utils/alt-f-utils-0.1.11/dns323-fw.c:449-467 | an input within limits whose 128-byte header spells the short signature, and is not split back |
| `Firmware.SplitUndoesMerge` | package/alt-f-utils/alt-f-utils-0.1.11/dns323-fw.c:524-689 | split of merge gives the inputs back **if and only if** the file has 128 bytes and its header does not look like the shorter layout |
| `Sstrip.GreatestEndIsLeastBound` | toolchain/sstrip/sstrip.c:196-224 | the memory size is the least bound of headers and segment ends |
| `Sstrip.GetMemorySize` | toolchain/sstrip/sstrip.c:196-224 | the loop computes it |
| `Sstrip.ScanChunk` | toolchain/sstrip/sstrip.c:385-390 | the backward scan drops only zeros and stops at the last nonzero byte |
| `Sstrip.TruncateZeros` | toolchain/sstrip/sstrip.c:374-399 | exactly the prefix length without trailing zeros, across chunk boundaries; terminates because of the ELF magic |
| `Sstrip.OnlyFirstByteLoops` | toolchain/sstrip/sstrip.c:374-399 | the loop goes around without progress if and only if a single nonzero byte is left |
| `Sstrip.ModifyHeaders` | toolchain/sstrip/sstrip.c:230-262 | in place: every header is trimmed to the cut it is compared with, which line 256 overwrites on the way |
| `Sstrip.SegmentKeptIff` | toolchain/sstrip/sstrip.c:230-262 | a segment is loaded as before **if and only if** its bytes from that cut on, outside the headers, are zeros or not loaded |
| `Sstrip.SegmentsKept` | toolchain/sstrip/sstrip.c:230-310 | every segment whose header was compared with the real cut, or ends before its own, survives, also where it is larger in the file than in memory |
| `Sstrip.LaterSegmentLost` | toolchain/sstrip/sstrip.c:250-258 | every run on a file with one header over the cut loses a later segment |
| `Sstrip.Commit` | toolchain/sstrip/sstrip.c:267-310 | ELF header and program headers written back byte for byte, all else as before, the file cut but never before the end of the header table |
| `Sstrip.Strip` | toolchain/sstrip/sstrip.c:404-468 | the whole run, with the headers read from the file: fails, and changes nothing, if and only if they are not as expected or what they refer to is not there; otherwise the cut is behind the last referenced nonzero byte, the modified headers are written back, and segments of SegmentsKept, of the table that was read, are loaded as before; all of it also stated on the bytes of the two files (`Sstrip.Strippable`, `Sstrip.IsStripped`) |
| `Sstrip.StrippableIff` | toolchain/sstrip/sstrip.c:148-224 | a file is stripped **if and only if** it begins with the header of an ELF executable or shared object of the expected sizes, has a program header table behind that, and ends behind everything that the headers refer to |
| `Sstrip.StripsToStripped` | toolchain/sstrip/sstrip.c:230-310 | the stripped file in terms of the bytes of the original: the ELF header has its old fields, except that e_shoff, e_shnum, e_shentsize and e_shstrndx are all 0 if e_shoff was not below the cut; every program header has its old fields but a trimmed size, or offset and size 0; all else is as before up to the cut |
| `Sstrip.SameTableIff` | toolchain/sstrip/sstrip.c:163-182 | two places of a file hold the same program header table if and only if they hold the same bytes |
| `Sstrip.RightTableIff` | toolchain/sstrip/sstrip.c:163-182 | the table that is read is the one at e_phoff **if and only if** the bytes there are those behind the ELF header, in particular where it follows that header |
| `Sstrip.WrongTable` | toolchain/sstrip/sstrip.c:163-182 | a file with its table elsewhere: whatever header is written, what the segment loads is lost |

## Left out

- Factor.EliminateYNExact: like all theorems on expressions, it speaks of the node types symbol, NOT, AND, OR, `=` and `!=`; lists (choice members) and ranges are data of their own in `Symbols`.
- InPlace.ExprMemory.EliminateYN: it, `TransBool`, `Transform` and the methods of `InPlaceEq` and `InPlaceDups` take the non-NULL case; NULL is answered with NULL, which the functions of `Menu` have as `None`.
- InPlaceEq.ElimSpine: the two pointers of `__expr_eliminate_eq` and `expr_extract_eq` lead into separate trees at every call of the program, so a new pointer is handed back to the caller, who stores it in the slot it came from.
- InPlaceDups.Dups1: `expr_join_or` and `expr_join_and` are calculated on the values of the two operands; the cells they allocate and free on the way are not modelled. Addresses are never reused.
- `expr_trans_compare`, `expr_copy` inside it and `expr_depends_symbol` are modelled on values: they change nothing in place.
- Matching.ExprEqExact: operands that are the literals y and n are excluded; expr_transform followed by `expr_eliminate_yn` leaves none (`Matching.NormalFormIsClean`).
- Dependence.TransCompareReads: a comparison with m, which the program never asks for, is in `Dependence.TransCompareMod`.
- Adopting.AdoptionAtModIff: conditions over bool and tristate symbols, prepared to ones without literal y or n operands, on both sides.
- Printing.PrintedExprReadsBack: tokens are compared, not characters; the generated lexer and the parser tables are not part of this model, the grammar's precedences are.
- Evaluation.UserValueSticksIff: in it and in the evaluator the modules symbol keeps its value; SYMBOL_WRITE, SYMBOL_CHANGED and SYMBOL_AUTO are not tracked; `sym_set_string_value` is not modelled. Evaluation.SelectIsLowerBound and this one are about symbols outside choices; `Choices.MemberTakes` and `Choices.ChoiceTakes` about the others.
- DepCheck.Checker.CheckAll: for tables with choices the graphs of the two directions differ, and no graph alone decides: one table is accepted or refused by the order in which the check comes to its symbols (`Accepting.SharedAcceptedIff`). The last clause (the flags and the number of errors are those of `Checking.All`) is exact for every order.
- The hash table of symbols: the order in which the check comes to them is a parameter.
- Startup.ParseAndEvaluate: choices are bools or tristates, or have no type, and their defaults are members of theirs, as the grammar has them (Settling.ValueSettles, too).
- Evaluator.SymbolTable.ClearAllValid: the recalculation of the modules symbol and the counting of changes are left out.
- Choices.ExclusiveSoFar: prompts of members have the choice as a conjunct, as `Guarding.BelowChoice` shows of those within it; a member with a prompt elsewhere, of which the program warns, is not covered. Members have no defaults (`Choices.DefaultedMember`).
- AtMostOne.ValueKeeps: under the same conditions on members.
- MenuLinks.MenuTable.Finalize: type inference for choices, linking of choice values, the conjunct that values of another type get in tristate choices, and warnings are not modelled (so in Menu.FinalizeFlat and MenuBuild.MenuReader.ReadAndFinalize); the list of properties of an entry is fixed.
- MenuBuild.MenuReader.Read: attributes of entries are part of the entry when it is read; closing a bracket that was not opened is excluded by the grammar.
- Config.ConfigRoundTripIff: names start with A to Z, are written once, and lines fit the buffer of 1024 characters; symbols without a type (S_OTHER), `auto.conf`, warnings, renaming of files and the adjustment of choices after reading are not modelled. A line longer than the buffer is read in pieces, as `fgets` does.
- ConfigWrite.WriteEntries: which menus are visible and which flags are set are parameters; the heading with the date is left out.
- Numbers.FormatReadsBack: the C type int has 32 bits and is modelled with its bounds.
- Firmware.Split: files are byte strings; a read that comes up short in `is_uboot`, which leaves the buffer as it was, counts as a missing magic number; sizes stay below 2 to the power of 31, where the loop counter is an int; printing and option parsing are left out.
- Sstrip.Strip: 32-bit and 64-bit headers and both byte orders share one model; the encodings are parameters, of which is known that writing gives back what was read. Wrap-around of header fields, memory that runs out and failing writes are left out.
- User interfaces, gettext, memory that runs out, timestamps, environment variables, regular expressions and `conf_split_config`.
- `elf2flt.c`, `flthdr.c`, `mklibs.py`, `sysctrl.c` and the other small programs of the repository, which would add only easy members or depend on code that is not in it.
