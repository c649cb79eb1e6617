# Verification model of the Kconfig engine and the build tools

The project models, in Dafny, the configuration engine under `scripts/kconfig/parser` (the
expression rewriter, the symbol evaluator, the choice groups, the dependency check, the menu tree,
the configuration files and the macro preprocessor) and four smaller algorithms of the build tools:
the build order, the shared-library closure, the kernel-style lists and the progress display.
`dafny verify dfyconfig.toml` checks all of it.

Code that computes new trees or texts is modelled by datatypes and functions. Code that updates
state is modelled by classes and methods with the source's fields and loops, each proved against a
function or a predicate; what the source promises is proved about those.

| module | models |
|---|---|
| Symbols, Exprs, Comparisons | tristate values, symbols, expressions, `expr_eliminate_yn`; comparisons by the numbers and texts that symbols hold |
| ExprEq, ExprDups, Rewriter | `expr_eq`, `expr_eliminate_eq`, the join tables, `expr_eliminate_dups`; the counter `trans_count` |
| EqualKeys, Duplicates | what equality decides at every depth; that no redundant operand is left |
| ExprTransform, Submenu, SubmenuLaws | `expr_transform`, `rewrite_m`, `expr_trans_compare`, `expr_depends_symbol`, the automatic-submenu test |
| Sequences, ExprTable, ListHead | the table of expression nodes; circular lists and hash chains as linked structures |
| Equations, SymbolEval, Evaluator | the value equations of a configuration and the lazy, memoised evaluator |
| ValueLaws | the values read off prompts, defaults, selects, implies and ranges |
| Digraph, DepCheck, CheckedEval | walks and cycles; the recursive-dependency check; both together |
| MenuForest, MenuTree | `_menu_finalize` on trees and on linked nodes; `menu_next` |
| MenuConditions, MenuLaws, Simplification | the conditions that `_menu_finalize` propagates and gathers; the configuration they make up |
| SubmenuTree, MenuFinalization | submenus tested on the stored conditions; restructuring and propagation in one recursion |
| ChoiceGroup, ChoiceBlock, ChoiceLaws | choice groups: priority list, pick, values; the pick by places |
| Escape, ConfFile, SaveLoad, FileLaws, TouchDeps | quoting, lines, saving and loading, the format of the file, the change set of `conf_touch_deps` |
| Expansion, Preprocessing, Calls | macro expansion; what calls answer |
| BuildChain, SystemLibs, Progress | build order, library closure, progress display |

## Findings

* `(a=b) && (a!=c)` becomes `a=b` for any two different constants. This keeps the value exactly when
  no value of `a` compares equal to both; `(A="0") && (A!=n)` is a case where it does not
  (`ExprDups.JoinExactIff`, `ExprDups.ZeroClashesWithN`, `ExprDups.EliminateDupsOfEqualUnequal`).
* The comment above `expr_eq` (scripts/kconfig/parser/expr.c:201-206) speaks of operands in any order;
  the code compares them as multisets, so `a && (a && b)` is not equal to `(a && b) && b`. The code is
  followed (`ExprEq.EqualIsMultisetEquality`, `ExprEq.EqualIsNotSetEquality`).
* With constants deeper down `expr_eq` is not transitive: `A && (n || n)` equals `B && n`, that equals
  `B && (n || n)`, and the first does not equal the last. On trees without constant operands, such as
  `expr_eliminate_dups` leaves, it is an equivalence (`EqualKeys.EqualIsNotTransitive`,
  `EqualKeys.EqualIsEquivalence`).
* Of repeated operands the last is kept: `A || B || A` becomes `B || A`, where the comment at
  scripts/kconfig/parser/expr.c:529-533 has `A || B` (`Duplicates.EarlierOperandGoes`).
* `A!=y -> !A` passes the symbol where an expression is expected (scripts/kconfig/parser/expr.c:649).
  `ExprTransform.Transform` is the stated intent, a negation over the symbol's node as in line 618. The
  code as written has that result exactly when no boolean is compared with y by `!=`
  (`ExprTransform.TransformAsWrittenIff`); the calls made for submenus never bring such a comparison in
  (`Submenu.TransCompareIsTransformable`).
* `expr_trans_compare` takes `A` to `A!=n`, which for a symbol without a boolean or tristate type
  compares its text: an undefined symbol U is n, but `U!=n` is y. It is also not exact below a negated
  symbol that is m, nor for && and || against m. The exact conditions at a symbol, a negated symbol and
  a connective are proved. Each of the first two moves items into a submenu that are enabled while
  their guard is n: at every text that does not read as n, and at every negated symbol that is m or has
  such a text (`Submenu.MovedItemMayEscapeBesideText`, `Submenu.MovedItemMayEscapeUnderNegation`).
* Items move under symbols of any type. An outright dependency on an int, hex or string symbol says that
  its text is not n, while the symbol itself is always n: under `config S string` an item that "depends on
  S!=n" is enabled at the text "foo". A symbol is not n wherever an outright dependency on it is enabled
  exactly when it is boolean or tristate or its text reads as n (`Submenu.DependsSoundIff`,
  `Submenu.MovedItemMayEscapeUnderText`).
* The superset test for submenus sees conjunctions only: an item whose condition, compared with n, is a
  disjunction is never taken to ask for all that the prompt asks, even if the two are the same
  (`SubmenuLaws.MovesUnderIff`, `SubmenuLaws.SupersetIff`).
* A symbol with several definitions loses those without a condition: or-ing their dependencies, a
  missing one is dropped where it stands for y. With A defined once "depends on D" and once without, the
  direct dependency is D (`Simplification.DirDepExactIff`, `Simplification.DefinitionWithoutConditionIsLost`).
* A choice whose default names a visible symbol from elsewhere ends with every member n
  (`ChoiceGroup.ExactlyOneIsYes`, `ChoiceGroup.DefaultOutsideLeavesNone`).
* A default may give a visible symbol a higher value than its prompt allows; saving and loading loses
  it, as it does the value of a visible number that is clipped to something else the second time, as by
  an empty range (`SaveLoad.SaveThenLoad`, `SaveLoad.NumberLastsIff`, `SaveLoad.DefaultMayExceedPrompt`,
  `SaveLoad.EmptyRangeLosesNumber`).
* The recursive-dependency check does not follow the bounds of a range, although evaluation reads
  them: it accepts a configuration that no order of evaluation fits. After a check without errors an
  order exists exactly when no bound of a range leads back to the symbol it bounds
  (`CheckedEval.BoundsAreNotChecked`, `CheckedEval.CyclesBeyondTheCheck`, `CheckedEval.OrderExistsIff`).
* `conf_touch_deps` passes over a name that is still mentioned in some expression but no longer
  defined, although its entry vanishes (`TouchDeps.TouchedIsChanged`, `TouchDeps.UndefinedNameIsMissed`).
* `process_syslib` makes a dangling link when the target was reported unknown before. Some run on a
  system does exactly if some name is found whose library cannot be found by its own name
  (`SystemLibs.NothingDanglesIff`).
* A total that is announced when more packages are finished already lets the progress display count
  more finished than there are; at the next end the percentage exceeds 100, and from 102 on the bar is
  cut beyond its buffer of 52 characters. Neither happens when every total covers what is finished by then
  (`Progress.NeverMoreThanTotal`, `Progress.BarStaysInside`, `Progress.OverrunIff`,
  `Progress.SmallerTotalLater`).

## Assumptions

* The value of a constant is fixed, a boolean symbol is never m (`Symbols.Admissible`); the evaluator
  establishes it (`SymbolEval.SolutionIsAdmissible`). Removing duplicates keeps values unless some
  tristate symbol is compared by `=` or `!=` with two different constants that one tristate value equals
  (`ExprDups.ClashFree`): with two quoted ones, or with a quoted one and with y, m or n. One constant
  alone is no clash, whatever it equals. A quoted constant on the left counts as compared with y, m and n as
  well; for the submenu test, so does a symbol that also stands alone, since it is compared with n there
  (`Submenu.ClashFreeCompared`). What other symbols are compared with is no matter.
* No expression names the symbol of a choice block: such symbols have no name.
* The prefix of a configuration line is `CONFIG_`; a file is its text.
* Where it matters, a user value of a number is one the source accepts (`SaveLoad.ProperUsers`).
* Shell output, environment, file resolution and NEEDED entries are functions of their arguments.

## Model

| member | source | states |
|---|---|---|
| Symbols.CompareLogic | scripts/kconfig/parser/expr.c:859-945 | comparing two boolean or tristate symbols, by parsing their values as numbers, compares their tristate values |
| Symbols.DenotesIsEquality | scripts/kconfig/parser/expr.c:859-945 | which tristate values compare equal to a quoted constant, through both number parsing and string comparison |
| Comparisons.TristatesCompare | scripts/kconfig/parser/expr.c:925-953 | booleans and tristates stand in each of the six relations exactly as n < m < y do |
| Comparisons.NumbersCompare | scripts/kconfig/parser/expr.c:859-953 | symbols that hold numbers, unless both are strings, stand in each of the six relations exactly as the numbers do that their texts spell digit by digit: int, hex, constants in their own base, tristates |
| Comparisons.TextsCompare | scripts/kconfig/parser/expr.c:928-953 | two strings, or symbols one of which holds no number, stand in the relations of their texts: the first difference decides, a beginning comes first |
| Comparisons.SpelledValue | scripts/kconfig/parser/expr.c:859-891 | exactly the texts that spell a number in the base are read as digits, and as that number |
| Comparisons.ValidIntIff | scripts/kconfig/parser/symbol.c:678-690 | an int is accepted exactly if it spells a number without needless zeros |
| Comparisons.ValidHexIff | scripts/kconfig/parser/symbol.c:691-699 | a hex is accepted exactly if it spells a number, with or without prefix |
| Comparisons.LeadingIsSpelled | scripts/kconfig/parser/symbol.c:144-190 | what is accepted is read for ranges as the number it spells, or the nearest of 64 bits |
| Exprs.ConnectivesMean | scripts/kconfig/parser/expr.c:905-918 | && is y if both operands are and n if one is, || the other way round, ! turns y and n about and leaves m |
| Exprs.EliminateYNPreservesValue | scripts/kconfig/parser/expr.c:267-308 | removing constant operands keeps the value in every valuation |
| Exprs.EliminateYNShrinks | scripts/kconfig/parser/expr.c:267-308 | the result is the same tree or a smaller one, with no more weight and no new symbol |
| Exprs.EliminateYNAloneIsNotNormalising | scripts/kconfig/parser/expr.c:267-308 | one call may leave a constant operand, since unchanged parents are not rebuilt |
| ExprEq.CancelCommonSound | scripts/kconfig/parser/expr.c:101-148 | both trees lose the same factor: joining it back gives their values |
| ExprEq.EliminateEqReflectsOrder | scripts/kconfig/parser/expr.c:179-199 | in every valuation, if the remainders are ordered then so are the original trees |
| ExprEq.EqualSound | scripts/kconfig/parser/expr.c:207-254 | equal expressions have the same value in every valuation |
| ExprEq.EqualOptSound | scripts/kconfig/parser/expr.c:207-218 | a missing expression equals y only, and has its value |
| ExprEq.CancelIsDifference | scripts/kconfig/parser/expr.c:101-148 | on trees of one connective, cancelling takes the multiset difference of the operands on each side |
| ExprEq.EqualIsMultisetEquality | scripts/kconfig/parser/expr.c:207-254 | two trees of one connective are equal if and only if they have the same multiset of non-constant operands, in any order and bracketing |
| ExprEq.EqualIsNotSetEquality | scripts/kconfig/parser/expr.c:201-254 | repeated operands count |
| EqualKeys.EqualIffSameKey | scripts/kconfig/parser/expr.c:207-254 | trees without constant operands are equal exactly when they have the same operands as often, whatever order and bracketing, at every depth |
| EqualKeys.EqualIsEquivalence | scripts/kconfig/parser/expr.c:207-254 | on them equality is reflexive, symmetric and transitive |
| EqualKeys.EqualIsNotTransitive | scripts/kconfig/parser/expr.c:207-254 | with constants below it is not transitive |
| ExprDups.JoinExactIff | scripts/kconfig/parser/expr.c:313-470 | a join keeps the value in all admissible valuations if and only if it is not an `=`/`!=` pair whose constants share a value of the symbol |
| ExprDups.ZeroClashesWithN | scripts/kconfig/parser/expr.c:423-435 | "0" and n are such a pair |
| ExprDups.JoinOperands | scripts/kconfig/parser/expr.c:479-524 | the pairwise walk never adds size or weight; without a join nothing changes |
| ExprDups.RoundShrinks | scripts/kconfig/parser/expr.c:537-561 | a round that joined something lowers weight, then size, then the constant on the right: the loop ends |
| ExprDups.EliminateDups | scripts/kconfig/parser/expr.c:537-561 | the loop ends on every expression with a lone constant or a tree without a constant operand, no larger than before |
| ExprDups.EliminateDupsPreservesValue | scripts/kconfig/parser/expr.c:537-561 | the value is kept in every admissible valuation, through walk, tables, equality and y/n elimination, unless one symbol is compared with two constants that share a value; one constant alone is no clash |
| ExprDups.EliminateDupsIsIdempotent | scripts/kconfig/parser/expr.c:537-561 | a second call changes nothing |
| ExprDups.EliminateDupsOfEqualUnequal | scripts/kconfig/parser/expr.c:423-435 | for the pair `(a=b) && (a!=c)` the whole elimination is exact if and only if the constants share no value of a |
| Duplicates.JoinsIff | scripts/kconfig/parser/expr.c:313-470 | two operands are joined exactly if they are equal or one of the listed pairs of comparisons of one symbol, in either order |
| Duplicates.JoinedByOr | scripts/kconfig/parser/expr.c:344-370 | what the pairs under || are joined to |
| Duplicates.SymbolJoinedByAnd | scripts/kconfig/parser/expr.c:409-424 | what a symbol and its comparison are joined to under && |
| Duplicates.EqualJoinedByAnd | scripts/kconfig/parser/expr.c:427-442 | what a = b and a != c are joined to |
| Duplicates.UnequalJoinedByAnd | scripts/kconfig/parser/expr.c:443-461 | what two != are joined to |
| Duplicates.NoDuplicatesAreLeft | scripts/kconfig/parser/expr.c:526-561 | in the result, at every && and ||, no two operands at different places are equal or one of the pairs |
| Duplicates.EachOperandIsLeftOnce | scripts/kconfig/parser/expr.c:526-561 | of a tree of one connective whose different operands form no such pair, every operand is left exactly once and nothing else |
| Duplicates.RepeatedOperandGoes | scripts/kconfig/parser/expr.c:526-561 | A && A becomes A |
| Duplicates.EarlierOperandGoes | scripts/kconfig/parser/expr.c:526-561 | A OR B OR A keeps B and the later A |
| Duplicates.StoredIsIrredundant | scripts/kconfig/parser/menu.c:313-348 | no stored condition has a redundant or constant operand |
| Rewriter.Rewriter.CancelCommon | scripts/kconfig/parser/expr.c:101-148 | the in-place walk computes the cancelling and only raises the counter |
| Rewriter.Rewriter.EliminateEq | scripts/kconfig/parser/expr.c:179-199 | updating both trees through their pointers is the function EliminateEq |
| Rewriter.Rewriter.Equal | scripts/kconfig/parser/expr.c:207-254 | the answer is that of the function, and the counter is restored |
| Rewriter.Rewriter.JoinOr | scripts/kconfig/parser/expr.c:313-376 | the comparison first, then the table of disjunctions; the counter is left alone |
| Rewriter.Rewriter.JoinAnd | scripts/kconfig/parser/expr.c:378-470 | the comparison first, then the table of conjunctions; the counter is left alone |
| Rewriter.Rewriter.JoinOperands | scripts/kconfig/parser/expr.c:479-524 | the counter goes up by the number of joins, and not by the comparisons of operands made on the way |
| Rewriter.Rewriter.EliminateDups | scripts/kconfig/parser/expr.c:537-561 | the loop on the counter computes EliminateDups and restores the counter, nested calls included |
| ExprTransform.TransformPreservesValue | scripts/kconfig/parser/expr.c:593-711 | the transformation keeps the value in every admissible valuation |
| ExprTransform.TransformReachesNNF | scripts/kconfig/parser/expr.c:593-711 | the result has negation over non-constant symbols only and no boolean compared with y, m or n |
| ExprTransform.TransformAsWrittenIff | scripts/kconfig/parser/expr.c:593-711 | the code as written has a result exactly when no boolean is compared with y by `!=`, and then the intended one |
| ExprTransform.NNFIsFixpoint | scripts/kconfig/parser/expr.c:593-711 | an expression is in that form if and only if the transformation leaves it alone; two calls are one |
| ExprTransform.EliminateDupsKeepsNNF | scripts/kconfig/parser/expr.c:537-561 | removing duplicates keeps the form |
| ExprTransform.RewriteMMeansModules | scripts/kconfig/parser/menu.c:104-128 | the constant m, rewritten, means m only with modules enabled |
| ExprTransform.PropagateIsConjunction | scripts/kconfig/parser/menu.c:313-321 | a propagated condition is worth the parent's condition and the item's own, taken together, with m read as m && MODULES |
| Submenu.TransCompareExact | scripts/kconfig/parser/expr.c:784-846 | where the symbols standing alone compare as they are worth, and nothing under a negation is m, the comparison with y or n is exact |
| Submenu.TransCompareOfSymbolExactIff | scripts/kconfig/parser/expr.c:839-840 | at a symbol alone it is exact if and only if the symbol is boolean or tristate or its text compares as n does |
| Submenu.TransCompareOfNegationExactIff | scripts/kconfig/parser/expr.c:818-822 | at a negated symbol it is exact if and only if the symbol is not m and, unless boolean or tristate, its text compares as n does |
| Submenu.TransCompareOfComparison | scripts/kconfig/parser/expr.c:788-836 | a comparison compares exactly with y, m and n, a missing condition with n |
| Submenu.TransCompareToModExactIff | scripts/kconfig/parser/expr.c:795-817 | && and || compared with m are exact if and only if they are n |
| Submenu.DependsSound | scripts/kconfig/parser/expr.c:741-768 | where an expression that depends outright on a symbol of any type is enabled, the symbol is not n, as long as it compares as it is worth |
| Submenu.DependsSoundIff | scripts/kconfig/parser/expr.c:741-768 | for every symbol and valuation: all enabled expressions that depend outright on it find it not n if and only if it is boolean or tristate or its text reads as n |
| Submenu.MovedItemIsEnabledUnderSymbol | scripts/kconfig/parser/menu.c:410-443 | an item moved under a symbol of any type is enabled only if the symbol, if it compares as it is worth, is not n (outright dependency), or only if its prompt condition is not n (superset), as long as comparing with n is exact at the negated symbols of the item and the unnegated ones of the prompt |
| Submenu.MovedItemMayEscapeUnderText | scripts/kconfig/parser/menu.c:416-421 | at every int, hex or string symbol and every text that does not read as n, an item that depends on it outright moves under it and is enabled while the symbol is n |
| Submenu.MovedItemMayEscapeUnderNegation | scripts/kconfig/parser/menu.c:410-443 | at every negated symbol and value where it is not exact there is a moved item that is enabled while the guard is n |
| Submenu.MovedItemMayEscapeBesideText | scripts/kconfig/parser/menu.c:410-443 | at every unnegated symbol and text where it is not exact there is one too, without any negation |
| Submenu.TransCompareIsTransformable | scripts/kconfig/parser/menu.c:434-435 | comparing a normal form with n brings in nothing that `expr_transform` as written fails on |
| SubmenuLaws.MentionedIff | scripts/kconfig/parser/expr.c:713-739 | a symbol is named exactly if one of the atoms is it or compares it |
| SubmenuLaws.DependsIff | scripts/kconfig/parser/expr.c:741-768 | an outright dependency is exactly an operand under && that is the symbol, or asks for y, m or not n |
| SubmenuLaws.SupersetIff | scripts/kconfig/parser/expr.c:179-199 | after cancelling the second condition comes to y exactly if it was y, or all its operands are among those of the first, a conjunction, as often |
| SubmenuLaws.MovesUnderIff | scripts/kconfig/parser/menu.c:410-443 | an item moves under a symbol exactly if it names it and depends outright or has all operands of the prompt's condition |
| SubmenuTree.LabelsByPlace | scripts/kconfig/parser/menu.c:410-416 | the test reads the condition of the last prompt of a node, and of an item without prompt its own |
| SubmenuTree.TakenItemsAreGuarded | scripts/kconfig/parser/menu.c:410-452 | whatever siblings the surgery takes as children, in every valuation each is guarded by the node, whose symbol may have any type, wherever comparing with n is exact |
| SubmenuTree.StoredConditionsAreProper | scripts/kconfig/parser/menu.c:313-348 | every stored condition is in normal form and free of clashes when the declared ones on the way to it are: the dependency test may rely on both |
| SubmenuTree.MovesAreGuarded | scripts/kconfig/parser/menu.c:295-452 | by the final stored conditions, every item that finalizing moves anywhere in the tree is guarded by the node it moves under, in every admissible valuation |
| SubmenuTree.PlacesAreGuarded | scripts/kconfig/parser/menu.c:295-494 | in the finalized tree every node stands where it was parsed, or under a node that guards it, or has been lifted from such a place past nodes without prompt |
| MenuFinalization.TestIsFinal | scripts/kconfig/parser/menu.c:413-441 | between nodes whose conditions are stored already, the dependency test on the conditions so far comes out as on the final ones |
| MenuFinalization.FinalizingInterleaves | scripts/kconfig/parser/menu.c:295-494 | one recursion that restructures, passes conditions down and tests on those stored so far ends with the conditions of the whole pass over the parsed tree and with the tree restructured by these |
| MenuFinalization.FinalizeMenus | scripts/kconfig/parser/menu.c:295-510 | that recursion on linked nodes: well-formed links, the same preorder, the final conditions, the restructured tree, and every moved item guarded |
| MenuForest.FinalizedPlaces | scripts/kconfig/parser/menu.c:295-494 | a node stands under the one it was parsed under, one it moved under, or has been lifted from there past nodes without prompt; nowhere else |
| MenuForest.NoneIsLeftBehind | scripts/kconfig/parser/menu.c:370-452 | outside choices no item is left behind a childless symbol on which it depends, among the children of any node |
| MenuForest.NoneIsLeftBehindTaken | scripts/kconfig/parser/menu.c:370-452 | nor among the items that a symbol has taken |
| MenuForest.ChoiceKeepsMembers | scripts/kconfig/parser/menu.c:385-386 | the members of a choice stay where they are |
| MenuForest.TakesTheWholeRun | scripts/kconfig/parser/menu.c:414-447 | exactly the run of siblings that depend on the symbol is taken |
| MenuForest.FinalizePreorder | scripts/kconfig/parser/menu.c:295-494 | finalizing keeps the preorder sequence of the node and its siblings, however deep the submenus and whatever is passed down and tested on the way |
| MenuForest.FinalizedTree | scripts/kconfig/parser/menu.c:507-510 | the finalized tree has the same preorder and no node but the root has children without a prompt |
| MenuConditions.Pass.VisitOneProperty | scripts/kconfig/parser/menu.c:341-361 | one property: its condition is conjoined with the node's, and a select or imply is added at its target |
| MenuConditions.Pass.VisitOne | scripts/kconfig/parser/menu.c:313-361 | one child: its condition is conjoined with the parent's before its properties are |
| MenuConditions.Pass.PropagateBelow | scripts/kconfig/parser/menu.c:302-369 | the two loops over the children, first all conditions and then all that is below, compute the pass |
| MenuConditions.FinalConditions | scripts/kconfig/parser/menu.c:302-369 | for every menu tree: each node's stored condition is worth the conjunction of its own and all its ancestors' declared conditions, with m read as m && MODULES, and each property's is worth that and its own |
| MenuConditions.FinalReverse | scripts/kconfig/parser/menu.c:350-361 | what is gathered for a symbol is worth the most that any select (or imply) of it asks: the selecting symbol, the select's condition and all above it |
| MenuLaws.ConstantMIsRewritten | scripts/kconfig/parser/menu.c:104-128 | only the constant m standing alone is rewritten, to m && MODULES |
| MenuLaws.StoredIsLeast | scripts/kconfig/parser/menu.c:302-348 | a node's stored condition is worth the least of those declared on the path from the root, a property's that or its own |
| MenuLaws.GatheredIsMost | scripts/kconfig/parser/menu.c:350-361 | what is gathered for a symbol is the most that any select (or imply) demands: the selecting symbol as far as the stored condition allows |
| Simplification.NodeIsUsed | scripts/kconfig/parser/menu.c:151-172 | a symbol has the properties of its nodes, one node after the other |
| Simplification.PropertyIsUsed | scripts/kconfig/parser/menu.c:151-172 | each property gives one prompt, default or range, in their order |
| Simplification.FinalizingKeepsSolutions | scripts/kconfig/parser/menu.c:302-369 | the configuration of the finalized tree has exactly the solutions, and writes exactly the symbols, of the one whose conditions are only conjoined and not simplified |
| Simplification.DirDepExactIff | scripts/kconfig/parser/menu.c:454 | the or-ed direct dependency allows what the most permissive definition does if and only if all definitions have conditions, none has, or one of those that have is y |
| Simplification.DefinitionWithoutConditionIsLost | scripts/kconfig/parser/menu.c:454 | any symbol defined once "depends on D" and once without, in either order, has exactly D as its direct dependency although it may be y |
| MenuTree.Finalizer.VisitChildren | scripts/kconfig/parser/menu.c:308-362 | the loop over the linked children passes the node's conditions to each in order |
| MenuTree.Finalizer.Lift | scripts/kconfig/parser/menu.c:484-492 | relinking lifts the children of a node to stand after it, under its parent |
| MenuTree.Finalizer.FlattenChildren | scripts/kconfig/parser/menu.c:456-494 | flattening while walking the changing list gives the flattened forest |
| MenuTree.Finalizer.TakeFollowing | scripts/kconfig/parser/menu.c:412-452 | the loop and the three pointer updates turn the run of siblings that depend by the conditions so far into children |
| MenuTree.Finalizer.Finalize | scripts/kconfig/parser/menu.c:295-494 | the recursion leaves well-formed links for exactly the finalized trees and the state they are finalized with, and visits each node below once, in preorder |
| MenuTree.Finalizer.FinalizeTree | scripts/kconfig/parser/menu.c:507-510 | for every menu tree: well-formed parent, next and list links, the same preorder, every node finalized once, only prompted nodes have children |
| MenuTree.LinksFollowPreorder | scripts/kconfig/parser/menu.c:28-40 | a node's links lead to where preorder goes on after its subtree |
| MenuTree.Next | scripts/kconfig/parser/menu.c:28-40 | the result is the successor in preorder, null exactly after the last; climbing ends |
| MenuTree.Walk | scripts/kconfig/parser/lkc.h:76-77 | the iteration ends after meeting every node below the root exactly once, in preorder |
| MenuTree.WriteOrder | scripts/kconfig/parser/confdata.c:860-906 | the writer's own traversal, which climbs to the end of the tree, ends after meeting every entry once, in preorder |
| Equations.SolutionExists | scripts/kconfig/parser/symbol.c:411-549 | equations whose dependencies descend have a solution |
| Equations.SolutionIsUnique | scripts/kconfig/parser/symbol.c:411-549 | and no other |
| SymbolEval.SolutionIsAdmissible | scripts/kconfig/parser/symbol.c:499-500 | calculated values keep booleans off m |
| SymbolEval.SolutionExists | scripts/kconfig/parser/symbol.c:411-549 | an acyclic configuration has values that satisfy all equations |
| SymbolEval.SolutionIsUnique | scripts/kconfig/parser/symbol.c:411-549 | and they are determined |
| SymbolEval.ValueInRangeIsTaken | scripts/kconfig/parser/symbol.c:562-577 | a user value that is accepted becomes the value |
| SymbolEval.SettingTheSameValueChangesNothing | scripts/kconfig/parser/symbol.c:586-593 | skipping recalculation for an unchanged value is right: all values stay a solution |
| ValueLaws.UserValueIsTaken | scripts/kconfig/parser/symbol.c:464-499 | a user value is taken as far as the most permissive prompt allows, and selects are added |
| ValueLaws.UnimpliedValue | scripts/kconfig/parser/symbol.c:475-500 | an unset symbol without imply has the value of the default with the least index whose condition is not n, capped by that condition, or what selects ask |
| ValueLaws.ImpliedValue | scripts/kconfig/parser/symbol.c:475-500 | an unset, implied symbol has the more of default and imply, capped by its direct dependency, or what selects ask |
| ValueLaws.ImpliedWithinDependency | scripts/kconfig/parser/symbol.c:487-491 | it is at most the more of dependency and selects, and at least the less of imply and dependency |
| ValueLaws.TextIsTaken | scripts/kconfig/parser/symbol.c:501-518 | a string or number without range is the user's, the named symbol's of the default in force, or the initial text |
| ValueLaws.RangeIsKept | scripts/kconfig/parser/symbol.c:160-190 | of the ranges the first whose condition is not n puts the text of its minimum or maximum for a number that is spelled below or above |
| ValueLaws.LogicIsWrittenIff | scripts/kconfig/parser/symbol.c:443-491 | a boolean or tristate is written exactly if it has a visible prompt, is selected or implied, or its default gives more than n |
| ValueLaws.TextIsWrittenIff | scripts/kconfig/parser/symbol.c:443-515 | any other symbol exactly if it has a visible prompt or its default in force names a symbol |
| ValueLaws.MayBeChosenIff | scripts/kconfig/parser/symbol.c:562-577 | the user may choose between what selects ask and what prompts allow, if these differ, and no m of a boolean |
| Evaluator.Evaluator.CalcExpr | scripts/kconfig/parser/expr.c:967-978 | an expression's cached or computed value is its value in the solution |
| Evaluator.Evaluator.CalcVisibility | scripts/kconfig/parser/symbol.c:212-264 | visibility, dependencies, selects and implies as the equations give them |
| Evaluator.Evaluator.ValidateRange | scripts/kconfig/parser/symbol.c:160-190 | a number outside the range in force becomes the text of the bound, bounds read in their own base |
| Evaluator.Evaluator.CalcSymbol | scripts/kconfig/parser/symbol.c:411-549 | the stored value is the solution's; no symbol in calculation, and so no placeholder, is ever read |
| Evaluator.Evaluator.Answer | scripts/kconfig/parser/symbol.c:411-560 | any sequence of queries and invalidations is answered from the one solution |
| Evaluator.Evaluator.SetTristateValue | scripts/kconfig/parser/symbol.c:579-596 | refused exactly outside the range; the flags stay correct or are all dropped |
| Digraph.NoSinkMeansCycle | scripts/bin/gen_build_chain.py:1030-1037 | a finite graph without a sink has a cycle |
| DepCheck.EnterNode | scripts/kconfig/parser/symbol.c:1323-1330 | flagging a node keeps the three-state invariant of the walk |
| DepCheck.LeaveNode | scripts/kconfig/parser/symbol.c:1330-1333 | leaving a node without error ranks it above all it depends on |
| DepCheck.Checker.CheckSymDeps | scripts/kconfig/parser/symbol.c:1214-1259 | walks every expression of a symbol; a result means a cycle |
| DepCheck.Checker.CheckChoiceDeps | scripts/kconfig/parser/symbol.c:1261-1305 | a choice and its members are walked as one node, flags restored |
| DepCheck.Checker.CheckDeps | scripts/kconfig/parser/symbol.c:1307-1336 | a symbol is returned only if a real cycle exists |
| DepCheck.Checker.CheckAll | scripts/kconfig/autogen/parser.y:599-604 | no call returns a symbol if and only if the contracted graph has no cycle |
| CheckedEval.DependencyIsChecked | scripts/kconfig/parser/symbol.c:1222-1253 | every dependency of the evaluation, range bounds aside, is among the checked expressions |
| CheckedEval.BoundedEdge | scripts/kconfig/parser/symbol.c:160-190 | with the bounds of ranges added, the edges are exactly what evaluation depends on |
| CheckedEval.OrderExistsIff | scripts/kconfig/parser/symbol.c:411-549 | an order of evaluation exists if and only if the graph with the bounds has no cycle |
| CheckedEval.CyclesBeyondTheCheck | scripts/kconfig/parser/symbol.c:1239-1253 | the cycles of that graph are those of the checked one and those closed by a bound |
| CheckedEval.CheckThenSolve | scripts/kconfig/autogen/parser.y:599-604 | after a check of all typed symbols without errors an order of evaluation exists if and only if no bound of a range closes a cycle; the configuration then has exactly one solution |
| CheckedEval.ConstantsCloseNoCycle | scripts/kconfig/parser/symbol.c:1239-1253 | bounds that are constants close none |
| CheckedEval.BoundsAreNotChecked | scripts/kconfig/parser/symbol.c:1239-1253 | two symbols, one the bound and one the default of the other, pass the check and cannot be ordered |
| ChoiceLaws.WantedIsPicked | scripts/kconfig/parser/symbol.c:310-321 | the first visible member that the user set to y is picked |
| ChoiceLaws.DefaultIsPicked | scripts/kconfig/parser/symbol.c:278-331 | without one, the default with the least index whose condition is not n and whose symbol is visible, unless the user set it to n |
| ChoiceLaws.FirstEntryIsPicked | scripts/kconfig/parser/symbol.c:288-331 | without such a default the first visible entry, unless set to n |
| ChoiceLaws.UnsetEntryIsPicked | scripts/kconfig/parser/symbol.c:333-344 | if that was set to n, the first visible entry without a user value |
| ChoiceLaws.LastMemberIsPicked | scripts/kconfig/parser/symbol.c:346-359 | and without one the visible member that stands last in the priority list |
| ChoiceLaws.NothingIsPicked | scripts/kconfig/parser/symbol.c:304-379 | where nothing is visible, nothing |
| ChoiceLaws.RefreshedUpTo | scripts/kconfig/parser/symbol.c:310-321 | visibilities are refreshed up to the first member that is visible and wanted, and all others stay |
| ChoiceLaws.DecidedValues | scripts/kconfig/parser/symbol.c:361-376 | visible entries get y if picked and n otherwise, other symbols keep their values |
| ChoiceLaws.PromotedOrder | scripts/kconfig/parser/symbol.c:604-639 | after a selection visible entries come first, the last of the menu before all others, and the rest keep their order |
| ChoiceGroup.PickIsWantedNow | scripts/kconfig/parser/symbol.c:304-327 | although refreshing stops early, the pick has the highest priority among members wanted and visible now |
| ChoiceGroup.ExactlyOneIsYes | scripts/kconfig/parser/symbol.c:329-379 | with a visible entry, exactly one is y and the others n, if and only if the default in force is not outside the block |
| ChoiceGroup.DefaultOutsideLeavesNone | scripts/kconfig/parser/symbol.c:329-334 | a default outside leaves a visible member n with none y |
| ChoiceGroup.OrderIsRecency | scripts/kconfig/parser/confdata.c:486-494 | after any sequence of assignments members stand by the time of their last assignment, the rest as before |
| ChoiceGroup.LastAssignedWins | scripts/kconfig/parser/confdata.c:486-494 | of the visible members left at y, the one assigned last is picked |
| ChoiceGroup.SelectedIsPicked | scripts/kconfig/parser/symbol.c:604-639 | after the user selects a visible member it is picked if and only if it is visible the next time |
| ChoiceBlock.Choice.CalcChoice | scripts/kconfig/parser/symbol.c:304-379 | the loops compute the refreshed visibilities, the pick and the new values |
| ChoiceBlock.Choice.SetValue | scripts/kconfig/parser/symbol.c:604-639 | user values and priority list after a selection; reports a change exactly if some visible entry differs |
| ChoiceBlock.Choice.ReadAssignments | scripts/kconfig/parser/confdata.c:420-495 | reading assignments in order leaves the last values and the recency order |
| ChoiceBlock.SelectAndCalc | scripts/kconfig/parser/symbol.c:604-639 | selecting and recalculating makes the member the only y, if it stays visible |
| Escape.UnescapeUndoesQuote | scripts/kconfig/parser/confdata.c:277-293 | reading undoes quoting for every string, whatever follows the closing quote |
| Escape.QuoteIsInjective | scripts/kconfig/parser/confdata.c:579-619 | different strings have different quotings |
| Escape.EscapeStringValue | scripts/kconfig/parser/confdata.c:579-619 | the buffer is filled with the quoted string and is exactly as long as computed |
| Escape.UnescapeInPlace | scripts/kconfig/parser/confdata.c:281-293 | moving characters down in place gives the unquoted string, fails exactly without a closing quote, stays within the old string |
| FileLaws.QuotedByCharacter | scripts/kconfig/parser/confdata.c:579-619 | a string is quoted character by character, with a backslash before quotes and backslashes only |
| FileLaws.PrintedAs | scripts/kconfig/parser/confdata.c:623-654 | the line of a symbol of each type and value |
| FileLaws.ReadLineIff | scripts/kconfig/parser/confdata.c:422-459 | a line assigns a value exactly if it has one of the two forms |
| FileLaws.ReadTristate | scripts/kconfig/parser/confdata.c:254-276 | what an assigned text comes to for booleans and tristates, refusals included |
| FileLaws.ReadText | scripts/kconfig/parser/confdata.c:277-308 | and for all others |
| FileLaws.LinesOfText | scripts/kconfig/parser/confdata.c:313-331 | any text is cut after each newline, and a carriage return before it is dropped |
| ConfFile.ReadUndoesPrint | scripts/kconfig/parser/confdata.c:623-649 | the line of a symbol reads back as its name and value; only a number that is none is rejected |
| ConfFile.SplitUndoesJoin | scripts/kconfig/parser/confdata.c:314-331 | lines without newline or trailing carriage return come back as written |
| ConfFile.PrintedLineIsSafe | scripts/kconfig/parser/confdata.c:623-649 | printed lines are such lines if the string holds no newline |
| SaveLoad.LoadAfterSave | scripts/kconfig/parser/confdata.c:408-484 | after loading a saved file a symbol has a user value exactly if it was written and valid, and the value it had |
| FileLaws.SavedInOrder | scripts/kconfig/parser/confdata.c:860-906 | each written symbol has one line, where it stands first among the entries, and there are no other lines |
| FileLaws.LastLineCounts | scripts/kconfig/parser/confdata.c:408-484 | in any file the last line that assigns a value to a symbol gives its user value; without one it has none, and nothing else changes |
| SaveLoad.SaveThenLoad | scripts/kconfig/parser/confdata.c:817-930 | saving and loading reproduces every value if and only if no visible symbol exceeds its prompt and selects and every visible number comes to itself when read and clipped again |
| SaveLoad.NumberLastsIff | scripts/kconfig/parser/symbol.c:160-190 | with bounds that are numbers of the type they bound, that is so if and only if the range in force is not empty |
| SaveLoad.SaveThenLoadText | scripts/kconfig/parser/confdata.c:817-930 | the same through the text of the file, split into lines again, when no saved name or string holds a newline |
| SaveLoad.ClippedTwice | scripts/kconfig/parser/symbol.c:160-190 | clipping a number twice is clipping it once if and only if minimum <= maximum |
| SaveLoad.UserValuesLast | scripts/kconfig/parser/symbol.c:467-475 | with user values on all visible symbols, proper bounds and no empty range, every value lasts |
| SaveLoad.EmptyRangeLosesNumber | scripts/kconfig/parser/symbol.c:160-190 | under any two bounds the wrong way round, a visible int has the text of one bound and is clipped to something else when it is read back |
| SaveLoad.DefaultMayExceedPrompt | scripts/kconfig/parser/symbol.c:479-485 | a default may |
| SaveLoad.SavedFileIsUpToDate | scripts/kconfig/parser/confdata.c:515-537 | after loading what was saved, a symbol counts as changed exactly if its value is no valid number |
| SaveLoad.SaveAgain | scripts/kconfig/parser/confdata.c:817-930 | saving the loaded configuration gives the same lines |
| SaveLoad.SavedTextReadsBack | scripts/kconfig/parser/confdata.c:314-331 | the saved text splits into the saved lines |
| SaveLoad.Configuration.Read | scripts/kconfig/parser/confdata.c:408-484 | the reading loop over the lines of a text is the function Load |
| SaveLoad.Configuration.Write | scripts/kconfig/parser/confdata.c:860-906 | the writing loop gives the text with each symbol's line once |
| SaveLoad.Configuration.WriteAndRead | scripts/kconfig/parser/confdata.c:817-930 | the round trip through the text of the file, with the same condition; the same text would be written again |
| TouchDeps.NewEntryIs | scripts/kconfig/parser/confdata.c:623-659 | what entry each symbol has in the new file |
| TouchDeps.OldEntryIs | scripts/kconfig/parser/confdata.c:459-476 | the entry of the old file is what the last line for the name says |
| TouchDeps.TouchesIfDifferent | scripts/kconfig/parser/confdata.c:990-1039 | for a defined symbol the comparison of values is a comparison of file entries |
| TouchDeps.TouchedIsChanged | scripts/kconfig/parser/confdata.c:974-1047 | exactly the names whose entry changes are touched, except names that lost their definition |
| TouchDeps.UndefinedNameIsMissed | scripts/kconfig/parser/confdata.c:303-310 | such a name exists |
| TouchDeps.Tracker.ReadOld | scripts/kconfig/parser/confdata.c:459-476 | reading the old file stores its values and touches unknown names |
| TouchDeps.Tracker.TouchDeps | scripts/kconfig/parser/confdata.c:974-1047 | the two loops touch exactly that set |
| Expansion.CloseIsBalanced | scripts/kconfig/parser/preprocess.c:476-486 | the clause of a reference is the balanced text up to its closing parenthesis, and only that |
| Expansion.PartsRejoin | scripts/kconfig/parser/preprocess.c:388-405 | the parts of a clause joined with commas are the clause |
| Expansion.PartsAreBalanced | scripts/kconfig/parser/preprocess.c:388-405 | every part is balanced and has no outer comma |
| Expansion.PartsAreUnique | scripts/kconfig/parser/preprocess.c:388-405 | there is no other such division |
| Expansion.EnterSpends | scripts/kconfig/parser/preprocess.c:264-271 | entering a variable lowers the sum of what the counters allow: expansion ends |
| Expansion.PlainText | scripts/kconfig/parser/preprocess.c:502-544 | text without references stands for itself |
| Expansion.ExpandConcat | scripts/kconfig/parser/preprocess.c:502-544 | text is expanded piece by piece |
| Expansion.CountersOnlyLimit | scripts/kconfig/parser/preprocess.c:255-281 | the counters never change a result: with fewer expansions under way a success stays the same |
| Expansion.ArgumentIsSubstituted | scripts/kconfig/parser/preprocess.c:361-370 | a number stands for the argument at that place |
| Expansion.ReferenceInvokes | scripts/kconfig/parser/preprocess.c:350-446 | a plain reference invokes its name without arguments |
| Calls.CallInvokes | scripts/kconfig/parser/preprocess.c:388-418 | a call invokes its name with what its arguments come to, in order |
| Calls.ArgumentByPlace | scripts/kconfig/parser/preprocess.c:361-418 | a user function whose body is a number gives the argument at that place, of one to fifteen |
| Calls.TooManyAreRefused | scripts/kconfig/parser/preprocess.c:388-405 | sixteen arguments or more are refused |
| Calls.SimpleAnswers | scripts/kconfig/parser/preprocess.c:255-281 | a simple variable answers its value as it stands |
| Calls.RecursiveAnswers | scripts/kconfig/parser/preprocess.c:255-281 | a recursive one the expansion of its value with the call's arguments |
| Calls.DeepVariableIsRefused | scripts/kconfig/parser/preprocess.c:264-271 | a variable in its own expansion is refused, a function beyond a thousand expansions |
| Calls.ErrorIfAnswers | scripts/kconfig/parser/preprocess.c:117-123 | error-if ends the program with its second argument exactly if the first is y |
| Calls.MessagesAnswer | scripts/kconfig/parser/preprocess.c:130-135 | warning-if and info answer with nothing |
| Calls.ShellAnswers | scripts/kconfig/parser/preprocess.c:146-184 | shell answers the output of its argument |
| Calls.PlaceAnswers | scripts/kconfig/parser/preprocess.c:125-144 | filename and lineno answer the place of the call |
| Calls.BuiltInRefuses | scripts/kconfig/parser/preprocess.c:206-223 | each built-in function refuses any other number of arguments |
| Calls.OtherNameAnswers | scripts/kconfig/parser/preprocess.c:421-437 | any other name answers from the environment without arguments, or with nothing |
| Calls.UnterminatedIsRefused | scripts/kconfig/parser/preprocess.c:476-490 | a reference without end is refused |
| Calls.TokenEnds | scripts/kconfig/parser/preprocess.c:502-544 | reading one token, expansion ends before the first character that ends it |
| Expansion.SelfReferenceIsReported | scripts/kconfig/parser/preprocess.c:264-266 | variables that refer to each other in a circle of any length are reported, from wherever it is entered, naming the first that comes up again |
| Preprocessing.Preprocessor.ExpandString | scripts/kconfig/parser/preprocess.c:502-544 | the loop expands as specified for every table and text, ends, and restores every counter |
| Preprocessing.Preprocessor.ExpandDollar | scripts/kconfig/parser/preprocess.c:460-495 | one reference, and where the text goes on |
| Preprocessing.Preprocessor.EvalClause | scripts/kconfig/parser/preprocess.c:350-446 | the value of a clause, the errors included |
| Preprocessing.Preprocessor.SplitClause | scripts/kconfig/parser/preprocess.c:388-405 | the loop cuts a balanced clause into its parts, depth never negative, and fails exactly above sixteen |
| Preprocessing.Preprocessor.VariableExpand | scripts/kconfig/parser/preprocess.c:255-281 | the counter goes up and down again around an expansion |
| Preprocessing.Preprocessor.EnvExpand | scripts/kconfig/parser/preprocess.c:66-90 | every environment variable read is recorded once, with its value |
| BuildChain.BaseNameIsBeforeAt | scripts/bin/gen_build_chain.py:1002-1023 | an internal dependency counts under what stands before its first @ sign |
| BuildChain.MissingAfter | scripts/bin/gen_build_chain.py:1018-1023 | crossing a package off lowers the count by the dependencies that became available |
| BuildChain.StuckMeansCycle | scripts/bin/gen_build_chain.py:1032-1037 | when nothing is ready and nothing is held back there is a cycle |
| BuildChain.HeldBackNeedFinally | scripts/bin/gen_build_chain.py:1026-1031 | what still waits when "finally" packages are released needs one of them, or there is a cycle |
| BuildChain.OrderedHasNoCycle | scripts/bin/gen_build_chain.py:1002-1039 | a list in dependency order has no circular dependencies |
| BuildChain.Deps.CheckCircularDep | scripts/bin/gen_build_chain.py:1002-1039 | 0 if and only if the graph is acyclic; then a permutation with every dependency earlier and "finally" packages after all that need none |
| SystemLibs.StepKeeps | scripts/bin/gen_cpk_package.py:150-202 | one name of the worklist: pending names stay distinct and apart from settled ones, needs stay served, no name is forgotten |
| SystemLibs.NothingDanglesIff | scripts/bin/gen_cpk_package.py:144-202 | no run on a system, whatever is wanted, leaves a dangling link if and only if every library that some name is found as can be found by its own name |
| SystemLibs.Package.CopyLibrary | scripts/bin/gen_cpk_package.py:162-190 | afterwards all that the library needs is settled or pending, nothing else but an interpreter was queued, and the library itself is no longer pending |
| SystemLibs.Package.ProcessSyslib | scripts/bin/gen_cpk_package.py:144-202 | ends; all wanted and needed names exist or are unknown; nothing is copied that is not reached; a link dangles exactly if its target is unknown, and never when all libraries can be found by their own names; an interpreter is chosen exactly if a copied library names one, from those named, and is settled too |
| ListHead.Insert | scripts/kconfig/include/list.h:63-71 | linking between neighbours inserts into the circle |
| ListHead.Unlink | scripts/kconfig/include/list.h:106-115 | linking the neighbours removes from the circle |
| ListHead.Add | scripts/kconfig/include/list.h:81-84 | the entry becomes the first |
| ListHead.AddTail | scripts/kconfig/include/list.h:94-97 | the entry becomes the last |
| ListHead.Delete | scripts/kconfig/include/list.h:123-128 | the entry is gone and its links are dead |
| ListHead.Move | scripts/kconfig/include/list.h:165-169 | the entry becomes the first of its list or of another, all others keep their order |
| ListHead.MoveTail | scripts/kconfig/include/list.h:176-181 | the entry becomes the last of its list or of another, all others keep their order |
| ListHead.Forwards | scripts/kconfig/include/list.h:284-287 | walking meets every entry once, in order |
| ListHead.Backwards | scripts/kconfig/include/list.h:295-298 | walking backwards meets them in reverse |
| ExprTable.OneNodePerExpression | scripts/kconfig/parser/expr.c:33-55 | without duplicate keys an expression has at most one node |
| ExprTable.OneExpressionPerNode | scripts/kconfig/parser/expr.c:33-55 | and a node one expression: comparing nodes compares expressions |
| ExprTable.Table.Relink | scripts/kconfig/include/list.h:387-396 | the pointer updates put a node before a hash chain |
| ExprTable.Table.Lookup | scripts/kconfig/parser/expr.c:33-55 | the node with the key if there is one, else a new one without cached value; no cached value changes |
| ExprTable.Table.Allocate | scripts/kconfig/parser/expr.c:57-89 | over any allocations, an expression built before is found again |
| ExprTable.Table.InvalidateAll | scripts/kconfig/parser/expr.c:983-989 | all caches are dropped and nothing else changes |
| Progress.RemoveFirstRemovesOne | scripts/progress/progress.c:357-366 | an end takes one package of that name away, if any, and no other |
| Progress.WithinShowsBar | scripts/progress/progress.c:368-380 | within the total the percentage is at most 100, 100 exactly if all are finished, and the bar is fifty columns wide |
| Progress.PackageNames | scripts/progress/progress.c:321-330 | a name loses the suffix _single, and a text is cut to 127 characters first |
| Progress.RemoveFirstTakesEarliest | scripts/progress/progress.c:357-366 | an end takes the package of its name that began first and leaves the others in place |
| Progress.FinishedAfterTotal | scripts/progress/progress.c:315-370 | with one total announced each end after it counts, until the total is reached |
| Progress.PercentIsFloor | scripts/progress/progress.c:368-380 | the percentage is rounded down; nothing is shown for other messages or without a total |
| Progress.NeverMoreThanTotal | scripts/progress/progress.c:315-341 | after every message finished is within total if and only if each total that arrives covers what is finished by then |
| Progress.AnnouncedOnceCovers | scripts/progress/progress.c:315-341 | a total announced once covers |
| Progress.OverrunIff | scripts/progress/progress.c:368-380 | when exactly the bar is cut outside its buffer |
| Progress.BarStaysInside | scripts/progress/progress.c:368-380 | over a run whose totals cover it never is |
| Progress.SmallerTotalLater | scripts/progress/progress.c:315-380 | with a smaller total announced later it is: at 200 per cent, place 100 of 52 |
| Progress.Bar | scripts/progress/progress.c:376-380 | a partial bar is cut into its two parts and the buffer is left as it was |
| Progress.Display.AddTail | scripts/progress/progress.c:60-65 | the package becomes the last, tail pointer included |
| Progress.Display.Delete | scripts/progress/progress.c:67-74 | the package is taken out, tail pointer included |
| Progress.Display.Process | scripts/progress/progress.c:315-382 | one message changes list and counters as specified, and an accepted end shows the percentage and bar of the new state |
| Progress.RunDisplay | scripts/progress/progress.c:315-382 | over any run the list is well formed, holds the packages under way, live is its length, and nothing is shown beyond the buffer when the totals cover |

## Left out

- Evaluator.Evaluator.CalcSymbol: no choice members, transitional symbols or change of the modules value during evaluation.
- SaveLoad.SaveThenLoad: no choice members; comment lines of the file are not modelled.
- CheckedEval.CheckThenSolve: configurations without choices.
- MenuConditions.Pass.PropagateBelow: runs over the tree as parsed; MenuFinalization.FinalizeMenus makes the same visits while it relinks, each by the function that Pass.VisitOne computes in place. `visible if` conditions of enclosing menus count as part of the prompt's condition, as the parser joins them on.
- Simplification.DirDepExactIff: for the definitions in any order; the source adds a symbol's own after those of the items that moved under it.
- SymbolEval.SettingTheSameValueChangesNothing: tristate values only; setting a string value always recalculates.
- Rewriter.Rewriter.EliminateDups: the counter is unbounded; the source's `int` would need more joins than memory holds nodes to wrap.
- ExprTransform.TransformPreservesValue: `E_RANGE` and `E_NONE` nodes, which stand only in range properties or nowhere, are not expressions of the model.
- MenuTree.Finalizer.Finalize: holds for any rules of visiting and testing; MenuFinalization puts in those of the source. Warnings and property checks are not modelled.
- MenuFinalization.FinalizeMenus: the root menu has no condition and no symbol of its own, as in the source. Direct dependencies are or-ed together in Simplification.
- DepCheck.Checker.CheckDeps: the stack is kept only as far as needed for printing; the printed trace is not modelled.
- TouchDeps.Tracker.TouchDeps: old entries are ones this program writes for the current types.
- Preprocessing.Preprocessor.ExpandString: `$(info)` and `$(warning-if)` print nothing; on an error the program ends, so counters are promised only for successes.
- SystemLibs.Package.ProcessSyslib: the lists kept only for reports and for setting run paths are omitted.
- Progress.Display.Process: message parsing up to the keyword and the number after `total=`, terminal and log output; `int` counters do not wrap.
- Variable definitions (`variable_add`), environment dependencies in the written command file.
- `conf_write_defconfig`, C header and Rust output, help texts, search, random configurations, terminal front ends, lexer and grammar actions, file access.
- The text processing of the Python scripts and the other tools of the repository.
