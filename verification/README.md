# Kconfig and build tools: verified model

The repository configures, builds and installs a C library. This project models the parts of it
whose correctness is not obvious from reading one function, and proves what they promise.

**Kconfig.** A configuration is a set of symbols that hold n, m or y, with n < m < y. Dependencies are
expressions over them with minimum, maximum and 2 - x. The expression code rewrites dependencies (De Morgan,
constant folding, cancelling equal operands, joining comparisons, removing contradictions), the symbol code
evaluates them with caching over a graph and checks that graph for cycles, the menu code turns a flat list of
entries into a tree by looking at dependencies, and the configuration writer walks that tree without a stack.

* `Tristates`, `Exprs` are the logic, the expressions and their value under a valuation of the symbols. A
  valuation is `Typed` if it has what the evaluator guarantees: a boolean symbol is never m, text and tristate
  agree, constants have their own text. `SymbolValues.ValuationIsTyped` shows that the values of every acyclic
  configuration are of this kind.
* `ExprTransform`, `ExprCancel`, `ExprJoin`, `ExprDups`, `ExprRounds` are the rewritings as functions on trees, with
  the theorems about them; `ExprSelfEq` says when expr_eq finds an expression equal to itself, and `ExprContradiction` has an input
  on which expr_eliminate_dups changes the value; `ExprNodes` has those of the rewritings that work on separate trees
  as the program does them, on nodes that are overwritten. One rewriting replaces "X and not X" by n, which is wrong
  when X is m. So what expr_eliminate_dups keeps is not the value but every verdict: with m below both n and y in
  Kleene's information order, the result refines the input, and where no symbol is m the value is the same.
* `SymbolDecls`, `SymbolDeps` are the dependency graph and its check: a report is made exactly if there is a
  cycle, each names a cycle, and without a report the finishing times are a rank.
* `SymbolValues` defines values by recursion along such a rank, with no cache, and shows that values that are written
  out and read back evaluate to themselves. `SymbolMeaning` says what that definition comes to: the values are the
  only ones that fit all properties. `SymbolEval` is the evaluator with its caches and the setter; both are
  proved against the definition.
* `MenuLinks`, `MenuTree` are the entries with their three links, menu_finalize and the walk; `MenuConditions` is what
  it means that entries hand their conditions down, and `MenuShape` what becomes of the shape of the tree.
* `ConfText` is the escaping of strings on writing and the unescaping in the line buffer on reading.

**Fast forms of simple things.** `Memcmp` is the comparison by words, `Primes`, `HashNodes` and `HashTables` the
chained hash table with its linked overflow entries, its list of entries to be used again and its growth to prime
sizes, `Fixdep` the scan of a source file by aligned words for CONFIG_ and the
buffer of lines that is used as a set.

**Permutation in place.** `Getopt` is the exchange of two blocks of arguments and the whole run of getopt over
argv; `GetoptForms` says what a command line reports, by the forms in which options are written.

**Arithmetic.** `Mktime` is the difference of two broken-down times and the inversion of a conversion function
by probing. `Human` is the number format that carries a rounding state through repeated division.

**A code generator.** `RpcInline` is the part of rpcgen that writes the routine for a struct. The written code is
a datatype with a meaning; the code with XDR_INLINE means what the plain code means. XDR structures are those of
section 4.14 of RFC 4506.

## How the model is built

Code that only computes is modelled by functions, and what it promises is stated in lemmas. Code with state is
modelled by classes and methods with the loops of the source, and each method is tied to a specification.
`dafny verify dfyconfig.toml` checks everything.

Some properties that one would expect are false of the code. The model keeps the code as it is, shows a concrete input
and says exactly when the property holds:

* a hash table that grew after a deletion can lose an entry: the list of entries to be used again goes to the new
  buckets and is not copied back (`HashTables.LoseEntry` is a run that ends in a chain without end). A growth leaves the
  table in order if and only if that list was empty or the entries moved so far never came from more buckets than they
  fill (`HashTables.HashTable.Insert`, `HashTables.HashTable.Rehash`); so a table in which no overflow entry has been
  deleted stays in order;
* hash_rehash with a size that is not prime misplaces entries exactly if the hasher tells that size from the prime taken
  (`HashTables.HashTable.Rehash`, `HashTables.NonPrimeSizeMisplaces`);
* expr_eq does not find every expression equal to itself: `ExprSelfEq.EqIffSelfEqual` has the condition, which only
  quoted constants can break (`ExprSelfEq.NoQuotedEqualsItself`, `ExprSelfEq.QuotedNotEqualToItself`). It is stated for
  expressions without certain negated chains, in particular for all that expr_transform leaves;
  `ExprSelfEq.NegatedChainsPair` is an expression outside these for which the condition does not decide;
* the contradiction rule does not keep m (`ExprContradiction.ContradictionLosesMod`, and for expr_eliminate_dups as a
  whole `ExprContradiction.ReducedLosesMod`); one use of it keeps the value exactly where the chain is not m
  (`ExprContradiction.ContradictionKeepsIff`), and `ExprDups.RoundRefines` says what is kept everywhere;
* expr_trans_compare is exact of a negation exactly where the negated operand is not m
  (`ExprTransform.TransCompareOfNegation`); asked for m it gives a negated symbol the opposite answer, and a conjunction
  or disjunction its own value (`ExprTransform.TransCompareMod`);
* sym_check_deps answers "none" at the outermost level even after a report (`SymbolDeps.CheckAll`);
* ranged_convert never finds the time 0 (`Mktime.RangedConvert`, `Mktime.ZeroIsMissed`);
* human_readable rounds whole results up from 11/20, not from 1/2 (`Human.NearestWholeIff`, `Human.TenFiftyFive`);
* fixdep misses a use at the very beginning of a file (`Fixdep.MissedIff`, `Fixdep.FirstIsMissed`), and the names it
  records are complete all the same exactly if that name is known already or used again (`Fixdep.NothingLostIff`);
* emit_struct falls back to plain code if all there is to inline is a last run of exactly the threshold
  (`RpcInline.WorthIff`, `RpcInline.JustThreshold`, `RpcInline.ThreeIntegers`).

expr_trans_bool keeps "is n" where no comparison that it rewrites is negated (`ExprTransform.TransBoolByParity`). The
program uses it on transformed expressions only, where that is so; `ExprTransform.TransBoolNeedsNormal` shows why the
precondition is there.

The comment above ranged_convert promises the nearest convertible time; the code's exception for 0 is what is
modelled. The threshold of 11/20 in human_readable is documented nowhere; it is modelled as it stands.

## Model

| member | source | states |
|---|---|---|
| Exprs.TwoValued | scripts/kconfig/expr.h:48-50 | where no symbol of an expression holds m, neither does the expression |
| Exprs.AllocAnd | scripts/kconfig/expr.c:53-58 | the conjunction has the smaller of the two values under every valuation, a missing expression counting as y |
| ExprTransform.Transform | scripts/kconfig/expr.c:640-775 | the rewriting terminates although De Morgan's rule adds nodes: no result is heavier than its input in a weight that counts a negation as twice its operand |
| ExprTransform.TransformKeepsValue | scripts/kconfig/expr.c:640-775 | the exact three-valued value is kept under every typed valuation |
| ExprTransform.TransformNormalises | scripts/kconfig/expr.c:640-775 | afterwards only symbols other than y, m and n are negated, and no boolean symbol is compared with y, m or n |
| ExprTransform.TransformIdempotent | scripts/kconfig/expr.c:640-775 | rewriting twice is rewriting once, and an expression is left alone if and only if it is already normal |
| ExprTransform.TransBoolKeepsNo | scripts/kconfig/expr.c:318-345 | on a negation-normal expression "is n" is kept in both directions, and the value never rises |
| ExprTransform.NoTestLeft | scripts/kconfig/expr.c:318-345 | afterwards no tristate symbol is compared with "!=n", and an expression is left alone if and only if it had no such comparison |
| ExprTransform.TransBoolRewrites | scripts/kconfig/expr.c:318-345 | where no tristate symbol is m the value is the same, negations or not |
| ExprTransform.TransBoolByParity | scripts/kconfig/expr.c:318-345 | for every expression: if no rewritten comparison stands below an odd number of negations "is n" is kept, and below an odd number itself "is y" is |
| ExprTransform.TransBoolNeedsNormal | scripts/kconfig/expr.c:318-345 | the reason for the precondition: below a negation "is n" of FOO!=n is kept if and only if FOO is not m |
| ExprTransform.TransCompareExact | scripts/kconfig/expr.c:881-940 | where no negation meets an m, the rewritten expression is y or n according to whether the original has (has not) the value y or n asked for |
| ExprTransform.TransCompareOfNegation | scripts/kconfig/expr.c:912-913 | for the negation of any operand in which no negation meets an m, it is exact if and only if the operand is not m |
| ExprTransform.TransCompareSafe | scripts/kconfig/expr.c:881-940 | compared with n the answer is never m, and "is not n" is never claimed of a negation-normal expression that is n |
| ExprTransform.TransCompareMod | scripts/kconfig/expr.c:881-940 | compared with m: exact for a symbol or a comparison, the opposite for its negation, and a conjunction or disjunction is its own answer |
| ExprCancel.EliminateYNKeepsValue | scripts/kconfig/expr.c:235-316 | stripping y and n operands keeps the value |
| ExprCancel.EliminateYNStrips | scripts/kconfig/expr.c:235-316 | no y or n operand is left; the tree shrinks if and only if there was one, and a normal tree stays normal |
| ExprCancel.CancelFactors | scripts/kconfig/expr.c:135-166 | what is cancelled is one common operand: joined with what is left of each side it gives the value of that side |
| ExprCancel.CancelMissesNone | scripts/kconfig/expr.c:135-166 | afterwards no operand of one side equals one of the other, y, n and quoted constants aside |
| ExprCancel.EliminateEqKeepsOrder | scripts/kconfig/expr.c:168-188 | what is left of two expressions compares as the originals did |
| ExprCancel.EqSound | scripts/kconfig/expr.c:193-233 | expr_eq says yes only for expressions of equal value under every typed valuation |
| ExprCancel.EqMissesConstants | scripts/kconfig/expr.c:147-149 | but not for all: a disjunction of two quoted constants is not even equal to itself |
| ExprSelfEq.LeavesOfCancelled | scripts/kconfig/expr.c:135-166 | cancelling two chains is pairing their operands from left to right, each with the first one left that is equal to it |
| ExprSelfEq.EqStripsAlike | scripts/kconfig/expr.c:193-233 | of two expressions that expr_eq finds equal both strip to y, both to n, or neither to either |
| ExprSelfEq.EqSettles | scripts/kconfig/expr.c:193-233 | an expression that is equal to another one is equal to itself, unless it is a chain that strips to its absorbing constant |
| ExprSelfEq.EqIffSelfEqual | scripts/kconfig/expr.c:193-233 | an expression is equal to itself if and only if no chain in it keeps more than a single symbol, an absorbing constant aside, when its operands are cancelled against themselves and y and n are stripped |
| ExprSelfEq.NormalEqIffSelfEqual | scripts/kconfig/expr.c:193-233 | the same for every negation-normal expression |
| ExprSelfEq.NoQuotedEqualsItself | scripts/kconfig/expr.c:193-233 | every expression without a quoted operand is equal to itself |
| ExprSelfEq.QuotedNotEqualToItself | scripts/kconfig/expr.c:147-149 | a chain with two quoted operands that does not strip to its absorbing constant is not equal to itself |
| ExprSelfEq.NegatedChainsPair | scripts/kconfig/expr.c:205-206 | two negated chains that strip to the same constant are paired with each other although one is not equal to itself |
| ExprCancel.ReducedToYesImplies | scripts/kconfig/menu.c:269-276 | if cancelling leaves y of dep2 then dep never exceeds dep2, which is what nesting an entry relies on |
| ExprCancel.ExtractFactors | scripts/kconfig/expr.c:830-879 | the common part joined with each remainder has the value of each original |
| ExprCancel.ExtractMissesNone | scripts/kconfig/expr.c:852-879 | the remainders share nothing but the constants put in place of what was taken |
| ExprJoin.JoinKeepsValue | scripts/kconfig/expr.c:350-506 | a joined operand has exactly the value of the disjunction or conjunction it replaces |
| ExprJoin.JoinShape | scripts/kconfig/expr.c:350-506 | it is a copy of the first operand or a single node, so joining never grows a tree, and it stays normal |
| ExprJoin.JoinableTests | scripts/kconfig/expr.c:350-506 | which pairs of comparisons of one tristate symbol get joined, in both directions |
| ExprJoin.JoinableSymbols | scripts/kconfig/expr.c:350-506 | which pairs are joined of a symbol, its negation and a comparison of it, and of two comparisons of a boolean symbol |
| ExprJoin.JoinableConstants | scripts/kconfig/expr.c:457-472 | a tristate symbol that equals one constant and not another: always joined |
| ExprJoin.JoinNeeds | scripts/kconfig/expr.c:350-506 | equal operands are always joined, others only if both are about one boolean or tristate symbol |
| ExprDups.Dups1KeepsValue | scripts/kconfig/expr.c:508-558 | the first pass keeps the exact value, whichever two slots of one tree its pointers start from |
| ExprDups.Dups2Refines | scripts/kconfig/expr.c:560-614 | the second pass keeps every n and y; only an m may become definite |
| ExprContradiction.ContradictionLosesMod | scripts/kconfig/expr.c:581-588 | the rule "X and not X is n" applies to an operand that is m, and turns a conjunction that is m into n |
| ExprContradiction.ContradictionKeepsIff | scripts/kconfig/expr.c:581-610 | wherever the rule, or its dual, applies to a slot of a chain, the value of the chain is kept if and only if it is not m |
| ExprDups.RoundRefines | scripts/kconfig/expr.c:624-632 | so does one round of both passes |
| ExprRounds.RoundEffect | scripts/kconfig/expr.c:624-635 | a round that counts nothing changes nothing, one that counts something leaves a y or n to strip, which is why the loop ends |
| ExprRounds.ReducedKeepsVerdicts | scripts/kconfig/expr.c:616-638 | the outcome of all rounds refines the input, a further round would change nothing, and an irreducible or normal input stays that |
| ExprContradiction.Dups1Idle | scripts/kconfig/expr.c:508-558 | if no two operands of a chain can be joined and none changes in itself, the first pass changes nothing |
| ExprContradiction.ReducedLosesMod | scripts/kconfig/expr.c:616-638 | the whole of expr_eliminate_dups turns (A or B) and (not A and not B) into n, where it is m |
| ExprRounds.IrreducibleMeans | scripts/kconfig/expr.c:508-614 | in the outcome no two operands of the root chain can be joined and none contradicts another or the chain |
| ExprRounds.OperandsIrreducible | scripts/kconfig/expr.c:528-600 | and its operands are irreducible themselves, so the same holds at every depth |
| ExprRounds.Rewriter.EliminateDups | scripts/kconfig/expr.c:616-638 | the loop computes that outcome and restores the global counter |
| ExprRounds.RefinesTwoValued | scripts/kconfig/expr.c:581-588 | keeping verdicts is keeping the value where no symbol is m |
| ExprNodes.EliminateYN | scripts/kconfig/expr.c:235-316 | overwriting nodes leaves the tree of the function, without sharing, and made of nodes of the old tree alone |
| ExprNodes.TransBool | scripts/kconfig/expr.c:321-345 | the same |
| ExprNodes.Transform | scripts/kconfig/expr.c:640-775 | the node returned is the root of the tree of the function; every other node in it is from the old tree or new, and none is shared |
| ExprNodes.Copy | scripts/kconfig/expr.c:67-102 | an equal tree of new nodes |
| ExprNodes.CancelOperands | scripts/kconfig/expr.c:135-166 | what stands behind the two pointers afterwards are the two trees of the function, still apart from each other |
| ExprNodes.EliminateEq | scripts/kconfig/expr.c:168-188 | the same for the whole elimination |
| ExprNodes.Eq | scripts/kconfig/expr.c:193-233 | the comparison by cancelling copies decides like the function and changes neither expression |
| ExprNodes.ExtractEq | scripts/kconfig/expr.c:852-879 | common part and remainders are the three trees of the function, built on the old common part, with nothing shared |
| ExprNodes.Extract | scripts/kconfig/expr.c:830-850 | the same with y and n stripped from the remainders |
| SymbolDecls.RankedHasNoCycle | scripts/kconfig/symbol.c:790-829 | a rank that falls along every dependency rules out a cycle |
| SymbolDecls.EdgesAre | scripts/kconfig/symbol.c:803-822 | the graph has an edge exactly for each symbol mentioned in the reverse dependency, in the condition of a property that is no select, or in the value of a default |
| SymbolDecls.CyclesAre | scripts/kconfig/symbol.c:790-829 | so its cycles are those of these mentions |
| SymbolDecls.SelectsMakeNoEdge | scripts/kconfig/symbol.c:808-815 | two tables that differ only in selects, and in values of properties that are no defaults, have the same cycles |
| SymbolDeps.DepChecker.CheckExpr | scripts/kconfig/symbol.c:760-788 | for an expression: either a symbol under check is met, and what has been printed leads from it to the symbol being checked, or every symbol of it is finished |
| SymbolDeps.DepChecker.CheckSymbol | scripts/kconfig/symbol.c:790-829 | the same for a symbol, at any depth of the search and from any flags the search can have left |
| SymbolDeps.CheckAll | scripts/kconfig/symbol.c:790-829 | from clear flags and over all symbols: something is reported if and only if the declarations have a cycle, by the graph and by the mentions that make its edges; every warning names a chain of dependencies that comes back to where it began; without one the finishing times fall along every dependency; the answers themselves are always "none" |
| SymbolDeps.SelectTable | scripts/kconfig/symbol.c:808-809 | config A that selects B, and B with the reverse dependency A: nothing is reported |
| SymbolValues.ValueInRange | scripts/kconfig/symbol.c:308-325 | a boolean symbol, or any symbol without module support, is never m; no symbol is below its reverse dependencies, nor above its visibility where that is higher |
| SymbolValues.ValuationIsTyped | scripts/kconfig/expr.c:942-981 | the values of an acyclic configuration form a typed valuation, and evaluating an expression is taking its value under it |
| SymbolMeaning.PartsAre | scripts/kconfig/symbol.c:193-221 | visibility is the least value that no condition of a prompt exceeds, m promoted for symbols that are not tristate; the reverse dependency is the value of its expression; the default is that of the first default whose condition is not n, or n |
| SymbolMeaning.UnsetTakesDefault | scripts/kconfig/symbol.c:306-325 | a boolean or tristate symbol never set, with an active default: the default limited by the visibility and raised to the reverse dependency, or as it stands if both are n |
| SymbolMeaning.UnsetWithoutDefault | scripts/kconfig/symbol.c:306-325 | without an active default it is what the reverse dependency demands |
| SymbolMeaning.ValueIs | scripts/kconfig/symbol.c:262-369 | the value of every symbol, also of int, hex, string and undefined ones, is the one its properties and the setting ask for, given the values of all others |
| SymbolMeaning.OneSolution | scripts/kconfig/symbol.c:262-369 | two valuations of an acyclic configuration that fit all properties agree on every symbol |
| SymbolMeaning.ValuesAreTheSolution | scripts/kconfig/symbol.c:262-369 | so any valuation that fits is the one computed |
| SymbolMeaning.UnsetFoo | scripts/kconfig/symbol.c:308-315 | config FOO, bool with a prompt, default y: y unless the user set it to n |
| SymbolValues.TransBoolKeepsProps | scripts/kconfig/menu.c:243-248 | with all conditions of a symbol rewritten, prompts show in the same cases and the same default is found |
| SymbolValues.VisibilitySurvivesTransBool | scripts/kconfig/menu.c:243-248 | the visibility of a symbol that is not tristate, as the evaluator computes it, is the same with its conditions rewritten |
| SymbolValues.RankDoesNotMatter | scripts/kconfig/symbol.c:262-369 | the values do not depend on the rank that shows them well-defined |
| SymbolValues.OnlyDependentsChange | scripts/kconfig/symbol.c:262-369 | changing the setting of one symbol changes nothing for symbols that do not depend on it, nor its own visibility, reverse dependency and default |
| SymbolValues.SettableIsExact | scripts/kconfig/symbol.c:403-420 | a value is within range, or held already, if and only if the symbol evaluates to it once it is set |
| SymbolValues.SettingSameValue | scripts/kconfig/symbol.c:432-457 | setting a symbol to the value it has changes no value at all, so the caches may stay |
| SymbolValues.ReadBackKeepsValues | scripts/kconfig/confdata.c:279-307 | if every symbol that was visible is set to the value it had, and the others to anything or nothing, every value, visibility and reverse dependency is what it was |
| SymbolEval.SymbolTable.CalcExpr | scripts/kconfig/expr.c:942-981 | with caches filled on the way the result is that of the definition without caches |
| SymbolEval.SymbolTable.CalcVisibility | scripts/kconfig/symbol.c:193-221 | the cached visibility and reverse dependency are those of the definition |
| SymbolEval.SymbolTable.GetDefaultProp | scripts/kconfig/symbol.c:120-130 | the property found is the first default whose condition is not n by the definition |
| SymbolEval.SymbolTable.CalcValue | scripts/kconfig/symbol.c:262-369 | the recursion ends, the symbol is valid, every valid symbol that is not under way holds exactly the value of the definition, and the symbol holds what its properties ask for |
| SymbolEval.SymbolTable.ClearAllValid | scripts/kconfig/symbol.c:371-381 | whatever the caches held, afterwards everything cached is right again for the present settings |
| SymbolEval.SymbolTable.SetTristate | scripts/kconfig/symbol.c:422-459 | a change is accepted if and only if it sticks; then the symbol evaluates to the new value, every symbol that does not depend on it keeps its value, and the counter of changes goes up if the value is another one; a refused change changes nothing |
| MenuTree.DependsSymbolSound | scripts/kconfig/expr.c:801-828 | an entry that passes the direct test is n wherever the symbol is |
| MenuTree.SymbolTests | scripts/kconfig/expr.c:777-828 | the two tests by what they look for: any mention of the symbol, and one of the conjuncts FOO, FOO=y, FOO=m and FOO!=n |
| MenuTree.BelongsMeans | scripts/kconfig/menu.c:263-278 | an entry that passes the whole test depends on the symbol directly, or "it is not n" implies "the other is not n" under every typed valuation |
| MenuTree.BelongsShows | scripts/kconfig/menu.c:263-278 | where no negation in the condition of the entry meets an m: if the entry is not n, neither is the symbol it depends on directly, or else the other condition |
| MenuTree.BelongsIf | scripts/kconfig/menu.c:258-278 | what is sure to pass: a mention of the symbol together with such a conjunct, or below an entry without a prompt condition, or with the prompt condition, once cleaned up, among its operands |
| MenuTree.Menus.BelongsBelow | scripts/kconfig/menu.c:264-278 | the code decides that test, in both directions |
| MenuTree.Menus.PassDown | scripts/kconfig/menu.c:231-255 | both conditions of an entry become clean conjunctions with what is handed down, without duplicates; no verdict of the conjunction is lost, where m is promoted anyhow "is n" is kept and no "!=n" is left, and where nothing is m the values are exactly the minima |
| MenuTree.Menus.PassDownAll | scripts/kconfig/menu.c:226-255 | every entry of the list gets the condition of the prompt of the entry above it, or else its dependency, handed down, exactly once: it is n wherever that is n; no other entry is touched |
| MenuTree.Menus.Nest | scripts/kconfig/menu.c:258-289 | the entries taken are the longest stretch of followers of which each passes the test; the preorder of all entries and all parent links are right afterwards |
| MenuTree.Menus.Flatten | scripts/kconfig/menu.c:290-324 | entries without a prompt give their own entries back and those with one keep them; preorder and parent links are right, and every entry that has entries shows a prompt |
| MenuShape.LiftedMeans | scripts/kconfig/menu.c:316-323 | the list afterwards has exactly the entries with a prompt as they were, the others without entries, and the entries of those |
| MenuShape.KeepsLifted | scripts/kconfig/menu.c:316-323 | what stood below an entry with a prompt, at any depth, still does |
| MenuTree.Menus.Finalize | scripts/kconfig/menu.c:205-324 | for every tree of entries: the preorder of all entries stays, every parent link is the real parent, everything below shows a prompt if it has entries, what stood below an entry with a prompt stays below it, every entry dealt with got what the one it was declared under hands down, at all depths, and nothing outside is touched |
| MenuConditions.OffWhereDeclared | scripts/kconfig/menu.c:218-256 | an entry is n wherever any entry it was declared below hands n down |
| MenuConditions.OpenExactly | scripts/kconfig/menu.c:218-256 | where nothing is m, an entry is other than n if and only if its own conditions, those of all entries it was declared below and what is handed to the whole list are |
| MenuConditions.RunMeans | scripts/kconfig/menu.c:205-324 | both for the whole run on the root |
| MenuTree.Menus.Walk | scripts/kconfig/confdata.c:423-555 | the walk by list, next and parent meets each entry below the root exactly once, in preorder |
| MenuTree.Menus.FinalizeRoot | scripts/kconfig/confdata.c:423-555 | so after menu_finalize on the root it meets the entries in the order in which they were declared; an entry is n wherever an entry it was declared below is, and where nothing is m only for that reason or because of its own conditions |
| ConfText.UnescapeEscape | scripts/kconfig/confdata.c:489-503 | unescaping undoes escaping for every string, whatever follows the closing quote |
| ConfText.EscapeMeans | scripts/kconfig/confdata.c:489-503 | a string is written with a backslash before each quote and backslash, and no other |
| ConfText.UnescapeMeans | scripts/kconfig/confdata.c:209-219 | a text reads as a string if and only if it spells its characters, with or without backslashes, and then has a quote; only what has a backslash can be a quote or a backslash |
| ConfText.ReadTextMeans | scripts/kconfig/confdata.c:171-219 | and a value, if and only if a quote opens it and that holds of what follows up to the newline |
| ConfText.WriteEscaped | scripts/kconfig/confdata.c:489-503 | the loop that writes runs of plain characters writes the escaped string |
| ConfText.UnescapeInPlace | scripts/kconfig/confdata.c:209-219 | for any contents of the buffer: success if and only if the text has a closing quote, and then the C string left there is the unescaped text; nothing before it changes |
| ConfText.ReadValue | scripts/kconfig/confdata.c:171-219 | the same from the value of the line on: up to the newline, with the opening quote demanded |
| ConfText.ReadUndoesWrite | scripts/kconfig/confdata.c:206-219 | every string without a newline that is written is read back |
| ConfText.WriteValue | scripts/kconfig/confdata.c:484-505 | the value is written between quotes, each quote and backslash of it with a backslash, with a newline behind it |
| ConfText.ReadWritten | scripts/kconfig/confdata.c:171-219 | a value without NUL or newline that was written and fetched into the line buffer is read as the string it was written for |
| Memcmp.MergeIsLoad | tools/install/lib/memcmp.c:70-70 | two neighbouring aligned words, shifted and merged, are the unaligned word between them |
| Memcmp.PartsFit | tools/install/lib/memcmp.c:70-70 | the shifted parts fill disjoint halves of the word |
| Memcmp.DiffMeans | tools/install/lib/memcmp.c:327-386 | what a comparison is for: 0 if and only if all bytes agree, else the difference of the first pair that does not |
| Memcmp.CompareWords | tools/install/lib/memcmp.c:106-123 | for two words that differ, the difference of their first differing bytes, which is not 0 |
| Memcmp.CommonAlignment | tools/install/lib/memcmp.c:134-214 | the unrolled loop, entered at any of its four points, compares like single bytes for every number of words |
| Memcmp.NotCommonAlignment | tools/install/lib/memcmp.c:224-325 | so does the loop with merged words |
| Memcmp.RplMemcmp | tools/install/lib/memcmp.c:327-386 | so does the whole function, for all lengths and all alignments of both blocks |
| Primes.CheckPrime | tools/install/lib/hash.c:379-393 | trial division by odd numbers decides primality for odd candidates from 11 on |
| Primes.PrimeAbove | tools/install/lib/hash.c:399-410 | there is a prime above every number, so the search for the next one ends |
| Primes.NextPrime | tools/install/lib/hash.c:399-410 | the prime found is the least that is not below the candidate |
| HashTables.HashTable.constructor | tools/install/lib/hash.c:437-477 | an empty table in order, of the least prime size not below the request or 10, with nothing on its list |
| HashTables.HashTable.Lookup | tools/install/lib/hash.c:192-209 | an entry is found if and only if the chain of its slot holds one that compares equal, and it is such a one; for a table in order, if and only if the set does |
| HashTables.HashTable.FindEntry | tools/install/lib/hash.c:620-683 | the slot and the first matching entry; on request exactly that entry leaves its chain, the overflow entry it was in goes to the front of the list, and no other bucket changes |
| HashNodes.HeadDeleted | tools/install/lib/hash.c:642-651 | copying the first overflow entry over the bucket head and freeing it takes the first datum out of the chain |
| HashNodes.OverflowDeleted | tools/install/lib/hash.c:669-675 | linking past an overflow entry and freeing it takes exactly its datum out of the chain |
| HashTables.HashTable.Delete | tools/install/lib/hash.c:832-846 | the set loses exactly the entry that compares equal, if there is one, the counters stay right, and so does the list |
| HashTables.HashTable.AllocateEntry | tools/install/lib/hash.c:580-601 | an overflow entry is the first one of the list, which goes on behind it, or else a new one |
| HashTables.HashTable.FreeEntry | tools/install/lib/hash.c:606-612 | an overflow entry is cleared and put in front of the list |
| HashNodes.OverflowAdded | tools/install/lib/hash.c:787-804 | an entry taken from the list and linked behind a bucket head is in that chain only, and the rest of the list and all other chains are as they were |
| HashTables.HashTable.Insert | tools/install/lib/hash.c:769-826 | an equal entry is returned and nothing changes, or the set gains exactly the new one; the table grows if and only if a new bucket makes more than four fifths of them used, to the least prime above twice its size; its buckets are in order in every case, its list after a growth if and only if it was empty or the move never crowds, and otherwise the first entry of the list is in use; an empty list stays empty |
| HashTables.HashTable.Rehash | tools/install/lib/hash.c:688-762 | each chain is what putting the entries one by one gives; the buckets are in order again if and only if the hasher does not tell the requested size from the prime taken, and the list, which is not copied back, is right if and only if it was empty or at no moment the entries moved came from more buckets than they fill |
| HashTables.HashTable.MoveBucket | tools/install/lib/hash.c:711-748 | all entries of a bucket go to the new table in their order, each freed before it is placed, and the buckets behind keep their chains |
| HashTables.HashTable.ListAfterMove | tools/install/lib/hash.c:709-750 | after the move the list of the old table is as it was, or its first entry is in use in the new one |
| HashTables.HashTable.CountsEntries | tools/install/lib/hash.c:145-172 | the entry counter of a table in order is the size of its set |
| HashTables.NonPrimeSizeMisplaces | tools/install/lib/hash.c:718-719 | a run: 12 is inserted, the table rehashed to 12 buckets, and 12 is not found again |
| HashTables.GrowAfterDelete | tools/install/lib/hash.c:709-755 | a run: 0, 11, 11 deleted, 23, 2 to 8; after the growth 23 is in the overflow entry that the list still names |
| HashTables.LoseEntry | tools/install/lib/hash.c:787-804 | the next entry of that bucket, 46, overwrites it: 23 is gone and following the links from the bucket head never ends |
| Getopt.ScanIsStable | tools/install/lib/getopt.c:461-504 | read from left to right, the arguments are an interleaving of the options with their arguments and of all others, each in their order |
| Getopt.Scanner.constructor | tools/install/lib/getopt.c:393-459 | at the start the outcome of the run is the plain reading of all arguments behind the program name |
| Getopt.FindLong | tools/install/lib/getopt.c:652-678 | the search finds the first exact name, else the only name that begins so, else says which of the two failed |
| Getopt.SwapBlocks | tools/install/lib/getopt.c:340-372 | the inner loops exchange two disjoint blocks of equal length |
| Getopt.Rotate | tools/install/lib/getopt.c:335-379 | swapping the shorter part into its place until one is empty exchanges two neighbouring blocks of any lengths |
| Getopt.Scanner.Exchange | tools/install/lib/getopt.c:307-385 | skipped arguments and options change places with both orders kept, and the outcome of the run is not affected |
| Getopt.Scanner.Advance | tools/install/lib/getopt.c:548-605 | either the next option is reached and the outcome of the run is not affected, or all options stand before optind and all other arguments from it on |
| Getopt.Scanner.LongOption | tools/install/lib/getopt.c:641-771 | the report is the first one of the remaining run, and the arguments used up are counted as options; what it is, GetoptForms says |
| Getopt.Scanner.ShortOption | tools/install/lib/getopt.c:774-971 | the same for a letter, in the middle of a cluster or at its end |
| Getopt.Scanner.GetOpt | tools/install/lib/getopt.c:517-971 | each call takes exactly the first report off what is still to come and changes nothing else about the outcome |
| Getopt.Scanner.Run | tools/install/lib/getopt.c:517-971 | the reports of a whole run are those of the plain reading, and argv ends as program name, options with their arguments and "--", then all others, with optind at the first of these |
| Getopt.GetAll | tools/install/lib/getopt.c:461-504 | from a fresh start: the reports are those of reading the arguments from left to right with nothing moved, and argv becomes a stable partition of what it was |
| GetoptForms.ArityByColons | tools/install/lib/getopt.c:915-968 | whether a letter takes an argument is decided by the colons behind its first place in the option string |
| GetoptForms.PieceRead | tools/install/lib/getopt.c:641-971 | what each written form reports: letters one by one, a letter with its argument in the same or the next argument, a long name with what follows its equals sign or with the next argument |
| GetoptForms.CommandLineRead | tools/install/lib/getopt.c:461-504 | a command line made of such pieces reports what they mean, in order, and behind "--" nothing is an option |
| GetoptForms.WrongLetterRead | tools/install/lib/getopt.c:784-797 | a letter that is no option is an error, and the letters behind it are read on |
| GetoptForms.WrongLongRead | tools/install/lib/getopt.c:679-771 | a name that is no option or the beginning of several, or a value for an option without one, is an error |
| GetoptForms.MissingValueRead | tools/install/lib/getopt.c:722-735 | a missing value is reported as a colon or a question mark, by the first character of the option string |
| GetoptForms.GetWritten | tools/install/lib/getopt.c:517-971 | calling getopt until it is done gives these reports, with the options in front of argv and everything else behind |
| Mktime.DiffIsExact | tools/install/lib/mktime.c:148-176 | the formula gives the exact difference in seconds in the calendar counted year by year, also for negative years |
| Mktime.TableIsRight | tools/install/lib/mktime.c:104-110 | the table holds the sums of the lengths of the months |
| Mktime.RangedConvert | tools/install/lib/mktime.c:196-241 | if the convertible times have no gap, the time found is the nearest one, and one is found if and only if that is not 0 |
| Mktime.ZeroIsMissed | tools/install/lib/mktime.c:231-238 | a conversion for which 0 is the nearest time and is not found |
| Mktime.RequestMeans | tools/install/lib/mktime.c:274-289 | months out of range carry into the year and days are counted right, for all values of all fields |
| Mktime.ClampIsNearest | tools/install/lib/mktime.c:290-295 | seconds out of range are replaced by the nearest ones of a minute |
| Mktime.Probe | tools/install/lib/mktime.c:301-324 | at most six probes for any conversion, and no answer only after six; a match converts to the time asked for; if the probing stops without one, the error is exactly how far the time found is off, and its tm_isdst is not the one asked for; with a clock at most two probes find the only match |
| Mktime.ProbeOtherDst | tools/install/lib/mktime.c:328-352 | if the time two hours off in the direction of the disagreement matches, it is taken; any match taken is as good as the first, the probes left are not exceeded, and a clock keeps its answer |
| Mktime.MktimeInternal | tools/install/lib/mktime.c:249-393 | at most six probes; after a match the time found converts to the time asked for, and other seconds than those found are added and converted once more, for any conversion; with a clock the result is the exact inverse for any values of the fields, within two probes, and the offset stored makes one probe enough |
| Mktime.BreakdownRight | tools/install/lib/mktime.c:245-248 | every second has a broken-down time in range |
| Mktime.ClocksExist | tools/install/lib/mktime.c:245-248 | so conversions that cover all times at a constant offset exist, for every offset |
| Mktime.InstantDetermines | tools/install/lib/mktime.c:245-248 | two broken-down times in range of the same second agree in every field but tm_isdst |
| Mktime.TargetInRange | tools/install/lib/mktime.c:245-248 | a broken-down time in range asks for its own second |
| Mktime.ReadingAnswered | tools/install/lib/mktime.c:245-248 | so what a clock converts is answered by the time it was converted from |
| Human.DivisionExact | tools/install/lib/human.c:192-199 | after each division amount, tenths and rounding state describe the scaled number exactly, for even and odd bases |
| Human.ReduceByBase | tools/install/lib/human.c:186-201 | the loop stops at the first power below the base, or the last suffix, with an exact description |
| Human.Adjust | tools/install/lib/human.c:131-181 | the number in the other block size is described exactly |
| Human.TenthRounded | tools/install/lib/human.c:205-213 | from an exact description the tenths shown are the nearest, ties going to the even one |
| Human.WholeRounded | tools/install/lib/human.c:224-226 | whole numbers are rounded up above 11/20, and at 11/20 to the even one |
| Human.HumanReadable | tools/install/lib/human.c:95-242 | the buffer reads as the number in the unit and with the rounding so described, for all numbers and block sizes: a numeral without leading zero, perhaps a point and one digit, and the letter of the power |
| Human.HumanDetermined | tools/install/lib/human.c:95-242 | these conditions leave exactly one result |
| Human.DecimalIff | tools/install/lib/human.c:205-213 | a decimal is shown if and only if there is a suffix and the number is below 9.95 of its units |
| Human.UnitFits | tools/install/lib/human.c:186-201 | with a base above ten what is shown is at least one of its unit and less than one of the next |
| Human.DecimalIsNearest | tools/install/lib/human.c:205-234 | a result with a decimal is the number rounded half to even to tenths of its unit, also where it went over into the next unit |
| Human.WholeIsClose | tools/install/lib/human.c:224-226 | a result without one is within 11/20 of its unit |
| Human.NearestWholeIff | tools/install/lib/human.c:224-226 | it is the nearest whole number if and only if the fraction is not in the stretch above 1/2 up to 11/20 |
| Human.TenFiftyFive | tools/install/lib/human.c:224-226 | 10550 in powers of 1000 is shown as 10k although 11k is nearer |
| Human.DigitsReadBack | tools/install/lib/human.c:237-239 | the digits put in front of the buffer read as the number, with no leading zero |
| Fixdep.WordTells | scripts/basic/fixdep.c:232-237 | whichever of four places CONFIG_ begins at, the aligned word gives that place |
| Fixdep.FourPlaces | scripts/basic/fixdep.c:232-237 | so looking at one word is looking for a use at four places |
| Fixdep.StandsIff | scripts/basic/fixdep.c:167-178 | searching the buffer for a name between two line ends decides membership in the set of names |
| Fixdep.Config.Grow | scripts/basic/fixdep.c:151-160 | there is room afterwards and the contents are the same |
| Fixdep.Config.Append | scripts/basic/fixdep.c:183-190 | the name and a line end follow what the buffer held |
| Fixdep.Config.Clear | scripts/basic/fixdep.c:195-199 | the set is empty, whatever the buffer held |
| Fixdep.Config.IsDefined | scripts/basic/fixdep.c:167-178 | the answer is membership in the set |
| Fixdep.Config.Use | scripts/basic/fixdep.c:204-223 | the set gains the name, and if and only if it is new its path is printed: character by character, underscores as slashes and capitals as small letters |
| Fixdep.PathMeans | scripts/basic/fixdep.c:216-220 | by character codes: a path is as long as its name, has a slash exactly for each underscore or slash, the letter 32 codes higher for each capital, and every other character as it is; no capital is left |
| Fixdep.PathsDiffer | scripts/basic/fixdep.c:216-220 | so names without small letters and slashes have different paths |
| Fixdep.RecordIsSet | scripts/basic/fixdep.c:204-223 | after any list of uses the names are those from before and each new one once |
| Fixdep.RecordInOrder | scripts/basic/fixdep.c:204-223 | the new names stand in the order of their first use |
| Fixdep.Config.UseAt | scripts/basic/fixdep.c:238-254 | a candidate place adds the name used there, without a last _MODULE, or nothing |
| Fixdep.NameRead | scripts/basic/fixdep.c:238-254 | a use as it is written: CONFIG_, a name of letters, digits and underscores, and any other character; a last _MODULE is dropped |
| Fixdep.NameUnended | scripts/basic/fixdep.c:243-247 | a name that the end of the file cuts off is no use |
| Fixdep.UsesAre | scripts/basic/fixdep.c:225-256 | the names found are those read at the places looked at |
| Fixdep.Config.Parse | scripts/basic/fixdep.c:225-256 | the scan by words records exactly the uses from the second character on, each once and in order, and prints the paths of the new ones, spelt as above |
| Fixdep.MissedIff | scripts/basic/fixdep.c:228-229 | the uses found are all uses of the file if and only if none begins it |
| Fixdep.NothingLostIff | scripts/basic/fixdep.c:228-229 | the names recorded are those of all uses of the file if and only if none begins it, or its name is recorded already or used again in the file |
| Fixdep.FirstIsMissed | scripts/basic/fixdep.c:228-229 | a file whose only use begins it, and is not recorded |
| RpcInline.SizeIsTotal | tools/sunrpc-4.0/rpc_cout.c:463-502 | the size collected for a run, constant and array terms together, is the number of words of its fields |
| RpcInline.MacrosAgree | tools/sunrpc-4.0/rpc_cout.c:747-796 | macros on the buffer and filters on the stream move the same words, element by element |
| RpcInline.RequestAgrees | tools/sunrpc-4.0/rpc_cout.c:518-552 | a request does what the filters do, whether the buffer is granted or not and whatever it held |
| RpcInline.WrittenAgrees | tools/sunrpc-4.0/rpc_cout.c:607-682 | for every field list, threshold, operation and pattern of granted buffers the routine ends in the same state, or fails, as the plain sequence of filters |
| RpcInline.NeverOverruns | tools/sunrpc-4.0/rpc_cout.c:607-682 | no macro works outside its buffer |
| RpcInline.HandledOnce | tools/sunrpc-4.0/rpc_cout.c:438-603 | each field is handled exactly once and in the order of declaration, whichever requests are granted |
| RpcInline.InlinedExact | tools/sunrpc-4.0/rpc_cout.c:438-603 | each request is for exactly the words that its macros use |
| RpcInline.WorthIff | tools/sunrpc-4.0/rpc_cout.c:631-661 | the first pass finds inlining worth while if and only if something is to be inlined, except for a last run of exactly the threshold |
| RpcInline.WorthMeans | tools/sunrpc-4.0/rpc_cout.c:631-661 | the first pass by places: a vector of a basic type, or a run of basic fields that is at least as long as the threshold, at the end longer |
| RpcInline.KindOfCode | tools/sunrpc-4.0/rpc_cout.c:607-682 | there is a list of code for each operation if and only if the threshold is not 0 and one of these is there |
| RpcInline.BasicIs | tools/sunrpc-4.0/rpc_main.c:553-560 | which fields are basic, by their types |
| RpcInline.JustThreshold | tools/sunrpc-4.0/rpc_cout.c:631-661 | a struct of exactly as many single basic fields as the threshold gets plain code, although the second pass would request a buffer |
| RpcInline.ThreeIntegers | tools/sunrpc-4.0/rpc_cout.c:631-661 | three integers and the default threshold |
| RpcInline.InlineStruct | tools/sunrpc-4.0/rpc_cout.c:438-603 | the list-walking loops write the code that these properties are about |
| RpcInline.EmitStruct | tools/sunrpc-4.0/rpc_cout.c:607-682 | so does the whole generator for a struct |

## Left out

* Choice groups and ranges: expressions of type E_CHOICE and E_RANGE, sym_calc_choice and the choice branches of
  sym_calc_value and menu_finalize depend on a state that is re-entered while only partly valid; range bounds are
  not followed by the dependency check.
* Update in place by the two passes of expr_eliminate_dups, whose two pointers lead into one tree: there a tree is a
  value, a `struct expr **` is a path into it, and a function gives the tree that the pointer code leaves behind.
  Freeing of nodes and failing allocation are not captured; expr_eliminate_eq does not raise the counter of
  rewritings, which its callers reset.
* The flags SYMBOL_WRITE and SYMBOL_CHANGED, the cached `prop->visible.tri`, and the text of configuration output
  other than string values.
* The first evaluation of the symbol for module support: modules_val is what that symbol evaluates to, and stays so.
- SymbolEval.SymbolTable.CalcValue: has no choice groups, no validation of ranges, and no flags SYMBOL_WRITE and
  SYMBOL_CHANGED.
- SymbolEval.SymbolTable.SetTristate: asks for a symbol that is up to date, is no choice and that module support
  does not depend on; a change of module support alters the type of every tristate symbol.
- MenuTree.Menus.PassDown: of the properties of a symbol only the prompt gets its condition, and reverse dependencies
  are not built; nor are warnings given.
- MenuTree.Menus.Flatten: has no choice groups, so the branch for their values is not there.
- MenuTree.Menus.Finalize: choice groups and reverse dependencies are left out as above.
- ConfText.ReadWritten: a line of 1024 characters or more is cut by the buffer of the program and not read back.
- SymbolValues.ReadBackKeepsValues: starts from the settings that reading leaves; the lines for int and hex values,
  and the module symbol, are taken to carry the value over.
* Big-endian machines in memcmp, and words of other than eight bytes.
* hash_clear, hash_free and hash_get_next, and failing allocation. What happens to a table whose list is wrong after
  a growth is shown in the run of `HashTables.LoseEntry` only; insertion and deletion ask for a table in order.
* getopt with an option string that begins with + or -, POSIXLY_CORRECT, getopt_long_only, "W;", messages, optopt,
  and a caller who changes optind between calls.
- Mktime.MktimeInternal: of the time returned when the probes oscillate around a gap only what Probe states; integers
  are unbounded, so wrap-around and the check for major overflow in floating point are not modelled.
- Human.HumanReadable: integers are unbounded, so the floating-point branch after an overflow is not modelled.
- Fixdep.Config.Use: a name may have any length, while the program copies it into a buffer of PATH_MAX bytes;
  characters are classified as in the C locale.
* In rpcgen, the filters and macros of the XDR library are not part of this repository: a filter and a macro of the
  same basic type are taken to move the same word. Other output of rpcgen is formatting.
* Dialogs and front ends, files, processes and environment, fnmatch, getdate and the smaller library functions: they
  are input and output, or stand alone.
