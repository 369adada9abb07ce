# Verified models of the K230 SDK's build and boot logic

This project models the parts of the K230 SDK that decide what is built and what is booted, and
proves what they promise:

- **Kconfig** (`tools/kconfig`): the optimiser for dependency expressions, a small compiler over a
  three-valued logic that rewrites trees against themselves; its use in menus; the memoising symbol
  evaluator and the depth-first cycle checker in front of it; choices; string values in `.config`.
- **genimage** (`tools/genimage`): the dependency-ordered driver, the partition allocator and the
  image writer of `image-hd.c`, the hole-aware copier of `util.c`, the Android sparse encoder with
  its back-patched chunk headers, and the table-driven CRC-32, table included.
- **U-Boot** (`src/uboot/uboot/boot`): the device-tree region finder, the resumable bootflow
  iterator, and the persistent A/B slot selector.

One module per component. Code made of expressions and recursion is modelled by datatypes,
functions and lemmas; objects that the source updates step by step are classes whose methods are
proved against a specification function or an invariant. Integers are unbounded unless a width
matters (`RoundUp` wraps as in C, header fields are cut to their bytes, CRC words have 32 bits).

The main results:

1. `expr_eliminate_dups`, walking a tree against itself through aliased slots, keeps the value under
   every valuation, terminates because every productive pass shrinks the tree, and leaves no pair of
   operands that could still be joined (`KconfigInPlace.ExprStore.Eliminate`,
   `KconfigDups.EliminateDupsCorrect`, `KconfigDups.EliminateDupsComplete`); none of those operands is
   another one in different order or grouping (`KconfigEqExact.EqExact`, `KconfigEqComplete.NoPermutedOperands`).
2. Whatever order symbols are requested in, the cache agrees with the plain recursive definition, and
   the checker reports no error exactly when that definition makes sense
   (`KconfigEvaluator.SymbolTable.CalcAll`, `KconfigCheck.DepChecker.CheckAll`,
   `KconfigProgram.CheckAndEvaluate`).  What a value is follows from rules about prompts, user values,
   defaults, imply and select that say nothing of how it is computed (`KconfigRules.MeetsExact`).
3. In every layout that `hdimage_setup` accepts, entries are disjoint up to declared holes, and every
   child image reads back byte for byte outside its own holes after all tables have been written
   (`HdLayout.HdImage.Setup`, `HdWriter.Generate`, `HdWriter.Build`).  Each entry is at the one place that the
   rules give it behind the entries before it (`HdPlaces.PlaceUnique`), and a list of sizes without offsets
   is always accepted (`HdSequence.SequencePlanned`).
4. A reader that parses the header of the sparse format gets back the padded input, its block and chunk
   counts, and its checksum, and no two neighbouring chunks could be one (`SparseImage.Generate`, `CrcTable.CrcNext`).
5. The regions of `fdt_find_regions` are exactly the maximal runs of covered bytes, or the first of
   them if the array is too small (`FdtRegions.FindRegions`); one bootflow scan is a nested loop over
   bootdevs, partitions and bootmeths (`Bootflow.Iter.Scan`), and the attempts that this loop is meant to
   make are given without it (`BootflowExact.IntendedExact`); with no slot known to boot, exactly as many
   calls return a slot as there are tries (`AndroidAb.ExactlyTheTries`).

Where the code does not do what it is meant to do, the model follows the code, a lemma exhibits the
failure at an input, and another gives the exact condition under which the promise holds:

- `expr_join_and` compares constants by address, but comparisons read numerals as numbers: the rule
  for `(a=b) && (a!=c)` is wrong exactly when both constants read as the same tristate value
  (`KconfigDups.NumeralFails`, `KconfigDups.ConstantRuleExact`). For any set of constants that tristate
  symbols may be compared with, `expr_eliminate_dups` keeps the meaning of all expressions exactly if
  the set has no numeral for a tristate value (`KconfigDups.EliminateDupsExact`); in any case it keeps
  the value wherever no tristate symbol has the value of a numeral it is compared with
  (`KconfigDups.EliminateDupsValue`).
- `expr_eq` counts operands, although its comment says that each operand of one side must only occur on
  the other: `A && A && B` is not equal to `A && B` (`KconfigEqExact.RepetitionCounts`).  The two
  agree exactly for levels in which no operand occurs more often on one side (`KconfigEqExact.DescribedExact`).
- `expr_trans_compare` answers "not n" by a stricter reading, in which a negated m is n
  (`KconfigTransform.TransCompareRight`). So the superset rule for automatic submenus can move an entry
  below a symbol whose prompt is invisible (`KconfigMenu.SubmenuNeedsCondition`). It is sound for an
  entry exactly when the entry is nowhere visible by a negated m alone, or when its condition does not
  simplify to a conjunction, in which case only prompts that are always visible pass
  (`KconfigSubmenu.SupersetExact`).
- `insert_image` fills a trailing hole of the copied file with the pad byte instead of zeros
  (`GenimageFile.TrailingHoleLost`, `GenimageFile.InsertImageExact`).
- `hdimage_generate` rejects its own output when the length announced by `hdimage_setup` is wrong, as it
  is for every MBR image of partitions without images (`HdWriter.EmptyPartitionRejected`,
  `HdWriter.EmptyPartitionComplete`); `HdWriter.Generate` gives the exact condition.
- `hdimage_setup` counts the table entries but does not bound them: a GPT image with any number of
  entries is accepted, while the table has room for 128 (`HdTables.AnyNumberAccepted`,
  `HdTables.OverrunRow`); filling it stays inside exactly with at most 128 (`HdTables.FillGpt`).
- `hdimage_setup` reports a partition alignment that is not a multiple of the image's, but goes on: a
  partition at byte 1000 is accepted, and its MBR entry says that it starts at byte 512
  (`HdTables.CrookedAccepted`).  A table entry says where its partition is exactly if the partition starts and
  ends with a sector (`HdTables.SlotExact`).
- `android_sparse_generate` tests the size of extents before they are merged
  (`SparseExtents.AlignExtents` gives the exact condition of its refusal), so an image whose extents
  touch can pass with a chunk whose 32-bit size wraps around, and cannot be read back
  (`SparseImage.TouchingExtentsFail`). It reads back whenever no run of touched blocks is too long for
  a chunk, and a run without fill blocks that is too long never does (`SparseImage.Generate`).
- `ab_select_slot` passes over a slot that has booted successfully once its tries are used up, although
  the comment above the loop says otherwise (`AndroidAb.DocumentedFails`). It returns what the comment
  describes exactly when every such slot loses against a bootable one (`AndroidAb.DocumentedExact`).
- A string value with a newline is written but not read back (`KconfigConfdata.RoundTrip`).
- In the bootflow scan, an attempt that returns -ENODEV ends the whole scan
  (`BootflowLoops.NoDeviceFails`), and a global bootmeth that reports "no more partitions" skips a bootdev
  (`BootflowLoops.GlobalCutFails`). The scan tries what the nested loops are intended to try exactly when
  none of those attempts but the last is of either kind (`BootflowLoops.ScanExact`).

Reading order: `KconfigExpr`, `KconfigEq`, `KconfigSlots`, `KconfigDups`, `KconfigInPlace`,
`KconfigTransform`, `KconfigEqExact`, `KconfigEqComplete`, `KconfigMenu`, `KconfigSubmenu`, `KconfigSymbols`,
`KconfigRules`, `KconfigEvaluator`, `KconfigCheck`, `KconfigProgram`, `KconfigChoice`, `KconfigConfdata`;
`GenimageFile`, `HdPlaces`, `HdLayout`, `HdSequence`, `HdWriter`, `HdTables`, `GenimageDriver`, `Crc32`, `CrcTable`,
`SparseFormat`, `SparseExtents`, `SparseWriter`, `SparseImage`; `FdtRegions`, `BootflowLoops`, `BootflowExact`,
`Bootflow`, `AndroidAb`. `Common` holds what they share.

`dafny verify dfyconfig.toml` checks everything.

## Model

| member | source | states |
|---|---|---|
| `KconfigExpr.EliminateYnValue` | canmv_k230/tools/kconfig/expr.c:316-397 | removing y and n operands keeps the value under every valuation |
| `KconfigExpr.EliminateYnShrinks` | canmv_k230/tools/kconfig/expr.c:316-397 | the tree never grows, and shrinks whenever some AND has an operand y or some OR an operand n |
| `KconfigExpr.EliminateYnComplete` | canmv_k230/tools/kconfig/expr.c:316-397 | no y or n is left as an operand |
| `KconfigEq.EqSound` | canmv_k230/tools/kconfig/expr.c:252-303 | expressions that `expr_eq` calls equal have the same value everywhere |
| `KconfigEqExact.EqExact` | canmv_k230/tools/kconfig/expr.c:246-303 | on expressions without y and n operands `expr_eq` is equality up to the order and the grouping of operands, as bags, at every level |
| `KconfigEqExact.EqSwapped` | canmv_k230/tools/kconfig/expr.c:246-251 | `a && b` equals `b && a`, whatever the operands; so for OR |
| `KconfigEqExact.EqRegrouped` | canmv_k230/tools/kconfig/expr.c:246-251 | `a && (b && c)` equals `(a && b) && c`; so for OR |
| `KconfigEqExact.StrikeExact` | canmv_k230/tools/kconfig/expr.c:150-190 | striking leaves on each side the bag of operands that the other side does not have as often |
| `KconfigEqExact.DescribedExact` | canmv_k230/tools/kconfig/expr.c:246-251 | `expr_eq` of two levels says what its comment says if and only if, where the operands are the same, no operand occurs more often on one side |
| `KconfigEqExact.RepetitionCounts` | canmv_k230/tools/kconfig/expr.c:246-251 | an operand written twice on one side: the comment calls the two levels equal, `expr_eq` does not |
| `KconfigEqExact.SupersetOperands` | canmv_k230/tools/kconfig/expr.c:221-244 | the second side is left as y exactly if the first is a conjunction that has all operands of the second, as often, up to order and grouping |
| `KconfigEq.StrikeEqFactor` | canmv_k230/tools/kconfig/expr.c:150-190 | what is struck from the two sides is one and the same operand, whatever was struck where |
| `KconfigEq.EliminateEqImplies` | canmv_k230/tools/kconfig/expr.c:221-244 | if the second side is left as y, the first side was nowhere above the second |
| `KconfigEqComplete.EqReflexive` | canmv_k230/tools/kconfig/expr.c:252-303 | every expression, y and n operands included, equals itself, though equality is decided by striking operands from two copies |
| `KconfigEqComplete.NoDuplicateOperands` | canmv_k230/tools/kconfig/expr.c:664-686 | no operand occurs twice in a level of a deduplicated expression, whatever its form |
| `KconfigEqComplete.NoPermutedOperands` | canmv_k230/tools/kconfig/expr.c:664-686 | in a deduplicated normal form no two operands of a level are the same up to order and grouping, and so on inside the operands |
| `KconfigEqComplete.TestsJoin` | canmv_k230/tools/kconfig/expr.c:431-587 | two different tests of one tristate symbol against y, m, n are joined exactly if both are equalities under OR, or one is an inequality under AND; the result is such a test or n |
| `KconfigEqComplete.SymbolJoin` | canmv_k230/tools/kconfig/expr.c:520-536 | a symbol and a test of it are joined exactly under AND and for `a=y`, `a!=m` and `a!=n`, in either order |
| `KconfigEqComplete.JoinAbout` | canmv_k230/tools/kconfig/expr.c:431-587 | apart from equal operands, only operands about one and the same bool or tristate symbol are joined |
| `KconfigEqComplete.NoJoinableTests` | canmv_k230/tools/kconfig/expr.c:664-686 | side by side in the result, tests of one tristate symbol differ; under OR one of them is an inequality, under AND all are equalities |
| `KconfigDups.ConstantRuleExact` | canmv_k230/tools/kconfig/expr.c:540-553 | the rule for `(a=b) && (a!=c)` keeps the meaning if and only if b and c do not read as the same tristate value |
| `KconfigDups.JoinSound` | canmv_k230/tools/kconfig/expr.c:431-587 | a joined operand together with the unit has the value of the two operands it stands for |
| `KconfigDups.Dups1Correct` | canmv_k230/tools/kconfig/expr.c:596-651 | a pass over a tree against itself keeps the value, changes nothing unless it counts a join, and leaves a unit behind if it does |
| `KconfigDups.ProductivePassShrinks` | canmv_k230/tools/kconfig/expr.c:664-686 | a pass that joins anything, followed by `expr_eliminate_yn`, lowers the node count: the loop terminates |
| `KconfigDups.EliminateDupsValue` | canmv_k230/tools/kconfig/expr.c:664-686 | for every expression, the result has the value of the original under every valuation in which no tristate symbol has the value of a numeral it is compared with |
| `KconfigDups.EliminateDupsCorrect` | canmv_k230/tools/kconfig/expr.c:664-686 | without numerals in tests of tristate symbols the meaning is kept altogether, and so is normal form |
| `KconfigDups.NumeralFails` | canmv_k230/tools/kconfig/expr.c:540-546 | `A=b && A!=c`, which is always n for a numeral c that reads as b (`A=n && A!=0`), is simplified to `A=b` |
| `KconfigDups.EliminateDupsExact` | canmv_k230/tools/kconfig/expr.c:540-686 | for every set of constants, all expressions comparing tristate symbols with these, y, m and n only keep their meaning if and only if no constant of the set is a numeral for a tristate value |
| `KconfigDups.EliminateDupsComplete` | canmv_k230/tools/kconfig/expr.c:664-686 | no two operands of a level of the result can be joined any more |
| `KconfigDups.EliminateDupsStable` | canmv_k230/tools/kconfig/expr.c:664-686 | the result is a fixpoint of the pass |
| `KconfigInPlace.ExprStore.EliminateDups1` | canmv_k230/tools/kconfig/expr.c:596-651 | in place, on two slots of one tree that may coincide, it computes the pass and raises `trans_count` by the number of joins |
| `KconfigInPlace.ExprStore.Eliminate` | canmv_k230/tools/kconfig/expr.c:664-686 | the loop on the global counter computes the deduplicated expression and restores the counter |
| `KconfigTransform.Transform` | canmv_k230/tools/kconfig/expr.c:694-849 | the result is in negation normal form with no test of a bool symbol left; a normal form is left alone |
| `KconfigTransform.DeMorgan` | canmv_k230/tools/kconfig/expr.c:794-811 | the measure of termination: De Morgan's law grows the tree but lowers what lies below negations |
| `KconfigTransform.TransformValue` | canmv_k230/tools/kconfig/expr.c:694-849 | the value is kept under every valuation |
| `KconfigTransform.TransformFixpoint` | canmv_k230/tools/kconfig/expr.c:694-849 | exactly the normal forms are left alone, so the pass is idempotent |
| `KconfigTransform.TransBoolKeepsN` | canmv_k230/tools/kconfig/expr.c:402-426 | on normal forms the value is n exactly where it was, and nowhere rises |
| `KconfigTransform.TransBoolNeedsNormal` | canmv_k230/tools/kconfig/menu.c:379-385 | why the pass comes after `expr_transform`: on `!(A!=n)`, which is not in normal form, it turns an n into an m |
| `KconfigTransform.TransCompareExact` | canmv_k230/tools/kconfig/expr.c:922-985 | compared with y or n, on any expression: the result says whether the value equals it, as long as no negated operand is m |
| `KconfigTransform.TransCompareSafe` | canmv_k230/tools/kconfig/expr.c:922-985 | on normal forms the answer "not n" is never given where the value is n |
| `KconfigTransform.TransCompareLiteral` | canmv_k230/tools/kconfig/expr.c:922-985 | the smallest failing shape: for `!A` the answer "not n" is right if and only if A is not m |
| `KconfigTransform.TransCompareStrict` | canmv_k230/tools/kconfig/expr.c:922-985 | under every valuation, compared with n, the result is y or n according to the strict value, in which a negated m is n |
| `KconfigTransform.TransCompareRight` | canmv_k230/tools/kconfig/expr.c:922-985 | the answer "not n" is right if and only if the value is n wherever the strict value is |
| `KconfigTransform.StrictBelow` | canmv_k230/tools/kconfig/expr.c:922-985 | the strict value is nowhere above the value, and is the value where no negated operand is m |
| `KconfigTransform.ContainsSymbolFrame` | canmv_k230/tools/kconfig/expr.c:851-877 | an expression that does not contain a symbol does not see a change of it |
| `KconfigTransform.ContainsSymbolExact` | canmv_k230/tools/kconfig/expr.c:851-877 | a symbol is found if and only if it is a term of the expression or a side of a comparison in it |
| `KconfigTransform.DependsSymbolSound` | canmv_k230/tools/kconfig/expr.c:879-906 | an absolute dependency is n wherever the symbol is, and contains the symbol |
| `KconfigEqExact.DependsSymbolExact` | canmv_k230/tools/kconfig/expr.c:879-906 | a symbol is an absolute dependency if and only if it, `s=y`, `s=m` or `s!=n` is an operand of the conjunction |
| `KconfigMenu.RewriteMValue` | canmv_k230/tools/kconfig/menu.c:83-106 | rewriting `m` is evaluating with `m` worth no more than MODULES |
| `KconfigMenu.PropagateMeaning` | canmv_k230/tools/kconfig/menu.c:335-339 | the four passes together compute the minimum of the parent's dependency and the child's own |
| `KconfigMenu.PathMeaning` | canmv_k230/tools/kconfig/menu.c:330-339 | along a path of nested entries the final dependency is the minimum of the conditions of all of them |
| `KconfigMenu.CollectedMeaning` | canmv_k230/tools/kconfig/menu.c:391-399 | rev_dep and implied are the maximum over all selects and implies of the minimum of symbol and condition |
| `KconfigMenu.PropertyVisibility` | canmv_k230/tools/kconfig/menu.c:379-385 | a property of an entry that is not tristate is n exactly where the parent's or its own condition is |
| `KconfigMenu.SubmenuSound` | canmv_k230/tools/kconfig/menu.c:435-475 | an entry moved below a symbol is n wherever the symbol is, or strictly n wherever its prompt is n; so it is invisible there unless a negated operand is m |
| `KconfigMenu.SubmenuNeedsCondition` | canmv_k230/tools/kconfig/menu.c:450-470 | an entry that passes the superset rule and is visible where the prompt is not, with a negated m |
| `KconfigSubmenu.NotNCrisp` | canmv_k230/tools/kconfig/menu.c:459-460 | what the superset test compares is never m, has no y or n inside and nothing left to join |
| `KconfigSubmenu.SelfSuperset` | canmv_k230/tools/kconfig/menu.c:459-470 | a condition that simplifies to a conjunction passes the test against itself as a prompt condition |
| `KconfigSubmenu.SupersetMeans` | canmv_k230/tools/kconfig/menu.c:450-470 | the superset test passes exactly if the compared condition of the entry is a conjunction with all operands of the prompt's, as often, up to order and grouping |
| `KconfigSubmenu.OnlyTrivial` | canmv_k230/tools/kconfig/menu.c:459-470 | against anything that is no conjunction only a prompt condition that is always y passes |
| `KconfigSubmenu.SupersetExact` | canmv_k230/tools/kconfig/menu.c:450-470 | the superset rule is sound for an entry, whatever the prompt, if and only if the entry is nowhere visible by a negated m alone or its test is no conjunction |
| `KconfigSubmenu.DisjunctionHarmless` | canmv_k230/tools/kconfig/menu.c:450-470 | an entry that is visible by a negated m alone and for which the rule is sound all the same |
| `KconfigSymbols.ComputeLocal` | canmv_k230/tools/kconfig/symbol.c:1121-1161 | everything the evaluation of a symbol depends on is an edge of the graph the checker walks |
| `KconfigSymbols.PlainSolves` | canmv_k230/tools/kconfig/symbol.c:324-466 | the recursive definition solves all symbols' equations at once |
| `KconfigSymbols.SolutionUnique` | canmv_k230/tools/kconfig/symbol.c:324-466 | any solution of the equations is the recursive one, whatever the ranking |
| `KconfigSymbols.PlainBounds` | canmv_k230/tools/kconfig/symbol.c:379-412 | a value is at least its select bound, never m for a symbol that is bool in effect, and a user value lifts it no higher than visibility or select |
| `KconfigRules.MeetsExact` | canmv_k230/tools/kconfig/symbol.c:324-466 | the fields `sym_calc_value` computes are the only ones that obey these rules: visibility is that of the most visible prompt; a user value of a visible symbol counts up to its visibility; otherwise the first active default, or n, joined with the imply bound and capped by the dependency; always joined with the select bound; m becomes y for bool |
| `KconfigRules.PlainMeets` | canmv_k230/tools/kconfig/symbol.c:324-466 | the plain recursive values obey the rules in the valuation they define together |
| `KconfigRules.EdgeMeans` | canmv_k230/tools/kconfig/symbol.c:1121-1161 | the checker follows an edge exactly to the symbols found in the dependencies, selects, implies, conditions and default values |
| `KconfigSymbols.PlainEnvProper` | canmv_k230/tools/kconfig/symbol.c:411-412 | the computed values meet what the expression passes assume: no bool symbol is m |
| `KconfigEvaluator.SymbolTable.CalcExpr` | canmv_k230/tools/kconfig/expr.c:1030-1102 | the value under the plain valuation; only lower symbols become valid, with their plain values |
| `KconfigEvaluator.SymbolTable.CalcVisibility` | canmv_k230/tools/kconfig/symbol.c:176-237 | visibility, direct dependency, select and imply bounds of the plain valuation, nothing else changed |
| `KconfigEvaluator.SymbolTable.CalcDefault` | canmv_k230/tools/kconfig/symbol.c:82-92 | the first active default, evaluated |
| `KconfigEvaluator.SymbolTable.CalcValue` | canmv_k230/tools/kconfig/symbol.c:324-466 | the symbol gets the value of the plain definition, which obeys the rules of `KconfigRules.Meets`; valid symbols keep theirs |
| `KconfigEvaluator.SymbolTable.ClearAllValid` | canmv_k230/tools/kconfig/symbol.c:468-477 | all symbols lose SYMBOL_VALID and MODULES is evaluated again; whatever is valid then has its plain value, and nothing else changed |
| `KconfigEvaluator.SymbolTable.CalcAll` | canmv_k230/tools/kconfig/symbol.c:324-466 | requests in any order, on any partly evaluated table, find the plain values, and the fields found obey the rules for prompts, user values, defaults, imply and select |
| `KconfigCheck.AcyclicHasNoCycle` | canmv_k230/tools/kconfig/symbol.c:1206-1235 | a ranking of the symbols excludes every cycle |
| `KconfigCheck.OrderedIsAcyclic` | canmv_k230/tools/kconfig/symbol.c:1206-1235 | an order in which all checks have ended is such a ranking |
| `KconfigCheck.DepChecker.CheckExpr` | canmv_k230/tools/kconfig/symbol.c:1086-1118 | a symbol returned lies on a real cycle; otherwise all symbols of the expression are finished |
| `KconfigCheck.DepChecker.CheckSymDeps` | canmv_k230/tools/kconfig/symbol.c:1121-1167 | the same for all dependencies of a symbol; flags and stack are as before |
| `KconfigCheck.DepChecker.CheckDeps` | canmv_k230/tools/kconfig/symbol.c:1206-1235 | terminates; a result means a real cycle, none means the symbol is finished |
| `KconfigCheck.DepChecker.CheckAll` | canmv_k230/tools/kconfig/parser.y:505-508 | no symbol reports an error if and only if the dependency graph is acyclic |
| `KconfigProgram.PlainIsSolution` | canmv_k230/tools/kconfig/symbol.c:324-466 | acyclic dependencies give all symbols' rules a common solution |
| `KconfigProgram.RankIrrelevant` | canmv_k230/tools/kconfig/symbol.c:324-466 | the solution of the rules does not depend on the order that shows the graph acyclic |
| `KconfigProgram.CheckAndEvaluate` | canmv_k230/tools/kconfig/parser.y:505-511 | checker and evaluator together: an error if and only if the graph is cyclic, otherwise values that obey the rules at every symbol, and no others do |
| `KconfigChoice.MemberVisibleYn` | canmv_k230/tools/kconfig/symbol.c:188-206 | below a choice that is y a member is fully visible or not at all |
| `KconfigChoice.MemberVisibleExact` | canmv_k230/tools/kconfig/symbol.c:188-206 | visible exactly by a prompt that is y, or one that is m unless the member is tristate |
| `KconfigChoice.DefaultPick` | canmv_k230/tools/kconfig/symbol.c:245-269 | a pick is a visible member, and there is none only if no member is visible; which one is said by `DefaultPicked` |
| `KconfigChoice.DefaultPicked` | canmv_k230/tools/kconfig/symbol.c:245-269 | the pick is the member of the first default with an active condition and a visible member; without one the first visible member |
| `KconfigChoice.Choice.Default` | canmv_k230/tools/kconfig/symbol.c:245-269 | the two loops compute that pick |
| `KconfigChoice.Choice.CalcChoice` | canmv_k230/tools/kconfig/symbol.c:271-301 | the choice stays y if and only if a member is visible; a visible user choice wins, otherwise the pick by the defaults |
| `KconfigChoice.Choice.Resolve` | canmv_k230/tools/kconfig/symbol.c:375-377 | if the choice is y exactly one member is y, the visible user choice or the pick by the defaults, and all others are n; if it falls to n all are n |
| `KconfigConfdata.EscapedLength` | canmv_k230/tools/kconfig/confdata.c:625-636 | the length computed is that of the escaped string with its quotes and NUL |
| `KconfigConfdata.EscLength` | canmv_k230/tools/kconfig/confdata.c:625-636 | escaping adds one character for each quote and each backslash |
| `KconfigConfdata.EscapeStringValue` | canmv_k230/tools/kconfig/confdata.c:619-659 | the buffer of that length is filled exactly and never overrun |
| `KconfigConfdata.Unquote` | canmv_k230/tools/kconfig/confdata.c:251-261 | the in-place loop with memmove leaves the unescaped string, or reports that no quote closes it |
| `KconfigConfdata.UnescapeEsc` | canmv_k230/tools/kconfig/confdata.c:246-262 | unescaping an escaped string gives it back, whatever follows the closing quote |
| `KconfigConfdata.SetString` | canmv_k230/tools/kconfig/confdata.c:246-275 | the value of a string symbol: passed over, invalid, or the unescaped text |
| `KconfigConfdata.ReadLine` | canmv_k230/tools/kconfig/confdata.c:453-484 | cutting the line in its buffer gives the name and the value that the line denotes |
| `KconfigConfdata.LineText` | canmv_k230/tools/kconfig/confdata.c:663-689 | the line written is the name with its prefix, `=`, and the escaped value in quotes |
| `KconfigConfdata.RoundTrip` | canmv_k230/tools/kconfig/confdata.c:663-689 | a string value comes back from the line written for it if and only if it has no newline; otherwise the line is invalid |
| `GenimageFile.WriteAt` | canmv_k230/tools/genimage/util.c:439-493 | a write changes exactly the bytes it covers |
| `GenimageFile.WholeFileValid` | canmv_k230/tools/genimage/util.c:367-376 | the single extent used without extent support satisfies what the copier needs and reaches the end of the file |
| `GenimageFile.OutFile.WriteBytes` | canmv_k230/tools/genimage/util.c:439-493 | truncating, punching a hole and the write loop all have the effect of writing the bytes |
| `GenimageFile.OutFile.CopyExtents` | canmv_k230/tools/genimage/util.c:578-626 | the copied file is written up to the end of its last extent, holes as zeros |
| `GenimageFile.OutFile.InsertImage` | canmv_k230/tools/genimage/util.c:534-642 | exactly the requested range is written: what the sub-image provides, then the pad byte |
| `GenimageFile.InsertImageExact` | canmv_k230/tools/genimage/util.c:534-642 | that is the sub-image followed by the pad byte if and only if the pad is 0 or the extents reach the end |
| `GenimageFile.TrailingHoleLost` | canmv_k230/tools/genimage/util.c:628-631 | a file with a trailing hole and a pad byte other than 0, where they differ |
| `GenimageFile.OutFile.InsertData` | canmv_k230/tools/genimage/util.c:644-677 | writes the data at the offset and nothing else |
| `GenimageFile.OutFile.ExtendFile` | canmv_k230/tools/genimage/util.c:679-714 | extends with zeros, or fails if and only if the file is longer |
| `HdLayout.HdImage.EnsureExtendedIndex` | canmv_k230/tools/genimage/image-hd.c:756-774 | an extended partition is planned as entry 4 if and only if there are more than 4 table entries |
| `HdLayout.HdImage.Classify` | canmv_k230/tools/genimage/image-hd.c:815-840 | which entry is logical, how many MBR slots are used, and exactly when the entry is refused |
| `HdLayout.HdImage.SetupLogical` | canmv_k230/tools/genimage/image-hd.c:776-845 | the configured entries in order, [Extended] inserted before the logical ones, at most 4 MBR slots; with at most 4 entries and no index given it succeeds and changes nothing |
| `HdPlaces.PlaceFollows` | canmv_k230/tools/genimage/image-hd.c:1057-1138 | an offset that is given is kept; an entry of the table without one starts at the least multiple of its alignment not below the end of what was placed, a logical one a boot record's room further; a GPT backup ends at the least 4 KiB boundary that leaves it room |
| `HdPlaces.PlaceUnique` | canmv_k230/tools/genimage/image-hd.c:1057-1138 | these rules leave only one place |
| `HdPlaces.RoundUpZero` | canmv_k230/tools/genimage/image-hd.c:661-664 | rounding 0 up wraps around as in C: the result is below the alignment, and 0 if the alignment divides 2^64 |
| `HdPlaces.FrontierIsEnd` | canmv_k230/tools/genimage/image-hd.c:1170-1179 | the position from which an entry is placed is the furthest end of the entries before it, or the start |
| `HdLayout.HdImage.Position` | canmv_k230/tools/genimage/image-hd.c:1057-1138 | alignment, offset and next position are those of `HdPlaces.PlaceOf`, for which `PlaceFollows` and `PlaceUnique` state the rules; misalignment is refused exactly |
| `HdLayout.HdImage.Autoresize` | canmv_k230/tools/genimage/image-hd.c:881-917 | the entry takes all whole units of its alignment up to the end (or the GPT backup); accepted if and only if that is enough, a size is given and no other entry was resized |
| `HdLayout.HdImage.PartImage` | canmv_k230/tools/genimage/image-hd.c:919-951 | accepted if and only if the image exists and fits; the output file reaches its end |
| `HdLayout.HdImage.CheckOverlap` | canmv_k230/tools/genimage/image-hd.c:698-742 | accepted if and only if the entry is apart from every earlier one or a hole of the earlier image covers the overlap |
| `HdLayout.HdImage.Accept` | canmv_k230/tools/genimage/image-hd.c:1153-1179 | exactly when an entry is accepted, and that the layout stays valid with it |
| `HdLayout.HdImage.CheckTypes` | canmv_k230/tools/genimage/image-hd.c:1068-1113 | the partition type rules, exactly |
| `HdLayout.HdImage.PlaceAll` | canmv_k230/tools/genimage/image-hd.c:1055-1180 | every entry processed is at the place and of the size the rules give it behind the entries before it, and the layout is valid; a list for which such places do not overlap and fit is accepted |
| `HdLayout.HdImage.Finish` | canmv_k230/tools/genimage/image-hd.c:1192-1204 | refused if and only if the partitions exceed a given image size; otherwise the final size of image and file |
| `HdLayout.HdImage.Setup` | canmv_k230/tools/genimage/image-hd.c:953-1205 | each configured entry is at the place and of the size that the rules give behind the entries before it; disjoint up to covering holes, within the image; [Extended] starts with its first and ends with its last logical entry; tables in place; MBR slots suffice; no entry added but [Extended] and the tables; an image of no given size ends with its last entry, with a GPT on a 4 KiB boundary; every configuration is accepted for which the rules, with offsets given or left out, give places that do not overlap and fit |
| `HdSequence.SequencePlanned` | canmv_k230/tools/genimage/image-hd.c:953-1205 | a list of table entries with sizes of whole sectors and no offsets, in an image of no given size, is always accepted |
| `HdWriter.PlacedApart` | canmv_k230/tools/genimage/image-hd.c:698-742 | without holes any two entries other than [Extended] are disjoint |
| `HdWriter.WriteImage` | canmv_k230/tools/genimage/image-hd.c:714-725 | writing the images in the order of the list harms an earlier one in its holes only, and leaves the places of later ones alone unless they are shared |
| `HdWriter.WriteEbr` | canmv_k230/tools/genimage/image-hd.c:208-256 | the boot record stands in front of its entry and leaves everything written so far as it is |
| `HdWriter.WriteChild` | canmv_k230/tools/genimage/image-hd.c:597-616 | the entry's image reads back outside its holes, the earlier ones still do, the places of the later ones are untouched unless shared with an earlier hole |
| `HdWriter.WriteMbr` | canmv_k230/tools/genimage/image-hd.c:139-206 | the MBR stands at byte 440, nothing outside it changes, all images stay as they are up to their declared holes |
| `HdWriter.WriteGpt` | canmv_k230/tools/genimage/image-hd.c:459-564 | header, array and backup can be read where they belong, with all boot records and the MBR; all images stay as they are, up to their declared holes; the length of the file afterwards |
| `HdWriter.AreasApart` | canmv_k230/tools/genimage/image-hd.c:459-564 | MBR, header with array, and backup share no byte in any accepted layout |
| `HdWriter.LengthExpected` | canmv_k230/tools/genimage/image-hd.c:640-653 | with `fill`, or a GPT with its backup, the final length check always passes |
| `HdWriter.Generate` | canmv_k230/tools/genimage/image-hd.c:567-659 | in every layout setup can produce, each byte of a child image outside the holes that image declares reads back at its offset; without holes, zero-padded to the end of the entry; all boot records and tables can be read where they belong; success if and only if the announced length is right |
| `HdWriter.Build` | canmv_k230/tools/genimage/image-hd.c:567-659 | setup and generate together: every configured entry is where the rules put it and reads back as its image outside its holes, and zero-padded without holes; the tables can be read; a planned configuration succeeds if the file is as long as the image |
| `HdWriter.EmptyPartitionRejected` | canmv_k230/tools/genimage/image-hd.c:640-653 | for every MBR image of primary partitions without images: the final length check fails, although setup accepts every complete configuration of this kind |
| `HdWriter.EmptyPartitionComplete` | canmv_k230/tools/genimage/image-hd.c:1192-1204 | one partition of one sector is such a complete configuration |
| `HdTables.MbrFits` | canmv_k230/tools/genimage/image-hd.c:155-191 | in every accepted layout the four MBR entries suffice, with the protective one of a hybrid table |
| `HdTables.FillMbr` | canmv_k230/tools/genimage/image-hd.c:139-191 | the loop stays inside the four entries and leaves the slots of the entries in order |
| `HdTables.FillGpt` | canmv_k230/tools/genimage/image-hd.c:485-507 | the loop stays inside the table if and only if at most 128 entries are in it, and then leaves their slots in order |
| `HdTables.SlotsDescribe` | canmv_k230/tools/genimage/image-hd.c:155-191 | slot k of either table has the type of the k-th entry that takes one, the sector in which that entry starts and the whole sectors it has |
| `HdTables.SlotExact` | canmv_k230/tools/genimage/image-hd.c:166-169 | start and sectors, times 512, are the offset and the size of the entry if and only if these are whole sectors |
| `HdTables.CrookedAccepted` | canmv_k230/tools/genimage/image-hd.c:1062-1066 | an MBR image with a partition at byte 1000 is accepted, and its slot says byte 512 |
| `HdTables.AnyNumberAccepted` | canmv_k230/tools/genimage/image-hd.c:1114-1115 | for every n, a GPT image of n one-sector partitions is a configuration that setup accepts |
| `HdTables.OverrunRow` | canmv_k230/tools/genimage/image-hd.c:485-507 | setup accepts n one-sector partitions for every n, and the table loop then stays inside the table if and only if n is at most 128 |
| `GenimageDriver.MetAgain` | canmv_k230/tools/genimage/genimage.c:165-168 | an image met again while it is worked on means the graph has a cycle |
| `GenimageDriver.CompleteIsAcyclic` | canmv_k230/tools/genimage/genimage.c:862-866 | an order of all images with children first proves the graph acyclic |
| `GenimageDriver.Driver.Visit` | canmv_k230/tools/genimage/genimage.c:157-201 | success puts the image behind all its children; failure means a cycle, a missing child or a failing handler |
| `GenimageDriver.Driver.Phase` | canmv_k230/tools/genimage/genimage.c:876-882 | a phase succeeds if and only if nothing stands in its way, and has then handled every image once, children first |
| `GenimageDriver.Driver.Build` | canmv_k230/tools/genimage/genimage.c:862-882 | both phases on the shared signed fields: success if and only if acyclic, all children found, all handlers succeed in both |
| `Crc32.BitsSplit` | canmv_k230/tools/genimage/crc32.c:56-57 | bits that do not reach the low end within n steps are only shifted |
| `Crc32.TableStep` | canmv_k230/tools/genimage/crc32.c:56-57 | one lookup does the work of feeding the eight bits of a byte |
| `Crc32.CrcAppend` | canmv_k230/tools/genimage/crc32.c:51-65 | continuing over b from the CRC of a is the CRC of a followed by b |
| `CrcTable.CrcTabOk` | canmv_k230/tools/genimage/crc32.c:5-49 | each of the 256 literals is what eight bit steps make of its index |
| `CrcTable.CrcNext` | canmv_k230/tools/genimage/crc32.c:51-60 | the loop over the table computes the bit-by-bit CRC-32 of section 8 of RFC 1952 for every byte string |
| `CrcTable.CrcOfZeroByte` | canmv_k230/tools/genimage/crc32.c:51-60 | the CRC-32 of one zero byte is 0xD202EF8D |
| `SparseFormat.DecodeEncodeAll` | canmv_k230/tools/genimage/image-android-sparse.c:46-56 | a reader of the format gets back the chunks that were encoded |
| `SparseFormat.HeaderFields` | canmv_k230/tools/genimage/image-android-sparse.c:34-44 | parsed field by field, the header holds the magic number 0xed26ff3a, version 1.0, the header sizes 28 and 12, block size, number of blocks and number of chunks, in this order |
| `SparseFormat.WrappedRaw` | canmv_k230/tools/genimage/image-android-sparse.c:46-56 | a raw chunk whose size does not fit its field is not taken by a reader |
| `SparseExtents.AlignExtents` | canmv_k230/tools/genimage/image-android-sparse.c:156-188 | in place: the extents left are whole blocks, in order, never touching, and cover exactly the blocks the original ones touched; refused if and only if an extent that touches none before it is too large by itself |
| `SparseWriter.IsFill` | canmv_k230/tools/genimage/image-android-sparse.c:263-268 | true if and only if the block repeats its first word |
| `SparseWriter.WordBytesRead` | canmv_k230/tools/genimage/image-android-sparse.c:336-343 | the four bytes of a checksum, read low byte first, are its number |
| `SparseWriter.SparseWriter.Flush` | canmv_k230/tools/genimage/image-android-sparse.c:75-109 | correcting the header completes the open chunk |
| `SparseWriter.SparseWriter.AddFill` | canmv_k230/tools/genimage/image-android-sparse.c:269-291 | the chunks stand for one more block; their number is right |
| `SparseWriter.SparseWriter.AddRaw` | canmv_k230/tools/genimage/image-android-sparse.c:292-313 | the same for a literal block |
| `SparseWriter.SparseWriter.Skip` | canmv_k230/tools/genimage/image-android-sparse.c:214-226 | a chunk for blocks without data; the checksum covers them as zeros |
| `SparseWriter.SparseWriter.Finish` | canmv_k230/tools/genimage/image-android-sparse.c:336-355 | checksum chunk last, header with block size, number of blocks and number of chunks |
| `SparseImage.WriteExtent` | canmv_k230/tools/genimage/image-android-sparse.c:227-320 | the image is continued up to the end of the extent's last block |
| `SparseImage.GapZero` | canmv_k230/tools/genimage/image-android-sparse.c:214-226 | between the aligned extents the image holds only zeros |
| `SparseImage.WriteFile` | canmv_k230/tools/genimage/image-android-sparse.c:196-355 | the file is the header, the chunks and the checksum chunk, which stand for the padded image; each block is stored as unused, repeated or literal as the extents and its words require, and no two neighbouring chunks could be one; one extent without fill blocks is a single raw chunk |
| `SparseImage.Outcome` | canmv_k230/tools/genimage/image-android-sparse.c:196-355 | a reader that parses the header and takes its chunk count from there gets the padded image, the counts and the checksum, if no merged extent is too long for a chunk; a single raw chunk that is too long is not read |
| `SparseImage.Generate` | canmv_k230/tools/genimage/image-android-sparse.c:111-367 | the same from the original extents, whenever no run of blocks they touch is too long for a chunk, and then it never refuses; an image that is one such run without fill blocks and too long cannot be read back; the exact condition of refusal |
| `SparseImage.TouchingExtentsFail` | canmv_k230/tools/genimage/image-android-sparse.c:170-187 | two touching extents of 2 GiB each are accepted, and the file written cannot be read |
| `FdtRegions.TrackMerged` | canmv_k230/src/uboot/uboot/boot/fdt_region.c:129-137 | taking back a touching region keeps the covered bytes exact |
| `FdtRegions.InnermostInside` | canmv_k230/src/uboot/uboot/boot/fdt_region.c:59-127 | the innermost open node is the node that the tag stands directly inside of, by balance of Begin and EndNode tags |
| `FdtRegions.CoveredByKind` | canmv_k230/src/uboot/uboot/boot/fdt_region.c:59-127 | a tag is covered exactly if it is a Begin or EndNode of a listed node or of a child of one, a property not excluded or a NOP directly in a listed node, the End tag, or an EndNode directly behind one of these |
| `FdtRegions.TrackClosed` | canmv_k230/src/uboot/uboot/boot/fdt_region.c:139-146 | ending a region, behind an EndNode or before another tag, keeps the covered bytes exact |
| `FdtRegions.Finder.Classify` | canmv_k230/src/uboot/uboot/boot/fdt_region.c:59-127 | an error if and only if the tag is bad; the decision is the one given by the open nodes |
| `FdtRegions.Finder.Emit` | canmv_k230/src/uboot/uboot/boot/fdt_region.c:129-146 | the runs so far are exactly the covered bytes so far; the array holds them, or the first of them once it is full |
| `FdtRegions.FindRegions` | canmv_k230/src/uboot/uboot/boot/fdt_region.c:32-162 | success if and only if the tree is well formed; the runs are not empty, increasing, never touching, and exactly the bytes of the tags that `CoveredByKind` names; the count exceeds the array if and only if there are more runs than it has room for, and the array holds all of them or the first ones |
| `FdtRegions.ExactUnique` | canmv_k230/src/uboot/uboot/boot/fdt_region.c:129-152 | there is only one list of such runs |
| `AndroidAb.Compare` | canmv_k230/src/uboot/uboot/boot/android_ab.c:166-182 | negative if and only if the priority is higher, or equal and only the first is successful, or both equal and the first has more tries; zero if and only if all three agree |
| `AndroidAb.ChosenUnique` | canmv_k230/src/uboot/uboot/boot/android_ab.c:247-269 | "the first best bootable slot" determines the slot |
| `AndroidAb.Best` | canmv_k230/src/uboot/uboot/boot/android_ab.c:247-269 | the choice is the first best bootable slot by that order, or none is bootable |
| `AndroidAb.Storage.Scan` | canmv_k230/src/uboot/uboot/boot/android_ab.c:247-269 | the loop finds that choice |
| `AndroidAb.Storage.SelectSlot` | canmv_k230/src/uboot/uboot/boot/android_ab.c:184-305 | result and stored block of one call: the slot returned is intact, has tries, and is better than every other such slot, or as good and before it; re-initialisation and refusal included, and exactly when the result is the one the comment describes |
| `AndroidAb.ReturnsBetter` | canmv_k230/src/uboot/uboot/boot/android_ab.c:211-269 | -ENODATA exactly for an unknown magic number or version, -EINVAL exactly if no slot in use is intact with tries left, otherwise the first slot that no such slot is better than |
| `AndroidAb.LeavesBehind` | canmv_k230/src/uboot/uboot/boot/android_ab.c:271-298 | field by field: the letter of the slot, one try less unless it is successful, the capped slot count, a valid checksum; nothing else changes, and nothing at all for an unknown block |
| `AndroidAb.Reinitialised` | canmv_k230/src/uboot/uboot/boot/android_ab.c:202-215 | a block with a wrong checksum gets two slots of priority 15 with 7 tries, and the first of them is returned |
| `AndroidAb.AfterKeeps` | canmv_k230/src/uboot/uboot/boot/android_ab.c:271-293 | a call changes only the suffix and the tries of a slot not yet known to boot |
| `AndroidAb.ExactlyTheTries` | canmv_k230/src/uboot/uboot/boot/android_ab.c:202-304 | over any number of calls: a slot for ever if one is known to boot, otherwise in exactly as many calls as there are tries, then -EINVAL for ever |
| `AndroidAb.NeverUnbootable` | canmv_k230/src/uboot/uboot/boot/android_ab.c:248-269 | no call ever returns a corrupted or exhausted slot; it returns the first best one |
| `AndroidAb.ChecksumStays` | canmv_k230/src/uboot/uboot/boot/android_ab.c:295-298 | from the first call on the stored checksum is valid; an unknown block is refused for ever and left alone |
| `AndroidAb.DocumentedExact` | canmv_k230/src/uboot/uboot/boot/android_ab.c:229-269 | a call returns what the comment describes if and only if every intact successful slot without tries is beaten by a bootable one |
| `AndroidAb.DocumentedBest` | canmv_k230/src/uboot/uboot/boot/android_ab.c:229-239 | the first best slot by the rule of the comment |
| `AndroidAb.DocumentedBestExact` | canmv_k230/src/uboot/uboot/boot/android_ab.c:229-269 | the slot chosen is the one of the comment under exactly that condition |
| `AndroidAb.DocumentedCall` | canmv_k230/src/uboot/uboot/boot/android_ab.c:229-269 | the same for any later call |
| `AndroidAb.DocumentedFails` | canmv_k230/src/uboot/uboot/boot/android_ab.c:229-250 | a system whose only slot is such a slot does not boot, though the comment would boot it |
| `BootflowLoops.MethsInOrder` | canmv_k230/src/uboot/uboot/boot/bootflow.c:152-157 | on a partition the bootmeths are tried in order, all of them unless the last one tried ended the loop |
| `BootflowLoops.PartsAll` | canmv_k230/src/uboot/uboot/boot/bootflow.c:175-193 | a bootdev is left early only if its last attempt said "no more partitions" or ended the scan; otherwise every partition and bootmeth was tried |
| `BootflowLoops.ScanExact` | canmv_k230/src/uboot/uboot/boot/bootflow.c:140-217 | the coded loops try what is intended if and only if no intended attempt but the last returns -ENODEV without being a hit, or is a global one that reports "no more partitions" |
| `BootflowExact.IntendedExact` | canmv_k230/src/uboot/uboot/boot/bootflow.c:120-217 | the scan as intended, without loops: in strictly increasing order, exactly the attempts on ready bootdevs, on partition 0 or later ones behind media, before which there was neither a hit nor "no more partitions" on their bootdev |
| `BootflowLoops.NoDeviceFails` | canmv_k230/src/uboot/uboot/boot/bootflow.c:149-150 | a whole scan that misses a bootflow on the second bootdev because the first attempt returned -ENODEV |
| `BootflowLoops.GlobalCutFails` | canmv_k230/src/uboot/uboot/boot/bootflow.c:152-173 | a whole scan that misses a bootflow because a global bootmeth reported "no more partitions" |
| `Bootflow.Iter.Incr` | canmv_k230/src/uboot/uboot/boot/bootflow.c:140-217 | the next attempt is a later one and the next of the coded loops, or nothing is left |
| `Bootflow.Iter.Check` | canmv_k230/src/uboot/uboot/boot/bootdev-uclass.c:112-187 | one attempt is recorded; partitions are opened up only when media has been found |
| `Bootflow.Iter.ScanNext` | canmv_k230/src/uboot/uboot/boot/bootflow.c:317-340 | terminates (global phase, bootdevs, partitions, bootmeths left) and completes the coded loops up to the first hit |
| `Bootflow.Iter.Scan` | canmv_k230/src/uboot/uboot/boot/bootflow.c:268-303 | for every world, a whole scan tries exactly what the coded loops try, in strictly increasing order, and what is intended if and only if no attempt but the last is odd; it returns the first hit or that nothing is left |

## Left out

- In-place updates of expression trees other than in `expr_eliminate_dups`: each node has one owner there, so those passes are functions on values; allocation, freeing and sharing are not modelled.
- KconfigEqExact.EqExact: for expressions without y and n operands; with them, `expr_eq` removes some on its way, and only soundness and reflexivity are stated.
- NULL arguments of `expr_eq` and `expr_eliminate_eq`, and E_LIST, E_RANGE and E_NONE nodes.
- KconfigDups.EliminateDupsCorrect: for expressions that compare no tristate symbol with a numeral such as "0"; `EliminateDupsValue` covers all expressions, except valuations in which such a symbol has the value of its numeral, and `EliminateDupsExact` shows that no more can be said of expressions that may use a numeral.
- String, int and hex symbols, ranges, the flags SYMBOL_WRITE and SYMBOL_CHANGED, warnings, and a change of `modules_val` while symbols are evaluated; comparisons of symbols are a function of the symbols and their tristate values.
- Choices inside the evaluator and the cycle checker: a choice is modelled on its own, with its members' prompt conditions evaluated in a given valuation.
- The lists of menus: propagation along a path and the submenu test are modelled, the relinking of `list`, `next` and `parent` is not.
- KconfigConfdata.ReadLine: for a string symbol that exists; the branches for other types, unknown symbols and `is not set` lines would only add easy cases.
- 64-bit overflow of offsets and sizes in genimage, except in `roundup` of 0 and in differences; block devices as output; errors of the operating system.
- HdLayout.HdImage.Setup: one sufficient condition for acceptance (`WellPlanned`), which leaves aside logical and autoresize entries, empty images without a size, and places at 0 with an alignment that does not divide 2^64; when it refuses is stated for its steps (`Classify`, `Position`, `Autoresize`, `PartImage`, `CheckOverlap`, `Accept`, `CheckTypes`, `Finish`), not as one condition; UUIDs, their validation and their generation are not modelled.
- The encoding of MBR, EBR and GPT: which entries they hold, and where they stand in the file, is modelled; their bytes are parameters of the right lengths.
- HdLayout.HdImage.SetupLogical: with an extended partition, when it refuses is stated for one entry (`Classify`), not for the list.
- HdLayout.HdImage.PlaceAll: success is stated for lists for which the rules give places that do not overlap and fit; for others, by its steps.
- HdWriter.Generate: bytes of an image inside its own holes, which later entries may overwrite on purpose, and, with holes, the zeros behind an image that is shorter than its entry.
- SparseImage.Generate: images of 2^32 - 1 blocks and more, for which the counts of blocks and chunks no longer fit 32 bits; of images with a run that is too long for a chunk, only those without fill blocks are shown to fail; a little-endian host is assumed, since the block counts are stored without conversion.
- The path strings of the device tree: whether a path is on the list, and whether it fits the buffer, is part of the tag; `fdt_next_region`, `fdt_add_alias_regions` and the string table are not modelled.
- FdtRegions.FindRegions: the number returned for an array that is too small is only known to exceed its length, since regions are no longer merged then.
- The checksum of the A/B control block is an arbitrary function of its other fields; failing storage and blocks of other sizes are not modelled.
- Bootflow.Iter.Scan: one scan up to its first hit; `bootflow_iter_drop_bootmeth`, continuing after a hit, and the set-up of the device and method orders are not modelled, and what each attempt returns is a parameter.
- Interactive front ends, option parsing, file handling, the shell-command image handlers, `preprocess.c`, `firmware_gen.py`, and the remaining boot methods.
