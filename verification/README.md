# Verified models of the Kconfig tool and the compatibility code of iwlwifi

The wireless driver tree carries its own copy of the Kconfig configuration tool
(`src/iwlwifi/kconf`) and of several kernel algorithms (`src/iwlwifi/compat`). This project models
the parts of both that hold real algorithms and proves what they promise. Check it with
`dafny verify dfyconfig.toml`.

## Kconfig

* **Expressions** (`KconfigExpr`, `KconfigOrder`, `KconfigRewrite`, `KconfigPlaces`, `KconfigEq`,
  `KconfigEqExact`, `KconfigDups`, `KconfigDupsPass`, `KconfigDupsMeaning`). A boolean or tristate
  condition is rewritten by `expr_transform`, `expr_eliminate_yn`, `expr_eliminate_dups`,
  `expr_eliminate_eq`, `expr_trans_bool` and `expr_trans_compare`. Its meaning is `expr_calc_value`: `no < mod < yes`, AND the minimum, OR
  the maximum. Each pass is a function proved to keep that meaning, or the exact part of it that it
  keeps. Which expressions `expr_eq` finds equal is said by a form without order and grouping, at any
  depth. `KconfigStore` and `KconfigInPlace` then run the passes as the source does, on one tree
  rewritten in place through the addresses of its cells, and prove that they compute those functions.
* **Submenus** (`KconfigAdopt`, `KconfigPropagate`, `MenuTree`, `MenuNest`, `MenuLinks`, `MenuFinalize`,
  `MenuWalk`). `menu_finalize` passes conditions down the tree, takes following entries into the
  submenu of the symbol they depend on and lifts the submenus of entries without a prompt text. The
  conditions are proved to mean what they should, and the entries taken in to be exactly those of one pass
  from the last entry to the first. The links of the entries spell the same entries in the same order
  afterwards, with every parent right, so the walk of `conf_write` visits each entry once, in source order.
* **Cycles** (`SymGraph`, `SymDeps`, `SymSearch`, `SymCheck`). The flag-driven depth-first search of
  `sym_check_deps`, over the symbols that the conditions and defaults of a symbol are computed from.
* **String values** (`ConfigText`, `ConfigLine`, `ConfigFile`). Escaping a value, printing its line,
  cutting the line up in its buffer and dropping the backslashes in place.

Side conditions that the lemmas carry as preconditions: a boolean symbol never holds `mod`
(`src/iwlwifi/kconf/symbol.c:429-431`); a relation has no operand of the type `S_OTHER`, since on one it
answers `no` both ways (`src/iwlwifi/kconf/expr.c:967-971`); constants with the same text are the same
symbol; a bare symbol is boolean, tristate or one of the constants `y`, `m`, `n`.

## Compatibility code

* **Resizable hash table** (`RhashChain`, `RhashRehash`, `RhashReader`, `RhashTable`, `RhashInsert`,
  `RhashAlone`, `RhashJoint`, `RhashNested`). The single pointer writes of a rehash, insertions under bucket locks, new
  tables and a lookup are steps of one machine, interleaved in any way the locks allow: a table may be
  attached between a move's choice of its target and its writes, and retired between the two reads a lookup
  starts with. `RhashTable` runs the loops of the rehash with every write a step of that machine.
  `RhashInsert` is a second machine, of threads that look for their key through the chain of tables, and
  `RhashJoint` puts both together: what the threads look through are the chains of the first.
  `RhashNested` is the tree of pages behind a large table.
* **ASN.1** (`Asn1Grammar`, `Asn1Indefinite`, `Asn1Frames`, `Asn1Decoder`, `Asn1Runs`, `Asn1Decode`,
  `Asn1Exact`, `Asn1Follow`, `Asn1Match`, `Asn1Accept`). The grammar of BER elements of indefinite length, the scanner that replaces
  its recursion by a counter, the bytecode machine with its two bounded stacks, and exactly when its
  actions are given the contents of an element. The last is proved by letting the scanner follow the
  machine. Also which elements a match and a choice take, and that the program of a `SEQUENCE OF` takes every
  such list.
  That grammar is wider than ITU-T X.690 in two places: it admits 0x80 as the first of the later octets of
  an identifier, which section 8.1.2.4.2 forbids, and any octets as the contents of a constructed element
  of definite length. The scanner looks at neither.
* **Scatter lists** (`Scatter`, `ScatterRounds`, `ScatterCopy`), **netlink attributes** (`NlaPolicy`,
  `NlaBitfield`, `NlaValidate`, `NlaParse`, `NlaKinds`, `NlaStream`), **reference counts** (`Refcount`,
  `RefcountRuns`, `RefcountLinear`) and **64-bit division** (`Div64`).

`Sequences`, `Bytes`, `PowerOfTwo` and `Wrappers` hold definitions and facts used throughout.

## Where the code differs from what is said about it

* `expr_join_and`, `src/iwlwifi/kconf/expr.c:499`: the comment gives another result than the code.
  The code returns `a = 'y'`, and that is the right value.
* `expr_trans_compare`, `src/iwlwifi/kconf/expr.c:840`: a negated operand that holds `mod` gets another
  truth value than the comparison asks for. `KconfigAdopt.TransCompareNegated` says exactly when.
  `KconfigAdopt.AdoptionNeedsTwoValuedNots` is a family of menus that shows an entry being taken into a
  submenu whose condition does not hold.
* `expr_trans_bool` on a negated relation, which `expr_transform` removes:
  `KconfigRewrite.TransBoolNegatedTest` says exactly when it changes whether the value is `no`.
* `rhashtable_try_insert`: when the bucket of a nested table cannot be allocated, the successor table is
  read without the lock of the bucket. `RhashInsert.AllocationFailureDuplicates` is a run that ends with
  two objects of one key. `RhashInsert.PassUnseenExact` says exactly in which states that step can lead
  to one.
* `sym_check_deps`: the result is documented as null when the dependencies are in order. Called from
  clear flags it is always null, `SymSearch.ResultNeverTells`. A cycle shows in the report only.
* `asn1_ber_decoder`, `src/iwlwifi/compat/lib-asn1_decoder.c:235-249`: the comment says that the
  constructed bit of the data is free unless the instruction has it. The code leaves it free exactly when
  the instruction has it. The model follows the code.
* `asn1_ber_decoder`: an instruction that matches any tag, or the tag 0, also takes the octets that
  close an indefinite element. `Asn1Exact.ZeroForTag` is a run in which neither action is given the
  contents of an element. `Asn1Exact.EveryCallExact` says for every call of every run when it is,
  `Asn1Follow.IndefiniteEndExact` and `Asn1Follow.FinishedExact` by which instructions of the run that is decided.
* `nla_validate_int_range` on an unsigned 64-bit attribute turns a negative bound into a large one. A
  negative lower bound turns small values away that are above it, `NlaPolicy.NegativeLowBound`. A negative
  upper bound lets almost all values pass though none is below it, `NlaPolicy.NegativeHighBound`. For which
  values and for which policies the check is right: `NlaPolicy.IntRangeExact`, `NlaPolicy.IntPolicyExact`.
* `sg_copy_buffer`, `src/iwlwifi/compat/backport-3.11.c:90`: documented to return the number of bytes
  copied, it counts them in 32 bits. From 2^32 bytes on it returns less, puts further bytes over the first
  ones, and passes over what a mapping holds beyond the end of the buffer. `ScatterCopy.CopiedExact` says
  when all is right, `ScatterRounds.StraightExact` when the bytes are.
  `ScatterRounds.NothingCounted` and `ScatterRounds.FirstOverwritten` are the failing inputs, and
  `ScatterRounds.Totals` gives a list for each.
  `sg_page_count` is wrong for segments that end within a page of 2^32: `Scatter.PageCountExact`.
* `div64_u64_rem` is wrong for some divisors between 2^32 and 2^34: `Div64.SafeDivisorExact` says for
  which, in terms of the divisor alone.

## Model

| member | source | states |
|---|---|---|
| KconfigRewrite.TransformValue | src/iwlwifi/kconf/expr.c:594-749 | the transformed expression has the value of the original in every environment, when relations have comparable operands |
| KconfigRewrite.NegatedRelation | src/iwlwifi/kconf/expr.c:917-995 | a relation and its negated form have opposite values if and only if the operands can be ordered |
| KconfigRewrite.TransformNegatedOrder | src/iwlwifi/kconf/expr.c:660-700 | pushing a negation into an order relation keeps the value if and only if the operands can be ordered |
| KconfigRewrite.TransformNormal | src/iwlwifi/kconf/expr.c:594-749 | the result has negations on bare symbols only and no test that a symbol or constant can replace; the recursion terminates on a weight that counts what is below a negation more than once |
| KconfigRewrite.TransformFixesNormal | src/iwlwifi/kconf/expr.c:594-749 | an expression in that form is left as it is |
| KconfigRewrite.TransformIdempotent | src/iwlwifi/kconf/expr.c:594-749 | transforming twice is transforming once |
| KconfigRewrite.TransformOrderable | src/iwlwifi/kconf/expr.c:594-749 | comparability of relations is kept |
| KconfigRewrite.TransformTyped | src/iwlwifi/kconf/expr.c:594-749 | bare symbols stay boolean, tristate or y, m, n |
| KconfigRewrite.EliminateYnValue | src/iwlwifi/kconf/expr.c:246-327 | removing the constants y and n from ANDs and ORs keeps the value |
| KconfigRewrite.EliminateYnExact | src/iwlwifi/kconf/expr.c:246-327 | afterwards none is left, and the expression is smaller exactly when there was one |
| KconfigRewrite.EliminateYnKeeps | src/iwlwifi/kconf/expr.c:246-327 | the normal form and its side conditions survive |
| KconfigRewrite.TransBoolKeepsNo | src/iwlwifi/kconf/expr.c:332-356 | on the normal form the value is `no` after it if and only if it was before, and never rises |
| KconfigRewrite.TransBoolNegatedTest | src/iwlwifi/kconf/expr.c:332-356 | on a negated relation that fails exactly for `!(a != n)` with a tristate `a` that holds `mod` |
| KconfigRewrite.TransBoolKeeps | src/iwlwifi/kconf/expr.c:332-356 | the normal form and its side conditions survive |
| KconfigPlaces.TransBoolExact | src/iwlwifi/kconf/expr.c:332-356 | at every place, below AND, OR and negations, a test of a tristate symbol for being set becomes the symbol, and nothing else changes |
| KconfigPlaces.TransformPlaces | src/iwlwifi/kconf/expr.c:594-749 | at no place of a transformed expression is there a negation of anything but a symbol other than y, m, n, nor a boolean symbol tested by `=` or `!=` against one of these |
| KconfigExpr.CompareYmn | src/iwlwifi/kconf/expr.c:917-995 | equality with y, m or n is equality of tristate values |
| KconfigExpr.CompareText | src/iwlwifi/kconf/expr.c:917-995 | equality of a boolean or tristate symbol is equality of the texts |
| KconfigOrder.Trichotomy | src/iwlwifi/kconf/expr.c:962-995 | of two symbols that can be ordered exactly one of `<`, `=`, `>` holds and the other relations are made of these; of two that cannot, no order holds |
| KconfigOrder.NumbersCompare | src/iwlwifi/kconf/expr.c:879-976 | two symbols that spell numbers, not both strings, are compared by them, as unsigned 64-bit numbers if one is hexadecimal |
| KconfigOrder.TextsCompare | src/iwlwifi/kconf/expr.c:957-972 | otherwise they are compared as in a dictionary |
| KconfigEq.EqPairTakesCommon | src/iwlwifi/kconf/expr.c:141-173 | there is one part, the same in every environment, such that each side was that part joined with what is left of it |
| KconfigEq.EqBothGatesReflects | src/iwlwifi/kconf/expr.c:175-195 | an order between the values of what is left holds between the values of the originals |
| KconfigEq.EliminateEqImplies | src/iwlwifi/kconf/expr.c:175-195 | if the second side becomes `y`, the first original is at most the second |
| KconfigEq.ExprEqSound | src/iwlwifi/kconf/expr.c:200-244 | expressions found equal have the same value in every environment; the mutual recursion terminates |
| KconfigEqExact.EqPairSubtracts | src/iwlwifi/kconf/expr.c:141-173 | each side loses exactly the operands that the other has, in any order and grouping at every depth, with their multiplicities |
| KconfigEqExact.ExprEqExact | src/iwlwifi/kconf/expr.c:200-244 | expressions without `y` or `n` as an operand are found equal if and only if they have the same form: operands of every AND and OR, at any depth and below negations, in any order and grouping |
| KconfigEqExact.ReplacedEqual | src/iwlwifi/kconf/expr.c:200-244 | so replacing any part by one of the same form gives an equal expression |
| KconfigEqExact.SwappedEqual | src/iwlwifi/kconf/expr.c:200-244 | and so does swapping the two sides of any AND or OR at any depth |
| KconfigEqExact.EliminateEqExact | src/iwlwifi/kconf/expr.c:175-195 | if neither side is an AND or OR both stay, even when they are equal; otherwise each loses the operands of the other under the gate of the first side, or of the second if the first has none or does not contain the second |
| KconfigEqExact.EliminateEqYes | src/iwlwifi/kconf/expr.c:175-195 | the second side becomes `y` if and only if the first is an AND that has all its operands |
| KconfigEqExact.EliminateEqConstant | src/iwlwifi/kconf/expr.c:141-195 | with `y` or `n` on one side nothing is removed |
| KconfigDups.JoinOrValue | src/iwlwifi/kconf/expr.c:361-423 | the operand a join gives back has the value of the OR of the two |
| KconfigDups.JoinAndValue | src/iwlwifi/kconf/expr.c:425-517 | the operand a join gives back has the value of the AND of the two |
| KconfigDups.TestsJoin | src/iwlwifi/kconf/expr.c:390-502 | two different tests of one tristate symbol against y, m, n are joined under OR if and only if both are by `=`, under AND if and only if not |
| KconfigDups.ConstantsJoin | src/iwlwifi/kconf/expr.c:470-486 | a test by `=` and one by `!=` are joined under AND if and only if both are against constants |
| KconfigDups.SymbolTestJoin | src/iwlwifi/kconf/expr.c:454-468 | a symbol is joined under AND with the test of it that it is `y`, not `n` or not `m`, in either order, and with no other; under OR with none |
| KconfigDups.SymbolNegationJoin | src/iwlwifi/kconf/expr.c:410-414 | a symbol is joined with its negation under OR if and only if it is boolean |
| KconfigDups.ForeignJoin | src/iwlwifi/kconf/expr.c:361-517 | operands that are not about one symbol are joined if and only if they are equal |
| KconfigDups.EqualJoin | src/iwlwifi/kconf/expr.c:361-433 | equal ones become the first of them |
| KconfigDupsMeaning.PassValue | src/iwlwifi/kconf/expr.c:519-569 | a pass of pairwise joins, which works on the leaves of a tree against the same tree, keeps its value |
| KconfigDupsPass.PassCounts | src/iwlwifi/kconf/expr.c:519-569 | a pass with joins leaves a constant whose removal makes the tree smaller, so the loop ends; one without changes nothing |
| KconfigDupsMeaning.EliminateDupsValue | src/iwlwifi/kconf/expr.c:571-592 | the fixpoint of passes has the value of the original |
| KconfigDupsMeaning.PassQuietIffSettled | src/iwlwifi/kconf/expr.c:519-569 | a pass joins nothing if and only if no two operands of one AND or OR can be joined, at any depth |
| KconfigDupsMeaning.EliminateDupsSettles | src/iwlwifi/kconf/expr.c:571-592 | the result is such a tree, and such a tree is left as it is |
| KconfigDupsMeaning.EliminateDupsTidy | src/iwlwifi/kconf/expr.c:571-592 | the normal form and its side conditions survive |
| KconfigStore.SplitFirst | src/iwlwifi/kconf/expr.c:525-529 | a pass from a gate on the first side is that from its left half, then from its right half on what the first left |
| KconfigStore.SplitSecond | src/iwlwifi/kconf/expr.c:530-534 | the same for a gate on the second side |
| KconfigInPlace.ExprStore.EliminateDups1 | src/iwlwifi/kconf/expr.c:519-569 | the walk over two cells of one tree joins operands in place and counts them, as the pass between the two parts does |
| KconfigInPlace.ExprStore.EliminateDupsAtRoot | src/iwlwifi/kconf/expr.c:571-592 | the loop leaves the fixpoint in place and the counter as it was |
| KconfigInPlace.ExprStore.EliminateYnAt | src/iwlwifi/kconf/expr.c:246-327 | rewrites the cell it is given and nothing else |
| KconfigInPlace.ExprStore.TransformAt | src/iwlwifi/kconf/expr.c:594-749 | rewrites the cell it is given and nothing else |
| KconfigInPlace.ExprStore.TransBoolAt | src/iwlwifi/kconf/expr.c:332-356 | rewrites the cell it is given and nothing else |
| KconfigInPlace.EliminateEqCells | src/iwlwifi/kconf/expr.c:141-173 | takes the common operands out of two cells of two trees |
| KconfigInPlace.EliminateEqRoots | src/iwlwifi/kconf/expr.c:175-195 | and then removes the constants left in both |
| KconfigInPlace.ExprEqByCopy | src/iwlwifi/kconf/expr.c:200-244 | decides equality on copies of the operands |
| KconfigAdopt.TransCompareExact | src/iwlwifi/kconf/expr.c:808-871 | the comparison of an expression with y or n, built as an expression, holds exactly when the value is or is not that constant, if no negated operand holds `mod` |
| KconfigAdopt.TransCompareNegated | src/iwlwifi/kconf/expr.c:839-840 | for a negated operand it does if and only if the operand does not hold `mod` |
| KconfigAdopt.TransCompareSafe | src/iwlwifi/kconf/expr.c:808-871 | in one direction it needs no such condition |
| KconfigAdopt.DependsSymbolSound | src/iwlwifi/kconf/expr.c:779-806 | an expression that depends on a symbol contains it, and is `no` when the symbol is |
| KconfigAdopt.DependsExact | src/iwlwifi/kconf/expr.c:779-806 | it depends on one if and only if one of its operands under AND, wherever it stands, is the symbol, its being `y` or `m`, or its not being `n` |
| KconfigAdopt.ContainsExact | src/iwlwifi/kconf/expr.c:751-777 | it contains one if and only if the symbol, or a relation with it on either side, stands at some place of it |
| KconfigAdopt.AdoptsDirect | src/iwlwifi/kconf/menu.c:356-359 | an entry with such an operand is taken in whatever the condition of the prompt |
| KconfigAdopt.AdoptsExact | src/iwlwifi/kconf/menu.c:350-374 | an entry is taken in if and only if its condition contains the symbol and either depends on it or, compared with `n` and simplified, is an AND with all the operands of the prompt's; or that of the prompt is `y` |
| KconfigAdopt.ConditionSettled | src/iwlwifi/kconf/menu.c:350-361 | no two operands of such a simplified condition can be joined, at any depth |
| KconfigAdopt.AdoptionSound | src/iwlwifi/kconf/menu.c:350-374 | a condition taken into the submenu of a symbol implies, when it is not `no`, that the symbol is set or the condition of its prompt is not `no` |
| KconfigAdopt.AdoptionNeedsTwoValuedNots | src/iwlwifi/kconf/menu.c:350-374 | a family of entries that are taken in although, for exactly the values named, the condition of the prompt is `no` |
| KconfigPropagate.JoinedMeaning | src/iwlwifi/kconf/menu.c:319-332 | the condition passed down has the value of the AND of the two it is made from |
| KconfigPropagate.JoinedSettled | src/iwlwifi/kconf/menu.c:319-332 | and no two operands of it can be joined, at any depth |
| KconfigPropagate.PathMeaning | src/iwlwifi/kconf/menu.c:318-346 | along a whole path down the tree it is not `no` exactly when every condition on the way is not |
| KconfigPropagate.BelowExact | src/iwlwifi/kconf/menu.c:318-346 | for an entry that is tristate or has no prompt, the value is that of the conditions together |
| KconfigPropagate.PathValue | src/iwlwifi/kconf/menu.c:318-346 | so it is along a whole path of such entries |
| KconfigPropagate.VisiblePlaces | src/iwlwifi/kconf/menu.c:333-335 | for an entry that is not tristate no test of a tristate symbol for being set is left at any place of the condition of its prompt |
| KconfigPropagate.AdoptedEntryVisible | src/iwlwifi/kconf/menu.c:313-374 | an adopted entry whose conditions hold has a parent symbol that is set or a parent prompt whose conditions hold |
| MenuTree.Finalize | src/iwlwifi/kconf/menu.c:286-433 | the restructured tree and its followers have the same entries in the same order |
| MenuTree.AdoptFrom | src/iwlwifi/kconf/menu.c:354-379 | so have the entries taken in and those left |
| MenuTree.Flatten | src/iwlwifi/kconf/menu.c:383-433 | so have the entries of a level after lifting |
| MenuTree.FlattenTitled | src/iwlwifi/kconf/menu.c:423-432 | afterwards every entry of the level with a submenu has a prompt text, and such a level is left as it is |
| MenuTree.FinalizeTitles | src/iwlwifi/kconf/menu.c:286-433 | after finalizing, that holds for every entry below the one finalized |
| MenuNest.FinalizeTakes | src/iwlwifi/kconf/menu.c:347-380 | an entry with a symbol and no submenu takes in, before lifting, only entries it adopts, and the first left behind it does not adopt; one without a symbol takes none and one with a submenu keeps that; those left are the last ones, untouched |
| MenuNest.FinalizeAdopts | src/iwlwifi/kconf/menu.c:349-379 | if the next entry is adopted, the submenu begins with it |
| MenuNest.FinalizeExact | src/iwlwifi/kconf/menu.c:286-433 | one entry finalized and the rest, finalized afterwards, are what one pass from the last entry to the first makes of the list, with the submenus lifted |
| MenuNest.FinalizeListExact | src/iwlwifi/kconf/menu.c:347-348 | so is a list of siblings |
| MenuNest.ArrangeExact | src/iwlwifi/kconf/menu.c:347-380 | that arrangement is the only one in which every entry is in its place |
| MenuNest.FlattenExact | src/iwlwifi/kconf/menu.c:423-432 | lifting puts what was below an entry without a prompt text behind it, entry by entry |
| MenuNest.FlattenKeeps | src/iwlwifi/kconf/menu.c:423-432 | an entry with a prompt text stays as it is |
| MenuFinalize.MenuStore.FinalizeMenu | src/iwlwifi/kconf/menu.c:286-433 | the `list`, `next` and `parent` links spell the restructured tree, every parent right; no link of another entry changes |
| MenuFinalize.MenuStore.FinalizeChildren | src/iwlwifi/kconf/menu.c:347-348 | the loop over the children, some of which take in the ones after them |
| MenuFinalize.MenuStore.AdoptSiblings | src/iwlwifi/kconf/menu.c:353-379 | the entries taken become the submenu, the rest the followers |
| MenuFinalize.MenuStore.FlattenChildren | src/iwlwifi/kconf/menu.c:383-433 | the loop that lifts submenus while it walks the list it changes |
| MenuWalk.Walk | src/iwlwifi/kconf/confdata.c:790-823 | the walk along the links, with no stack, visits every entry once in source order and ends |
| MenuWalk.FinalizeAndWalk | src/iwlwifi/kconf/confdata.c:790-823 | so it does after `menu_finalize`, in the order from before it |
| SymGraph.PathCloses | src/iwlwifi/kconf/symbol.c:1299-1302 | a path of dependencies back into itself makes a cycle through the symbol met |
| SymDeps.DepsExact | src/iwlwifi/kconf/symbol.c:1223-1255 | a symbol is gone on to if and only if it stands in the reverse dependency, in the condition of a property that is no choice or selection, or in the value of a default |
| SymDeps.DepsDecide | src/iwlwifi/kconf/symbol.c:1223-1255 | what other symbols hold makes no difference to the value of any of these |
| SymSearch.CheckDepsBalanced | src/iwlwifi/kconf/symbol.c:1294-1326 | marks and stack are on return what they were, and reports are only added |
| SymSearch.CheckDepsSound | src/iwlwifi/kconf/symbol.c:1294-1326 | every report names a symbol on a cycle; without one all checked symbols can be numbered above what they depend on |
| SymSearch.ReportsExactlyCycles | src/iwlwifi/kconf/symbol.c:1294-1326 | from clear flags something is reported if and only if a checked symbol is on a cycle |
| SymSearch.WholeTable | src/iwlwifi/kconf/symbol.c:1294-1326 | over the whole table it is reported if and only if there is a cycle |
| SymSearch.ReportsOnce | src/iwlwifi/kconf/symbol.c:1294-1326 | no symbol is reported twice: the rest of the check of a symbol met again is skipped |
| SymSearch.ResultNeverTells | src/iwlwifi/kconf/symbol.c:1322-1325 | from clear marks the result is null whatever was found |
| SymCheck.Checker.CheckDeps | src/iwlwifi/kconf/symbol.c:1294-1326 | the recursion over flags, properties and expressions does exactly that search |
| SymCheck.Checker.CheckSymDeps | src/iwlwifi/kconf/symbol.c:1223-1255 | reverse dependencies, then the conditions and defaults of each property, in order |
| SymCheck.Checker.CheckExprDeps | src/iwlwifi/kconf/symbol.c:1188-1220 | the symbols of an expression from left to right, up to the first result |
| ConfigText.EscapeValue | src/iwlwifi/kconf/symbol.c:948-989 | builds the escaped value between quotes, and counted its room exactly |
| ConfigText.EscapeExact | src/iwlwifi/kconf/symbol.c:948-989 | a backslash is put before quotes and backslashes and before nothing else |
| ConfigText.UnescapeExact | src/iwlwifi/kconf/confdata.c:161-176 | of any line, what is read is what stands before the first quote without a backslash, each other backslash giving way to the character behind it |
| ConfigText.UnescapeEscaped | src/iwlwifi/kconf/confdata.c:161-176 | what is read behind the opening quote of an escaped value is the value, whatever follows |
| ConfigLine.UnescapeInPlace | src/iwlwifi/kconf/confdata.c:161-176 | moving the line down over each backslash leaves exactly the unescaped value as the string, or finds no closing quote |
| ConfigFile.ReadAssignment | src/iwlwifi/kconf/confdata.c:349-375 | cutting the line up in its buffer yields the name and the quoted value of the line |
| ConfigFile.SurvivesIffNoNewline | src/iwlwifi/kconf/confdata.c:507 | a printed value is read back if and only if it has no newline; otherwise its line is no assignment |
| ConfigFile.FileRoundTrip | src/iwlwifi/kconf/confdata.c:314-375 | a file of string values is read back as it was written |
| ConfigFile.ReadFile | src/iwlwifi/kconf/confdata.c:314-375 | the loop over the lines collects the quoted values of the file in order |
| RhashRehash.StepKeeps | src/iwlwifi/compat/lib-rhashtable.c:215-340 | at every pointer write of a move, insertion, attachment and lookup step, in any order the locks allow: chains intact, every object owned once, by the bucket its hash gives, none lost; what an insertion has locked is not moved |
| RhashRehash.InsertKeeps | src/iwlwifi/compat/lib-rhashtable.c:529-578 | so does an insertion into the table that had no successor when its bucket was locked, though it may have one by now |
| RhashRehash.LinkKeeps | src/iwlwifi/compat/lib-rhashtable.c:249-251 | the first write hangs the new bucket, of any later table that is not nested, behind the entry while the old bucket still leads to it |
| RhashRehash.PublishKeeps | src/iwlwifi/compat/lib-rhashtable.c:253 | the second write hands the entry over to that bucket, whatever has been attached behind it |
| RhashRehash.UnlinkKeeps | src/iwlwifi/compat/lib-rhashtable.c:255-259 | the third write takes it out of the old chain |
| RhashReader.AlwaysReachable | src/iwlwifi/compat/lib-rhashtable.c:215-263 | in every reachable state each object can be reached from its bucket in some table |
| RhashReader.OldBucketIntact | src/iwlwifi/compat/lib-rhashtable.c:215-263 | in the middle of a move the old bucket still leads to all its entries and to the one being moved |
| RhashReader.RunKeeps | src/iwlwifi/compat/lib-rhashtable.c:215-340 | all of this in every run of moves, locks, insertions, attachments and lookup steps, and no object is ever lost |
| RhashReader.ReaderNeverMisses | src/iwlwifi/include/linux/backport-rhashtable.h:588-626 | a lookup that may still see an object never ends without one, and what it returns has the key |
| RhashReader.LookupFinds | src/iwlwifi/include/linux/backport-rhashtable.h:588-626 | a lookup that starts while an object of the key is in the table never misses, whatever is moved, inserted or attached meanwhile, and even if it starts in a table retired since it read which is the first |
| RhashReader.LookupExact | src/iwlwifi/include/linux/backport-rhashtable.h:588-626 | while no move is half done and nothing else happens a lookup ends, with an object of the key if one is in the table and without one if not |
| RhashReader.ReachableFromFresh | src/iwlwifi/compat/lib-rhashtable.c:215-340 | so in every run from a fresh table each object of it can be reached from its bucket in an attached table |
| RhashTable.Rhashtable.RehashOne | src/iwlwifi/compat/lib-rhashtable.c:215-263 | the last entry of a chain moves to the newest table, the order of the others kept |
| RhashTable.Rhashtable.RehashChain | src/iwlwifi/compat/lib-rhashtable.c:265-284 | the bucket is emptied, its entries in front of those they join; a bucket missing from a nested table is passed, one that is there is not when the newest is nested |
| RhashTable.Rhashtable.RehashTable | src/iwlwifi/compat/lib-rhashtable.c:303-340 | the first table is emptied and retired; each bucket of the newest holds, in order, the entries that hash to it; asks to be run again exactly if there is a further table; if the newest is nested, nothing is moved and it asks to be run again, unless the first is nested too and all its buckets are missing: then that one is retired |
| RhashInsert.StepKeeps | src/iwlwifi/compat/lib-rhashtable.c:478-620 | every step but one keeps at most one head entry per key over the chain of tables |
| RhashInsert.VisitKeeps | src/iwlwifi/compat/lib-rhashtable.c:580-620 | passing a table in which the key is absent, while its bucket is locked |
| RhashInsert.MeetKeeps | src/iwlwifi/compat/lib-rhashtable.c:478-527 | meeting the key: refused, or the new object put in front of the entry found |
| RhashInsert.CommitKeeps | src/iwlwifi/compat/lib-rhashtable.c:529-578 | inserting into the last table, which had no successor when its bucket was locked |
| RhashInsert.RehashKeeps | src/iwlwifi/compat/lib-rhashtable.c:286-340 | moving, attaching and retiring meanwhile |
| RhashInsert.PassUnseenExact | src/iwlwifi/compat/lib-rhashtable.c:594-602 | after going on past a bucket that could not be allocated, some run without another such step ends with two heads of one key if and only if there is a table left and one of those passed holds the key or has a bucket locked to insert it |
| RhashInsert.OnePerKeyAlways | src/iwlwifi/compat/lib-rhashtable.c:478-620 | in every run whose steps of that kind are all harmless by that condition no two objects of one key head entries |
| RhashInsert.OnePerKeyFromFresh | src/iwlwifi/compat/lib-rhashtable.c:478-620 | so in every such run from a fresh table |
| RhashAlone.InsertExact | src/iwlwifi/compat/lib-rhashtable.c:478-620 | while no bucket is locked an insertion ends by its own steps: its object becomes an entry of the last table if no object of the key is in any, and is refused or put in front of the one found if there is; nothing else changes |
| RhashJoint.ShowsExact | src/iwlwifi/compat/lib-rhashtable.c:478-527 | under its lock a thread finds its key in the linked chain if and only if an object of it heads an entry of that table |
| RhashJoint.StepKeeps | src/iwlwifi/compat/lib-rhashtable.c:215-620 | every step of the rehash, of a lookup or of an inserting thread, past a bucket that could not be allocated only where that is harmless, keeps the invariants of both machines and their agreement on who owns and who has locked what |
| RhashJoint.OnePerKeyReachable | src/iwlwifi/compat/lib-rhashtable.c:478-620 | in every run of such steps from a fresh table, at every single pointer write, two objects of one key that can be reached from any buckets are the same |
| RhashInsert.AllocationFailureDuplicates | src/iwlwifi/compat/lib-rhashtable.c:580-620 | from a fresh table there is a run, with one failed allocation in a nested second table, after which two do |
| RhashNested.NestLeavesWholeLevels | src/iwlwifi/compat/lib-rhashtable.c:138-164 | the bits left below the top page are a whole number of levels |
| RhashNested.SlotBijection | src/iwlwifi/compat/lib-rhashtable.c:1167-1193 | hashes and leaf entries correspond one to one, every index within its page |
| RhashNested.Lookup | src/iwlwifi/compat/lib-rhashtable.c:1167-1193 | the loop of masks and shifts reaches the bucket of that slot, or stops at a missing page |
| RhashNested.NestedTable.AllocAt | src/iwlwifi/compat/lib-rhashtable.c:113-136 | a page is added where there was none, and nothing else changes |
| RhashNested.NestedTable.BucketInsert | src/iwlwifi/compat/lib-rhashtable.c:1207-1234 | reaches the same slot as a lookup, adding the pages missing on the way; fails only for want of pages |
| RhashNested.PageListExact | src/iwlwifi/compat/lib-rhashtable.c:66-83 | freeing a page visits exactly the pages below it, each once |
| RhashNested.FreeTable | src/iwlwifi/compat/lib-rhashtable.c:85-98 | the loops free that list of pages |
| RhashNested.FreeTableExact | src/iwlwifi/compat/lib-rhashtable.c:85-98 | which is every page of the table, each once, and no leaf entry |
| Asn1Grammar.ElementComplete | src/iwlwifi/compat/lib-asn1_decoder.c:57-140 | every element of the grammar of sections 8.1.2 to 8.1.5 of ITU-T X.690 is measured by the recursive reading |
| Asn1Grammar.ContentsExact | src/iwlwifi/compat/lib-asn1_decoder.c:57-140 | the size found is n if and only if the first n octets are complete elements and their end-of-contents octets |
| Asn1Indefinite.FindIndefiniteLength | src/iwlwifi/compat/lib-asn1_decoder.c:57-140 | the loop with a depth counter succeeds exactly when the recursive reading does, with the same length, never reads past the end and terminates |
| Asn1Indefinite.ReadLength | src/iwlwifi/compat/lib-asn1_decoder.c:112-116 | the loop over the length octets computes the number they spell |
| Asn1Indefinite.SkipLongTag | src/iwlwifi/compat/lib-asn1_decoder.c:86-92 | passes all later identifier octets, or finds too few octets left |
| Asn1Frames.NestedPush | src/iwlwifi/compat/lib-asn1_decoder.c:288-303 | opening an element keeps the open elements nested around the cursor |
| Asn1Frames.NestedAdvance | src/iwlwifi/compat/lib-asn1_decoder.c:312-354 | so does passing one |
| Asn1Frames.NestedPop | src/iwlwifi/compat/lib-asn1_decoder.c:380-444 | and closing one, which then is an element of the grammar with exactly those contents |
| Asn1Runs.ReadLengthIsHeader | src/iwlwifi/compat/lib-asn1_decoder.c:260-286 | an accepted header is a header of the grammar, and what it covers is there |
| Asn1Runs.OpenKeeps | src/iwlwifi/compat/lib-asn1_decoder.c:288-303 | the saved cursor, end and header size are those of the open elements; 0 is saved for the indefinite form only, and 16 and 8 bits suffice |
| Asn1Runs.TakeLeafKeeps | src/iwlwifi/compat/lib-asn1_decoder.c:312-354 | a leaf is passed whole, the action given its contents |
| Asn1Runs.EndKeeps | src/iwlwifi/compat/lib-asn1_decoder.c:380-444 | an end instruction goes round again or closes the innermost element, the action given exactly its contents |
| Asn1Runs.StepKeeps | src/iwlwifi/compat/lib-asn1_decoder.c:200-465 | every instruction keeps all of this, for any bytecode |
| Asn1Decode.EveryRunInBounds | src/iwlwifi/compat/lib-asn1_decoder.c:200-465 | in every run the cursor is within the innermost element and that within the data, and neither stack passes ten entries |
| Asn1Decode.EveryRunNests | src/iwlwifi/compat/lib-asn1_decoder.c:200-465 | what is saved nests: deeper contents start later and deeper definite ends come no later |
| Asn1Decode.ActionsGetContents | src/iwlwifi/compat/lib-asn1_decoder.c:327-349 | in a regular run every matching or ending action was given the contents of one complete element that stands in the data where its header says |
| Asn1Decode.FinishedIsComplete | src/iwlwifi/compat/lib-asn1_decoder.c:372-378 | a regular run that completes has read a whole number of complete elements |
| Asn1Exact.EveryCallExact | src/iwlwifi/compat/lib-asn1_decoder.c:320-444 | in every run, whatever the bytecode, a matching action was given the contents of an element if and only if the tag was not 0, an ending one if and only if the tag of its element was not and, in the indefinite form, the grammar ends the contents there |
| Asn1Exact.EndGetsContents | src/iwlwifi/compat/lib-asn1_decoder.c:388-442 | in every run an ending action is given the octets between the saved start and the cursor |
| Asn1Exact.ZeroForTag | src/iwlwifi/compat/lib-asn1_decoder.c:216-250 | a run that takes end-of-contents octets for an element: neither of its actions gets the contents of one, and what it has read is not a number of complete elements |
| Asn1Follow.IndefiniteEndExact | src/iwlwifi/compat/lib-asn1_decoder.c:395-409 | the octets given at the end of an indefinite element are its contents if and only if no instruction since its opening took an octet 0 for a tag while all elements open in it were indefinite |
| Asn1Follow.FinishedExact | src/iwlwifi/compat/lib-asn1_decoder.c:372-378 | a run that completes has read a number of complete elements if and only if no instruction took an octet 0 for a tag while all open elements were indefinite |
| Asn1Decode.ReturnsBehindJump | src/iwlwifi/compat/lib-asn1_decoder.c:356-465 | the return that ends what a jump began goes on behind the jump, modulo 8 bits, whatever ran in between |
| Asn1Match.TagMatchesExact | src/iwlwifi/compat/lib-asn1_decoder.c:236-249 | the test `(optag ^ tag) & ~(optag & 0x20) == 0` holds if and only if class and number are the same and the data is constructed only if the instruction is |
| Asn1Match.MatchExact | src/iwlwifi/compat/lib-asn1_decoder.c:214-258 | an instruction with a tag takes the element at the cursor only if that test holds; otherwise it fails with a mismatch or, if it may be skipped, goes on with the cursor and the open elements as they were |
| Asn1Match.RunMatchesExact | src/iwlwifi/compat/lib-asn1_decoder.c:214-258 | so in every run such an instruction moves the cursor if and only if the test holds |
| Asn1Match.MismatchExact | src/iwlwifi/compat/lib-asn1_decoder.c:214-390 | an instruction fails with a mismatch if and only if a tag differs where it may not be skipped, or nothing has matched where a choice or a set ends |
| Asn1Match.CompletesExact | src/iwlwifi/compat/lib-asn1_decoder.c:372-378 | a run ends well exactly at an instruction to complete, with nothing open and nowhere to return to |
| Asn1Match.ChoiceTakesOne | src/iwlwifi/compat/lib-asn1_decoder.c:214-370 | a run that passes a choice of several tags has taken exactly one element there, by the first alternative whose tag fits |
| Asn1Match.ChoiceFails | src/iwlwifi/compat/lib-asn1_decoder.c:366-370 | if none fits it ends there with a mismatch |
| Asn1Match.CallsExact | src/iwlwifi/compat/lib-asn1_decoder.c:336-460 | which instructions call an action: one, not refused, where a match with one takes an element, an end with one closes one, unconditionally, or after a match; otherwise none |
| Asn1Match.JumpGoes | src/iwlwifi/compat/lib-asn1_decoder.c:356-364 | a jump goes where the instruction says, with the element opened |
| Asn1Accept.ListAccepted | src/iwlwifi/compat/lib-asn1_decoder.c:163-465 | the program that matches a list tag, then elements of one tag with an action until the list ends, and completes, takes every encoding of such a list with definite lengths of up to three octets, and calls the action once for each element, in order, with its contents |
| Asn1Decode.Decode | src/iwlwifi/compat/lib-asn1_decoder.c:163-518 | the loop makes such a run, up to a number of instructions, and ends as its last instruction does |
| Scatter.Miter.PageIterNext | src/iwlwifi/compat/compat-3.9.c:82-99 | the next page starts at the position reached, empty segments passed; false exactly at the end of the segments used |
| Scatter.Miter.GetNextPage | src/iwlwifi/compat/compat-3.9.c:102-122 | leaves the position alone and a page whose rest ends with the page or the segment |
| Scatter.Miter.Next | src/iwlwifi/compat/compat-3.9.c:164-184 | maps the bytes from the position behind the ones consumed |
| Scatter.Miter.Stop | src/iwlwifi/compat/compat-3.9.c:201-225 | moves the position on by what was consumed |
| Scatter.Miter.Skip | src/iwlwifi/compat/backport-3.11.c:55-72 | moves on by exactly the bytes asked for, or fails at the end with fewer left |
| Scatter.PageCountExact | src/iwlwifi/compat/compat-3.9.c:77-80 | the 32-bit page count is right if and only if the segment ends a page or more below 2^32 |
| ScatterCopy.SgCopyBuffer | src/iwlwifi/compat/backport-3.11.c:87-124 | returns the 32-bit count of the bytes the mappings give, and leaves what copying them one by one by that counter makes of buffer or list, for every buffer length; no other segment changes |
| ScatterCopy.CopiedExact | src/iwlwifi/compat/backport-3.11.c:87-124 | of such an outcome: the number returned is that of the bytes from `skip` on that there are, up to the buffer length, and exactly those are copied, to their place, if and only if that number is less than 2^32 |
| ScatterRounds.ReturnedExact | src/iwlwifi/compat/backport-3.11.c:87-124 | the number alone is right under the same condition |
| ScatterRounds.StraightExact | src/iwlwifi/compat/backport-3.11.c:87-124 | every mapping is copied to its place if and only if the last one starts less than 2^32 bytes behind `skip` |
| ScatterRounds.StraightIf | src/iwlwifi/compat/backport-3.11.c:87-124 | so it is below 2^32 bytes of buffer, or up to as many behind `skip` |
| ScatterRounds.CrookedIf | src/iwlwifi/compat/backport-3.11.c:87-124 | and it is not where the buffer has at least 2^32 bytes and the list a page more behind `skip` |
| ScatterRounds.FetchExact | src/iwlwifi/compat/backport-3.11.c:87-124 | the buffer gets the bytes from `skip` on, whatever they are, if and only if that holds |
| ScatterRounds.PutExact | src/iwlwifi/compat/backport-3.11.c:87-124 | the list gets the bytes of the buffer, whatever they are, if and only if that holds |
| ScatterRounds.OutThenInExact | src/iwlwifi/compat/backport-3.11.c:87-124 | copying out and in again leaves the list as it was, whatever its bytes, if and only if that holds |
| ScatterRounds.InThenOutExact | src/iwlwifi/compat/backport-3.11.c:87-124 | copying in and out into another buffer gives each place of it that a mapping reaches the byte copied in, even where the counter wraps |
| ScatterRounds.NothingCounted | src/iwlwifi/compat/backport-3.11.c:87-124 | from any list of 2^32 bytes into a buffer of as many, 0 is returned |
| ScatterRounds.FirstOverwritten | src/iwlwifi/compat/backport-3.11.c:87-124 | with one more byte, in a segment of its own, and room for it, that byte ends in the first place of the buffer, and putting all back changes the list unless the two bytes are the same |
| ScatterCopy.CopyInThenOut | src/iwlwifi/compat/backport-3.11.c:87-124 | a call that copies in and one that copies out at the same place into another buffer: it has the bytes of the first wherever a mapping reaches, and below 2^32 bytes that is all there are to copy |
| ScatterCopy.CopyOutThenIn | src/iwlwifi/compat/backport-3.11.c:87-124 | a call that copies out and one that copies in again: every segment is what it was if each mapping goes to its place, as below 2^32 bytes, and not if the last one puts its first byte over a different one |
| NlaValidate.ValidateMonotone | src/iwlwifi/compat/backport-5.2.c:159-357 | an attribute accepted under some flags is accepted under any fewer, through all nesting and the strict start of a policy |
| NlaValidate.ParseMonotone | src/iwlwifi/compat/backport-5.2.c:359-403 | so is a stream; the recursion terminates on the payload even where policies refer to each other in circles |
| NlaParse.ParseExact | src/iwlwifi/compat/backport-5.2.c:359-403 | a stream is accepted if and only if each of its attributes is and, where the flags ask, nothing is left behind the last |
| NlaParse.Parse | src/iwlwifi/compat/backport-5.2.c:359-403 | the loop gives that verdict, and on success the table holds the last attribute of every type or nothing |
| NlaParse.Validate | src/iwlwifi/compat/backport-5.2.c:159-357 | the checks of one attribute, with what is nested in it |
| NlaParse.ValidateArray | src/iwlwifi/compat/backport-5.2.c:72-99 | the loop over the entries of a nested array |
| NlaParse.SameTable | src/iwlwifi/compat/backport-5.2.c:359-403 | under fewer flags an accepted stream gives the same table |
| NlaKinds.AcceptedExact | src/iwlwifi/compat/backport-5.2.c:159-357 | an attribute of a type with a policy entry is accepted if and only if its length and nesting flag are right where that is asked for, its payload is one its kind allows, and so are what is nested in it and its value; any other attribute is accepted |
| NlaKinds.FlatExact | src/iwlwifi/compat/backport-5.2.c:212-330 | what each of the kinds allows: the lengths of its payload, the end of a text, the bits of a bit field |
| NlaKinds.InnerExact | src/iwlwifi/compat/backport-5.2.c:262-311 | what is nested is accepted if and only if every attribute of it is, in an array every entry, under its policy and the same flags |
| NlaStream.WriteThenRead | src/iwlwifi/compat/backport-5.2.c:359-403 | attributes written one behind the other are found again by the walk, each with its type and payload and in order, with nothing left over |
| NlaPolicy.IntRangeExact | src/iwlwifi/compat/backport-5.2.c:101-157 | the verdict on an integer is that of its bounds if and only if, on an unsigned 64-bit attribute, a negative bound the check reads is on the right side of the value after conversion too |
| NlaPolicy.IntPolicyExact | src/iwlwifi/compat/backport-5.2.c:101-157 | a policy entry judges every value by its bounds if and only if it is not of that kind, reads no negative bound, or lets nothing pass |
| NlaPolicy.NegativeLowBound | src/iwlwifi/compat/backport-5.2.c:136-143 | there a negative lower bound turns values away that are above it |
| NlaPolicy.NegativeHighBound | src/iwlwifi/compat/backport-5.2.c:136-143 | and a negative upper bound lets values pass that are above it |
| NlaValidate.StringExact | src/iwlwifi/compat/backport-5.2.c:245-258 | a string passes if and only if it is not empty and its text, without an end, is within the length allowed |
| NlaValidate.NulStringExact | src/iwlwifi/compat/backport-5.2.c:233-258 | one that must be ended moreover has an end at the latest right behind the longest text allowed |
| NlaBitfield.BitfieldExact | src/iwlwifi/compat/backport-5.2.c:49-70 | a bit field passes if and only if it selects nothing outside the mask and sets nothing it does not select; the test in between never decides |
| RefcountRuns.StepKeeps | src/iwlwifi/compat/lib-refcount.c:65-387 | every access to the count or the lock, by any operation, keeps the record of exchanges true and each operation's knowledge of it |
| RefcountRuns.AbsorbingRun | src/iwlwifi/compat/lib-refcount.c:65-296 | once the count is 0 or saturated it stays so |
| RefcountRuns.AtMostOneReport | src/iwlwifi/compat/lib-refcount.c:181-262 | in any interleaving at most one operation ever reports that it took the count to 0 |
| RefcountRuns.ZeroIsReported | src/iwlwifi/compat/lib-refcount.c:181-262 | and one does whenever the count has come down to 0 |
| RefcountRuns.Conservation | src/iwlwifi/compat/lib-refcount.c:65-296 | an unsaturated count is the start plus all that was added less all that was taken |
| RefcountRuns.LockedReport | src/iwlwifi/compat/lib-refcount.c:315-387 | a locking decrement returns true exactly if it makes the step from 1 to 0, and then holds the lock |
| RefcountRuns.LockKept | src/iwlwifi/compat/lib-refcount.c:315-387 | no other operation takes the lock from it |
| RefcountLinear.Linearizable | src/iwlwifi/compat/lib-refcount.c:65-387 | in every run each operation that has returned did so as if made alone at one moment since it was called, with the count of that moment; if it changed the count it did so then, in one step |
| RefcountLinear.FalseHoldsNoLock | src/iwlwifi/compat/lib-refcount.c:315-387 | a locking decrement that has returned false does not hold the lock |
| Refcount.FirstRoundLegal | src/iwlwifi/compat/lib-refcount.c:65-296 | no operation exchanges 0 or the saturated value, and each changes the count by its amount or saturates it, in 32-bit arithmetic |
| Div64.Div64U64Rem | src/iwlwifi/compat/backport-3.12.c:45-69 | quotient and remainder are right for 32-bit divisors, and for others if and only if the estimate less one is not above the quotient |
| Div64.SafeDivisorExact | src/iwlwifi/compat/backport-3.12.c:53-66 | a larger divisor is safe for every dividend if and only if the part its shift drops does not add up to it under the largest estimate |
| Div64.LargeDivisorSafe | src/iwlwifi/compat/backport-3.12.c:53-66 | every divisor from 2^34 on is |
| Div64.SmallDivisorFails | src/iwlwifi/compat/backport-3.12.c:53-66 | 2^32 + 3 is not |

## Left out

- KconfigInPlace.ExprStore.EliminateDups1: cells are addressed by the way down from the root instead of by pointer, so sharing of nodes between trees and freeing them are not modelled.
- KconfigExpr.CompareYmn: the number parser of the C library is a parameter of the environment.
- KconfigPropagate.PathMeaning: the conditions are values, not written into the entries in place; reverse dependencies from `select` and `imply`, choices and the warnings of `menu_finalize` are not modelled.
- KconfigEqExact.ExprEqExact: is for expressions without `y` and `n` among the operands, but for neutral ones at the top; `expr_eliminate_yn` takes such constants away.
- KconfigAdopt.AdoptsExact: is for simplified conditions without `y` and `n` among their operands.
- KconfigAdopt.AdoptionSound: is stated for entries whose negated operands do not hold `mod`; without that it is false, as `KconfigAdopt.AdoptionNeedsTwoValuedNots` shows.
- MenuFinalize.MenuStore.FinalizeMenu: whether an entry is taken in is a parameter here; `KconfigAdopt` says what it depends on. The three links are maps from entries, not fields of heap nodes.
- MenuTree.FinalizeTitles: says nothing about the level of the finalized entry itself.
- SymCheck.Checker.CheckDeps: choices and their values are not modelled, nor the text of the report.
- ConfigFile.ReadAssignment: only quoted values are read; a line with any other value yields none.
- ConfigFile.ReadFile: only lines with quoted values are collected; tristate and number values, unset lines, warnings and the choice bookkeeping of `conf_read_simple` are not modelled.
- ConfigLine.UnescapeInPlace: the line buffer is a sequence of fixed length.
- RhashRehash.StepKeeps: steps are sequentially consistent and bucket locks atomic; memory ordering, RCU grace periods, walkers and the retry after a wrong end marker beyond one lookup are not modelled. Of an insertion there are the lock, the write and the unlocking without one; what it looks for meanwhile is the subject of `RhashInsert`.
- RhashInsert.StepKeeps: growth tests and the allocation of new tables are free choices.
- RhashReader.LookupExact: is for moments at which no move is half done; in the middle of one the chain of the old bucket ends elsewhere.
- RhashJoint.StepKeeps: is for tables without `rhlist`, whose heads an insertion replaces, and without removals.
- RhashNested.NestedTable.AllocAt: a lost race for a page is not modelled; pages are values of a tree.
- RhashTable.Rhashtable.RehashTable: the loops run without other threads between their steps; what interleaving keeps is `RhashRehash.StepKeeps`.
- Asn1Grammar.ElementComplete: the grammar says as little of identifiers and of definite contents as the scanner looks at.
- Asn1Decode.Decode: takes a bound on the number of instructions, because arbitrary bytecode need not end. An opcode that the length table leaves out fails at once, where the source first tries to match a tag with it. All ways the scanner of indefinite lengths can fail are one.
- Asn1Decode.ActionsGetContents: an action on the opening of an indefinite element is given the length octet itself, as in the source, and plain actions are given what the last instruction left. It is for regular runs; `Asn1Exact.EveryCallExact` is for all.
- Asn1Decode.FinishedIsComplete: is for regular runs; `Asn1Follow.FinishedExact` is for all that jump only into elements they open.
- Asn1Follow.FinishedExact: is for runs that jump only into elements they open. Behind another jump the contents of a primitive element are read as elements, and whether that goes well depends on its octets and not on the instructions; the test on the octets, `Asn1Exact.CompleteSize`, is for all runs. The compiler that makes the bytecode is not part of the repository.
- Asn1Follow.IndefiniteEndExact: the same; there the test for all runs is `Asn1Exact.EveryCallExact`.
- Asn1Match.CallsExact: which action of the table is called is not recorded.
- Asn1Accept.ListAccepted: is for actions that refuse nothing, and for elements whose tags are those of the program.
- Asn1Runs.StepKeeps: the straight-line part of the loop is a function from state to state.
- Scatter.Miter.Next: mapping pages, cache flushes and flags are not modelled.
- Scatter.Miter.PageIterNext: is for segments whose pages are counted right, which `Scatter.PageCountExact` characterises.
- ScatterCopy.SgCopyBuffer: the same; the memory of the segments and the buffer are sequences, so segments that overlap are not modelled, nor a negative `skip`.
- NlaStream.WriteThenRead: the writing is that of the kernel's own message helpers, which are not part of the repository.
- NlaParse.Parse: the tests for a header and the step to the next attribute follow the alignment rule of the kernel header they come from, which is not part of the repository; error messages, warnings and the extended acknowledgement are not modelled. Numbers are stored least octet first.
- NlaPolicy.IntRangeExact: the union of a policy entry is read only as what it was filled with.
- RefcountRuns.LockedReport: the mutex, spin lock and interrupt-saving forms are one.
- RefcountRuns.StepKeeps: amounts are at least 1; warnings are not modelled.
- `mconf.c`, `conf.c`, help texts, searching and printing expressions: user interface.
- Opening, renaming and locating configuration files: input and output.
- The hash table walker, shrinking, initialisation and the worker.
- All headers under `backport-include`, version wrappers and device tables.
- `sprint_oid` and `look_up_OID`: their generated data is not part of the repository.
