# LP_MP factor-graph builder and equality message, in Dafny

This project models two parts of LP_MP, a dual-decomposition MAP solver for
discrete Markov random fields.

**The factor-graph builder.** `MrfConstruction.MrfConstructor` covers three C++ classes:
- `MRFProblemConstructor`;
- the message hooks of `StandardMrfConstructor`;
- the triplet extension of `TighteningMRFProblemConstructor`.

It owns these parts:
- the unary slots, indexed by variable;
- index-aligned lists of pairwise factors, their variable pairs, and their left and right unary–pairwise messages;
- index-aligned lists of triplet factors, their variable triples and their three pairwise–triplet messages each;
- the sorted-key maps from `(v1, v2)` and `(v1, v2, v3)` to factor ids.

The LP scheduler the builder reports to is an append-only log of `AddFactor`,
`AddMessage` and `AddFactorRelation` events. Factors are their cost sequences.
`Valid()` is the class invariant of the builder:
- the lists are aligned;
- each map is exactly the inverse of its list of keys;
- every pairwise factor has `labels(v1) * labels(v2)` entries and the two messages the hooks build;
- every triplet has its three pairs keyed, and messages `3t`, `3t+1` and `3t+2` for the edges 12, 13 and 23.

**The UAI input adapter.** `UaiMrfInput.MrfInput` holds the parsed file: the
counts, the cardinalities, the clique scopes and the function tables. The
table-building parse actions keep the announced entry count at the back of the
open table by swapping. `function_table_end` accepts the table once the count
matches the size, then drops the count. `BuildMrf` is `build_mrf`, in three
phases:
1. a zero unary factor for every variable;
2. arity-1 tables overwrite those unaries entry by entry;
3. one pairwise factor per arity-2 clique.

**The equality message.** `EqualityMessages.EqualityMessage` is one hard
constraint: slot `leftVar` of a left potential and slot `rightVar` of a right
potential take the same label. The model covers these operations:
- the single make-uniform update, in which the message moves by `omega` times the gap to the minimum of the other entries;
- the batched update, with its three scans (minimum and second minimum, covered minimum) and the choice of `new_val`;
- reparametrisation of a single slot;
- primal propagation in either direction;
- the consistency check.

`REAL` is Dafny's `real`. The code only takes minima, subtracts and scales, so
nothing here depends on rounding.

The model follows the code where the two descriptions of the system differ:
- **The batched update with a single message.** The batched update damps the total weight by one half (`omega_sum = 0.5 * sum`). With one message of weight `w`, it is therefore the single update with weight `w / 2`, not `w` (`ParallelSingletonIsSingle`).
- **The pairwise copy in `build_mrf`.** It does not rearrange the table (see Findings). `BuildMrf` models the code as written; `BuildMrfTransposed` is the corrected form.

## Model

| member | source | states |
|---|---|---|
| EqualityMessages.Min | include/messages/equality_message.hxx:32-37 | the minimum is no larger than any entry |
| EqualityMessages.MinAttained | include/messages/equality_message.hxx:32-37 | the minimum is one of the entries |
| EqualityMessages.ArgMin | include/messages/equality_message.hxx:113-124 | a position holding the minimum; it is the last such position, the one the `>=` scan settles on |
| EqualityMessages.MinExceptIsMinOfOthers | include/messages/equality_message.hxx:32-37 | the minimum over all entries but `k` is attained at some other position and is no larger than every other entry |
| EqualityMessages.MinOfOthersUnique | include/messages/equality_message.hxx:32-37 | any value attained at a position other than `k` and below all of them equals that minimum |
| EqualityMessages.MinExceptAtAnyMinimiser | include/messages/equality_message.hxx:118-125 | removing any minimising position leaves the same second minimum |
| EqualityMessages.SecondMinTies | include/messages/equality_message.hxx:118-125 | `min_val <= second_min_val`, with equality exactly when the minimum is attained at two positions |
| EqualityMessages.SecondMinTieAt | include/messages/equality_message.hxx:118-125 | a second minimum equal to the minimum is attained before the last minimising position |
| EqualityMessages.TieGivesSecondMin | include/messages/equality_message.hxx:118-125 | two positions holding the minimum make the second minimum equal to it |
| EqualityMessages.MinAppend | include/messages/equality_message.hxx:35 | one more entry folds into the minimum by `min` |
| EqualityMessages.MinExceptAppend | include/messages/equality_message.hxx:121-123 | an entry appended after the excluded position folds into the second minimum by `min` |
| EqualityMessages.MinExceptLast | include/messages/equality_message.hxx:118-120 | when the new entry becomes the minimum, the old minimum becomes the second minimum |
| EqualityMessages.AddAtSlot | include/messages/equality_message.hxx:163-171 | the slot gains the message value and every other entry keeps its value |
| EqualityMessages.CoveredValues | include/messages/equality_message.hxx:104-111 | the entries at the slots the messages reference, in message order |
| EqualityMessages.NewValueIsMinExceptBestCovered | include/messages/equality_message.hxx:127-129 | `new_val` is the minimum over every entry except the smallest covered one |
| EqualityMessages.NewValueAtLeastMin | include/messages/equality_message.hxx:127-129 | `new_val` is never below the potential's minimum |
| EqualityMessages.ConvexStep | include/messages/equality_message.hxx:140 | a step by a fraction in [0, 1] of the gap toward a value above a bound stays above that bound |
| EqualityMessages.ParallelKeepsLowerBound | include/messages/equality_message.hxx:137-142 | with `omega_sum` in [0, 1], the batched update never moves a covered entry below the potential's minimum |
| EqualityMessages.ParallelStepBound | include/messages/equality_message.hxx:138-140 | one message of the batch, changed or not, keeps its slot above the minimum |
| EqualityMessages.NewValueSingleton | include/messages/equality_message.hxx:104-129 | with one message, `new_val` is the minimum over the other entries |
| EqualityMessages.ParallelSingletonIsSingle | include/messages/equality_message.hxx:98-142 | the batched update of one message with weight `w` equals the single update with weight `w / 2` |
| EqualityMessages.UniformThenRepam | include/messages/equality_message.hxx:26-40 | a single update from 0 followed by reparametrisation of its change keeps the other entries, never lowers the minimum, and for `omega == 1` makes the slot the minimum of the others |
| EqualityMessages.SingleUpdateBounds | include/messages/equality_message.hxx:39 | the updated slot is at least the minimum, and equals the minimum of the others when `omega == 1` |
| EqualityMessages.MinExceptAtLeastMin | include/messages/equality_message.hxx:32-37 | the minimum of the others is at least the overall minimum |
| EqualityMessages.UniformStep | include/messages/equality_message.hxx:39 | with a weight in [0, 1] the make-uniform step stays above any common lower bound of the slot and its target, and lands exactly on the target for weight 1 |
| EqualityMessages.RaiseSlotKeepsMin | include/messages/equality_message.hxx:165 | replacing one entry by a value no smaller than the minimum does not lower the minimum |
| EqualityMessages.PrimalFactor.constructor | include/messages/equality_message.hxx:187-188 | a factor with the given label count and primal label |
| EqualityMessages.EqualityMessage.ScanMinExcept | include/messages/equality_message.hxx:32-37 | the scan returns the minimum over every entry except `var_idx` |
| EqualityMessages.EqualityMessage.MakeFactorUniform | include/messages/equality_message.hxx:26-40 | `msg[0]` decreases by exactly `omega * (pot[var_idx] - min of the others)`; the potential is a value and is not changed |
| EqualityMessages.EqualityMessage.ReceiveMessageFromRight | include/messages/equality_message.hxx:42-47 | the single update against `rightVar` with weight 1, only when messages are computed |
| EqualityMessages.EqualityMessage.ReceiveMessageFromLeft | include/messages/equality_message.hxx:49-54 | the single update against `leftVar` with weight 1, only when messages are computed |
| EqualityMessages.EqualityMessage.ScanSmallestValues | include/messages/equality_message.hxx:113-125 | the scan yields the minimum and the second minimum counted with multiplicity, `min_val <= second_min_val` |
| EqualityMessages.EqualityMessage.ScanSmallestStep | include/messages/equality_message.hxx:116-123 | one entry keeps the minimum, a position holding it and the second minimum right for the longer prefix |
| EqualityMessages.EqualityMessage.ScanMinCovered | include/messages/equality_message.hxx:104-111 | the minimum over the referenced slots, none when no message is given |
| EqualityMessages.EqualityMessage.MakeFactorUniformParallel | include/messages/equality_message.hxx:87-143 | each message with positive weight decreases by exactly `omega_sum * (repam[slot] - new_val)`, `omega_sum` being half the weight sum; the others are untouched |
| EqualityMessages.EqualityMessage.SendMessagesToLeft | include/messages/equality_message.hxx:146-152 | the batched update reading each message's `rightVar` slot |
| EqualityMessages.EqualityMessage.SendMessagesToRight | include/messages/equality_message.hxx:154-160 | the batched update reading each message's `leftVar` slot |
| EqualityMessages.EqualityMessage.RepamLeft | include/messages/equality_message.hxx:162-166 | slot `leftVar` gains `msg` and every other entry is unchanged; `dim` must be 0 |
| EqualityMessages.EqualityMessage.RepamRight | include/messages/equality_message.hxx:167-171 | slot `rightVar` gains `msg` and every other entry is unchanged; `dim` must be 0 |
| EqualityMessages.EqualityMessage.ComputeLeftFromRightPrimal | include/messages/equality_message.hxx:183-192 | the left label becomes `leftVar` when the right label is `rightVar`, else stays; only for right chirality |
| EqualityMessages.EqualityMessage.ComputeRightFromLeftPrimal | include/messages/equality_message.hxx:194-207 | an out-of-range right label first becomes the last label, then the right label becomes `rightVar` when the left label is `leftVar`; only for left chirality |
| EqualityMessages.EqualityMessage.CheckPrimalConsistency | include/messages/equality_message.hxx:211-223 | true exactly when `left == leftVar` if and only if `right == rightVar` |
| EqualityMessages.EqualityMessage.LeftFromRightConsistency | include/messages/equality_message.hxx:185-192 | after right-to-left propagation the labels are consistent exactly when the right label matches or the left one did not |
| EqualityMessages.EqualityMessage.RightFromLeftConsistency | include/messages/equality_message.hxx:196-207 | after left-to-right propagation the right label is in range or was set to `rightVar`, and a matching left label leaves the pair consistent |
| EqualityMessages.Slots | include/messages/equality_message.hxx:150 | the slot of each message, in message order |
| MrfConstruction.Zeros | include/problem_constructors/mrf_problem_construction.hxx:374 | a cost of `n` entries, all zero |
| MrfConstruction.FactorCount | include/problem_constructors/mrf_problem_construction.hxx:185 | the number of factors the LP holds after a log, at most one per event |
| MrfConstruction.ProductDiv | include/problem_constructors/mrf_problem_construction.hxx:257 | dividing a product by one of its positive factors gives the other |
| MrfConstruction.HookDimensions | include/problem_constructors/mrf_problem_construction.hxx:251-277 | for a factor of `l1 * l2` entries, both message hooks give the pairwise loop `(l1, l2)` |
| MrfConstruction.FlatIndexBound | include/problem_constructors/mrf_problem_construction.hxx:168-177 | `i1 + i2 * labels(v1)` lies inside a factor of `labels(v1) * labels(v2)` entries |
| MrfConstruction.FlatIndexSplit | include/problem_constructors/mrf_problem_construction.hxx:173 | the flat index gives back both labels, by remainder and quotient |
| MrfConstruction.PairwiseWellLabelsKept | include/problem_constructors/mrf_problem_construction.hxx:59 | changing unary slots without removing any or changing their sizes keeps the pairwise lists well formed |
| MrfConstruction.TripletWellLabelsKept | include/problem_constructors/mrf_problem_construction.hxx:59 | the same for the triplet lists |
| MrfConstruction.PairwiseWellAppend | include/problem_constructors/mrf_problem_construction.hxx:84-88 | appending a factor under a fresh key with its two hook messages keeps the lists aligned and the map their inverse |
| MrfConstruction.TripletWellPairwiseAppend | include/problem_constructors/mrf_problem_construction.hxx:84-87 | appending a pairwise factor under a fresh key leaves every triplet's wiring intact |
| MrfConstruction.TripletWellAppend | include/problem_constructors/mrf_problem_construction.hxx:315-323 | appending a triplet under a fresh key with its messages for the edges 12, 13, 23 keeps the triplet lists aligned and the map their inverse |
| MrfConstruction.ZeroPairwiseGrowthRefl | include/problem_constructors/mrf_problem_construction.hxx:397-398 | leaving the pairwise lists alone is zero-cost growth |
| MrfConstruction.ZeroPairwiseGrowthTrans | include/problem_constructors/mrf_problem_construction.hxx:384-392 | two rounds of adding zero-cost pairwise factors make one, over the union of the allowed pairs |
| MrfConstruction.ZeroPairwiseGrowthThree | include/problem_constructors/mrf_problem_construction.hxx:384-392 | three rounds of adding at most one zero-cost pair each make one round over the three pairs |
| MrfConstruction.MissingPairEventsThree | include/problem_constructors/mrf_problem_construction.hxx:384-392 | the events of three pairs are those of each pair in turn, against the map and count the pairs before it leave |
| MrfConstruction.UnaryChainShape | include/problem_constructors/mrf_problem_construction.hxx:186-191 | exactly `n - 1` relations, the `i`-th from unary `i` to unary `i + 1` |
| MrfConstruction.Tighten | include/problem_constructors/mrf_problem_construction.hxx:402-442 | the total is the triplet search's count, plus the k-projection count when that fell short of the budget, plus the full-projection count when both fell short; every later search runs only while the budget is unmet, and the total stays within budget when each search stays within what was asked of it |
| MrfConstruction.MrfConstructor.constructor | include/problem_constructors/mrf_problem_construction.hxx:30 | an empty, valid builder over an LP with the given history |
| MrfConstruction.MrfConstructor.AppendUnaryFactor | include/problem_constructors/mrf_problem_construction.hxx:43-49 | appends one unary factor, returns the old count (the new last index) and reports the factor |
| MrfConstruction.MrfConstructor.RegisterUnaryFactor | include/problem_constructors/mrf_problem_construction.hxx:66-74 | grows the slots to `node + 1` with empty padding and fills slot `node`; an occupied slot is the error case and changes nothing; every other slot is unchanged |
| MrfConstruction.MrfConstructor.AddUnaryFactor | include/problem_constructors/mrf_problem_construction.hxx:50-64 | the same slot discipline, and on success exactly one `AddFactor` event |
| MrfConstruction.MrfConstructor.SetUnaryEntry | include/problem_constructors/mrf_problem_construction.hxx:622 | overwrites one entry of a present unary factor and nothing else, keeping the builder valid |
| MrfConstruction.MrfConstructor.HasPairwiseFactor | include/problem_constructors/mrf_problem_construction.hxx:156-164 | true exactly when some pairwise factor joins `(v1, v2)` |
| MrfConstruction.MrfConstructor.GetPairwiseFactorId | include/problem_constructors/mrf_problem_construction.hxx:150-155 | the id of the factor whose pair is `(v1, v2)` |
| MrfConstruction.MrfConstructor.GetNumberOfVariables | include/problem_constructors/mrf_problem_construction.hxx:145-149 | the number of unary slots, above every variable a pairwise or triplet factor references |
| MrfConstruction.MrfConstructor.VariablesInRange | include/problem_constructors/mrf_problem_construction.hxx:147 | every pairwise pair is ordered and every referenced variable has a slot |
| MrfConstruction.MrfConstructor.GetNumberOfLabels | include/problem_constructors/mrf_problem_construction.hxx:167 | the unary's size, which is the extent of every pairwise factor along that variable |
| MrfConstruction.MrfConstructor.PairwiseShapes | include/problem_constructors/mrf_problem_construction.hxx:80 | every pairwise factor has `labels(v1) * labels(v2)` entries over present unaries |
| MrfConstruction.MrfConstructor.GetPairwiseValue | include/problem_constructors/mrf_problem_construction.hxx:168-177 | the entry at the in-range position whose remainder and quotient by `labels(v1)` are `i1` and `i2` |
| MrfConstruction.MrfConstructor.LinkUnaryPairwiseFactor | include/problem_constructors/mrf_problem_construction.hxx:112-119 | appends the left and right hook messages and reports both, left first |
| MrfConstruction.MrfConstructor.AddPairwiseFactor | include/problem_constructors/mrf_problem_construction.hxx:75-95 | the factor and its pair are appended and keyed with the old count as id; `HasPairwiseFactor` then holds; one left and one right message; the log gains both messages, the factor and `unary(v1) -> p -> unary(v2)` |
| MrfConstruction.MrfConstructor.LinkPairwiseFactor | include/problem_constructors/mrf_problem_construction.hxx:88-92 | appends both unary messages of the new factor and logs them, then the factor and `unary(v1) -> p -> unary(v2)` |
| MrfConstruction.MrfConstructor.Construct | include/problem_constructors/mrf_problem_construction.hxx:180-191 | records the LP's factor count and logs exactly the `n - 1` relations `unary[i] -> unary[i+1]` |
| MrfConstruction.MrfConstructor.LinkUnaryChain | include/problem_constructors/mrf_problem_construction.hxx:186-191 | the log gains exactly the relations `unary[i] -> unary[i+1]`, in order |
| MrfConstruction.MrfConstructor.LinkPairwiseTripletFactor | include/problem_constructors/mrf_problem_construction.hxx:332-367 | appends the message of one pair of a triplet, sized from both factors' label counts, and reports it |
| MrfConstruction.MrfConstructor.AddTripletFactor | include/problem_constructors/mrf_problem_construction.hxx:301-331 | appends and keys the triplet with the old count as id, its messages for the pairs 12, 13 and 23, and logs them with `p12 -> t`, `p13 -> t`, `t -> p23`; the asserted bound on `var3` follows from `HasUnary(v3)` |
| MrfConstruction.MrfConstructor.LinkTripletFactor | include/problem_constructors/mrf_problem_construction.hxx:321-329 | appends the messages for the edges 12, 13 and 23 and logs them, then the factor and its three relations |
| MrfConstruction.MrfConstructor.PairwiseShapeAt | include/problem_constructors/mrf_problem_construction.hxx:340-354 | the pair of a factor is keyed to it and its size is `labels(v1) * labels(v2)` |
| MrfConstruction.MrfConstructor.AddEmptyPairwiseFactor | include/problem_constructors/mrf_problem_construction.hxx:370-375 | a pairwise factor of `labels(v1) * labels(v2)` zeros, with everything `AddPairwiseFactor` promises |
| MrfConstruction.MrfConstructor.EnsurePairwiseFactor | include/problem_constructors/mrf_problem_construction.hxx:384-386 | the pair is keyed afterwards; when it already was, nothing changes; otherwise it is the only new factor, its cost is zero, it has its two hook messages, and the log gains exactly its five events |
| MrfConstruction.MrfConstructor.EnsureTripletPairs | include/problem_constructors/mrf_problem_construction.hxx:384-392 | all three pairs are keyed afterwards; the only new pairwise factors are zero-cost ones for those that were missing, and the log gains exactly their events, in the order 12, 13, 23, with consecutive ids |
| MrfConstruction.MrfConstructor.AddTighteningTriplet | include/problem_constructors/mrf_problem_construction.hxx:378-400 | an upsert: a present triplet gives false and changes nothing; otherwise the missing pairs are added with zero cost, then a zero triplet of `labels(v1) * labels(v2) * labels(v3)` entries; the log gains the missing pairs' events, then the triplet's seven, and the result is true |
| MrfConstruction.MrfConstructor.InsertTighteningTriplet | include/problem_constructors/mrf_problem_construction.hxx:381-396 | the insertion branch: the three pairs are keyed, one zero triplet is appended and keyed, and the log gains exactly the missing pairs' events followed by the triplet's seven |
| MrfConstruction.MrfConstructor.AddZeroTriplet | include/problem_constructors/mrf_problem_construction.hxx:394-395 | once the three pairs are keyed, appends a zero triplet of `labels(v1) * labels(v2) * labels(v3)` entries keyed with the old count, and logs its seven events |
| MrfConstruction.MrfConstructor.AddTighteningTripletTwice | include/problem_constructors/mrf_problem_construction.hxx:378-400 | two calls on one triple add exactly one triplet if it was missing and none if it was present; the second call reports false |
| UaiMrfInput.EntryStep | include/problem_constructors/mrf_problem_construction.hxx:588-595 | pushing a value and swapping it with the last entry puts the value just before the count and keeps the rest |
| UaiMrfInput.AfterEntriesKeepsSentinel | include/problem_constructors/mrf_problem_construction.hxx:588-595 | after any number of entries the table is the earlier part, then the entries in order, then the count |
| UaiMrfInput.TableEndAfterEntries | include/problem_constructors/mrf_problem_construction.hxx:510-523 | after `new_function_table(n)` and `k` entries, the end test succeeds exactly when `k == n`, and dropping the count leaves the entries in order |
| UaiMrfInput.OpenTableStep | include/problem_constructors/mrf_problem_construction.hxx:588-595 | one entry on the open last table extends its entries and keeps the earlier tables |
| UaiMrfInput.OpenTableEnd | include/problem_constructors/mrf_problem_construction.hxx:510-523 | the end test on the open last table matches exactly when the entry count is reached, and then leaves the entries |
| UaiMrfInput.FileIndexOf | include/problem_constructors/mrf_problem_construction.hxx:635-641 | the file position that a builder position reads from lies inside the table |
| UaiMrfInput.Transposed | include/problem_constructors/mrf_problem_construction.hxx:635-641 | the file's table in the builder's first-variable-fastest layout, of the same size |
| UaiMrfInput.TransposedAt | include/problem_constructors/mrf_problem_construction.hxx:635-641 | the entry for labels `(l1, l2)` in the builder's layout is the file's entry at `l1 * dim2 + l2` |
| UaiMrfInput.FlatIndexCover | include/problem_constructors/mrf_problem_construction.hxx:173 | every position of a factor is the flat index of its remainder and quotient |
| UaiMrfInput.FileIndexBound | include/problem_constructors/mrf_problem_construction.hxx:638 | the file position of labels `(l1, l2)` is inside the table |
| UaiMrfInput.CopyIsNotTransposition | include/problem_constructors/mrf_problem_construction.hxx:636-641 | a 2-by-3 table that the copy loop leaves as it is, but that the file format requires to be rearranged |
| UaiMrfInput.WriteExtendsRow | include/problem_constructors/mrf_problem_construction.hxx:638 | writing the entry of labels `(l1, l2)` extends the row and leaves the finished rows finished |
| UaiMrfInput.AllRowsMatch | include/problem_constructors/mrf_problem_construction.hxx:636-640 | once every row is written, the buffer is the target |
| UaiMrfInput.RowIndicesIncrease | include/problem_constructors/mrf_problem_construction.hxx:637 | the inner loop visits increasing positions |
| UaiMrfInput.CopyPairwiseTable | include/problem_constructors/mrf_problem_construction.hxx:635-641 | the copy loop as written hands on the file's table unchanged |
| UaiMrfInput.TransposePairwiseTable | include/problem_constructors/mrf_problem_construction.hxx:635-641 | the corrected copy loop hands on the table in the builder's layout |
| UaiMrfInput.PairwiseValueOfTransposed | include/problem_constructors/mrf_problem_construction.hxx:168-177 | `GetPairwiseValue(id, l1, l2)` on a factor built from a rearranged table is the file's entry for `(l1, l2)` |
| UaiMrfInput.PairwiseValueOfCopy | include/problem_constructors/mrf_problem_construction.hxx:168-177 | on a factor holding the file's table unchanged, `GetPairwiseValue(id, l1, l2)` is the table's entry at `l1 + l2 * labels(v1)` |
| UaiMrfInput.PairwiseCost | include/problem_constructors/mrf_problem_construction.hxx:635-641 | the cost has the table's size, and is the table itself unless it is rearranged |
| UaiMrfInput.UnaryCostAfterZero | include/problem_constructors/mrf_problem_construction.hxx:619-623 | while every earlier arity-1 table on `v` is zero, `v`'s cost is zero |
| UaiMrfInput.UnaryCostAfterLast | include/problem_constructors/mrf_problem_construction.hxx:615-625 | `v`'s cost is its last arity-1 table |
| UaiMrfInput.UnariesAfter | include/problem_constructors/mrf_problem_construction.hxx:615-625 | after a prefix of the cliques, each variable's slot holds its cost so far and the other slots are unchanged |
| UaiMrfInput.PairwiseKeys | include/problem_constructors/mrf_problem_construction.hxx:627-643 | the pairs of the arity-2 cliques, at most one per clique |
| UaiMrfInput.MrfInput.constructor | include/problem_constructors/mrf_problem_construction.hxx:462-468 | an empty input record |
| UaiMrfInput.MrfInput.NewFunctionTable | include/problem_constructors/mrf_problem_construction.hxx:578-587 | a new table holding only its announced count |
| UaiMrfInput.MrfInput.FunctionTableEntry | include/problem_constructors/mrf_problem_construction.hxx:588-595 | the last table takes one entry step and the others are unchanged |
| UaiMrfInput.MrfInput.FunctionTableEnd | include/problem_constructors/mrf_problem_construction.hxx:510-523 | succeeds exactly when the count plus one is the size, and then drops the count; otherwise changes nothing |
| UaiMrfInput.MrfInput.ParseFunctionTable | include/problem_constructors/mrf_problem_construction.hxx:524 | the rule succeeds exactly when enough numbers follow; it then consumes the announced number and adds those entries as a table; otherwise the open table keeps its count |
| UaiMrfInput.MrfInput.ParseTableEntry | include/problem_constructors/mrf_problem_construction.hxx:588-595 | one number goes into the open table before its count; the end test then succeeds exactly when the count is reached, and drops the count |
| UaiMrfInput.MrfInput.AddZeroUnaries | include/problem_constructors/mrf_problem_construction.hxx:610-613 | succeeds exactly when no variable's slot was taken; then each variable has a zero unary of its cardinality, other slots are unchanged, and one factor event is logged per variable in order |
| UaiMrfInput.MrfInput.ApplyUnaryTables | include/problem_constructors/mrf_problem_construction.hxx:615-625 | each variable's unary becomes its last arity-1 table, or stays zero; other slots are unchanged |
| UaiMrfInput.MrfInput.ApplyUnaryCliques | include/problem_constructors/mrf_problem_construction.hxx:615-625 | the loop takes the unary slots from their state before any clique to their state after all of them |
| UaiMrfInput.MrfInput.ApplyUnaryTable | include/problem_constructors/mrf_problem_construction.hxx:616-624 | one clique moves the unary slots from their state after `i` cliques to their state after `i + 1` |
| UaiMrfInput.MrfInput.AddPairwiseTables | include/problem_constructors/mrf_problem_construction.hxx:627-643 | adds exactly the pairs of the arity-2 cliques in clique order, each keyed to its table (as listed, or rearranged with `transpose`), and the log gains each such clique's five events in clique order with consecutive ids |
| UaiMrfInput.MrfInput.AddPairwiseTable | include/problem_constructors/mrf_problem_construction.hxx:628-642 | one clique moves the pairwise phase (keys, built factors, log) from `i` cliques to `i + 1` |
| UaiMrfInput.MrfInput.AddPairwiseTableOfPair | include/problem_constructors/mrf_problem_construction.hxx:628-642 | an arity-2 clique whose scope no later clique repeats moves the pairwise phase one clique on |
| UaiMrfInput.MrfInput.AddPairwiseCliques | include/problem_constructors/mrf_problem_construction.hxx:627-643 | the loop takes the pairwise phase from no clique to all of them |
| UaiMrfInput.MrfInput.PairwisePhaseStart | include/problem_constructors/mrf_problem_construction.hxx:627 | before the first clique, the phase state holds with the builder's current keys, factor count and log |
| UaiMrfInput.MrfInput.PairwisePhaseEnd | include/problem_constructors/mrf_problem_construction.hxx:643 | after the last clique, the phase state gives the keys, the built factors and the log `AddPairwiseTables` promises |
| UaiMrfInput.MrfInput.BuildMrf | include/problem_constructors/mrf_problem_construction.hxx:597-644 | as written: fails exactly when a variable's slot was taken; otherwise every unary is its last arity-1 table or zero, the slots at or above the variable count are unchanged, every arity-2 clique becomes a keyed pairwise factor holding its table exactly as the file lists it, in clique order, and the log is one unary event per variable followed by each pairwise factor's events |
| UaiMrfInput.MrfInput.BuildMrfTransposed | include/problem_constructors/mrf_problem_construction.hxx:597-644 | the corrected form: everything `BuildMrf` promises, except that each pairwise factor holds its table rearranged into the builder's layout |
| UaiMrfInput.MrfInput.BuildMrfWith | include/problem_constructors/mrf_problem_construction.hxx:597-644 | both forms in one: failure exactly when a slot was taken, and on success the unaries, the untouched upper slots, the keyed pairwise factors and the exact log |
| UaiMrfInput.MrfInput.UnaryCostAfterSize | include/problem_constructors/mrf_problem_construction.hxx:619 | each variable's cost keeps its cardinality as size |
| UaiMrfInput.OverwriteUnary | include/problem_constructors/mrf_problem_construction.hxx:618-623 | checks that each entry is still zero and overwrites the zero unary with the table, leaving the other slots |
| UaiMrfInput.OverwriteStep | include/problem_constructors/mrf_problem_construction.hxx:620-622 | the entry about to be overwritten is still zero, and writing it extends the written prefix by one |
| UaiMrfInput.PairwisePhaseSkip | include/problem_constructors/mrf_problem_construction.hxx:628 | a clique of another arity leaves the pairwise phase as it was |
| UaiMrfInput.PairwisePhaseAdd | include/problem_constructors/mrf_problem_construction.hxx:628-642 | an arity-2 clique appended under a fresh key with its cost (`PairwiseCost`) moves the pairwise phase on, since no later clique has the same scope |
| UaiMrfInput.AddPairwiseClique | include/problem_constructors/mrf_problem_construction.hxx:629-641 | reads both label counts and appends the table as a pairwise factor keyed by the pair, unchanged as the code does it or, with `transpose`, rearranged into the builder's layout; the log gains the factor's five events |
| UaiMrfInput.PairwiseBuiltKept | include/problem_constructors/mrf_problem_construction.hxx:84-87 | appending factors and keys leaves a built pair built |

## Left out

- `ReceiveRestrictedMessageFromLeft/Right`: their only effect is adding plus or minus infinity, which Dafny's `real` does not have.
- `CreateConstraints` calls an external LP interface.
- All `std::cout` logging, including the two warnings inside `CheckPrimalConsistency`.
- The `std::numeric_limits<REAL>::max()` starting values of the scans. `None` stands in for them in the minimum-except and covered-minimum scans. The min/second-min scan starts from the first two entries, which gives the same result, and requires at least two entries.
- `eps` comes from a configuration header that is not part of this model, so it is a parameter.
- The Chirality and `COMPUTE_MESSAGES` compile-time switches: they become a datatype tag and a flag that the methods require.
- MrfConstruction.Tighten: states only the budget bookkeeping over the counts its searches return. The cycle search (`Cycle::TightenTriplet`, `TightenCycle`) is not part of this model, so the counts are parameters. The triangle scenario, which needs that search, is not stated.
- The PEGTL grammar, `ParseString`, `ParseFile` and `HDF5Input`: a foreign parsing library and file I/O. The numbers a rule would read are parameters. The cardinality, clique-scope and count actions are plain `push_back`s and assignments and are taken as the fields of `MrfInput`.
- `GetNumberOfPairwiseFactors`, `GetPairwiseVariables` and `GetNumberOfTripletFactors` are field reads. The model reads the fields directly.
- The CRTP factor and message containers, the concrete factor payloads and the LP scheduler's internals. Factors are their costs, and the scheduler is an event log.
- include/template_utilities.hxx and test/discrete_tomography.cpp: compile-time tuple code, and a test of a factor that is not part of this model.
- MrfConstruction.MrfConstructor.AddPairwiseFactor: requires positive label counts on both variables, because the hooks divide the factor size by them.
- MrfConstruction.MrfConstructor.AddTighteningTriplet: requires all three unary slots present with positive label counts, because the code reads their sizes.
- UaiMrfInput.MrfInput.BuildMrf: requires the well-formed input the code asserts: at most two variables per clique, ordered pairs, table sizes matching the cardinalities and no repeated pair. It also requires that every overwritten unary entry is still zero, as the code asserts before each overwrite. It states nothing about the state left by a failed call, which the code leaves half-built.
- Machine integer widths: indices and sizes are unbounded naturals.
- EqualityMessages.ParallelKeepsLowerBound: stated for a damped weight in [0, 1] only. The code's assertion on the weight sum also admits the band (1, 1 + eps], where a step overshoots `new_val` and the bound need not hold.
- UaiMrfInput.MrfInput.BuildMrfTransposed: the same requirements as `BuildMrf`, and likewise nothing about the state a failed call leaves.

## Findings

| source | as written | input that shows it | evidently intended | confidence | as-written member | corrected member |
|---|---|---|---|---|---|---|
| include/problem_constructors/mrf_problem_construction.hxx:638 | `pairwise_cost[l1 + l2*dim1] = table[l2*dim1 + l1]` reads and writes the same position, so the file's table is handed on unchanged | cardinalities `(2, 3)` and table `[0, 1, 2, 3, 4, 5]`. The file lists the second variable fastest, so labels `(1, 0)` have value 3, but `GetPairwiseValue(id, 1, 0)` reads position 1, which holds 1 | read `table[l1*dim2 + l2]`, so that each label pair keeps its file value under the builder's `i1 + i2*labels(v1)` layout. The line after it asks "or do we have to transpose the values?" | medium; not executed | UaiMrfInput.MrfInput.BuildMrf, UaiMrfInput.CopyPairwiseTable, UaiMrfInput.PairwiseValueOfCopy, UaiMrfInput.CopyIsNotTransposition | UaiMrfInput.MrfInput.BuildMrfTransposed, UaiMrfInput.TransposePairwiseTable, UaiMrfInput.PairwiseValueOfTransposed |
