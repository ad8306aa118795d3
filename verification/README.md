# Verified model of the practise repository

A Dafny model of the parts of the repository that carry state or algorithms, with proofs of what they
promise. `dafny verify dfyconfig.toml` checks everything.

**Google Mock's decision engine** (`gtest/include/gmock`). An expectation records the clauses of an
EXPECT_CALL statement; a call picks the newest live expectation whose prerequisites are satisfied, counts
the call, retires what came before, and hands out an action. `Expectations` states this as a state machine
over statements, clauses and calls on any number of mock functions, with expectations numbered in creation
order. `ExpectationInvariants` proves what each step keeps, `ExpectationRuns` what holds over whole runs,
`Verdicts` how verification follows from the calls of a run, `ClauseGrammar` what chains of clauses mean.
`SpecBuilders` has the objects themselves, with fields updated in place and sets of references, and
`MockPrograms` whole tests on them: any script of statements, clauses and calls on mock functions, sequences
and expectations takes exactly the steps of the state machine, and every run of the state machine arises that
way. `CallsInWords` says what statements record and calls do of the clauses and matchers themselves.
`PrerequisiteWalks` connects the recursive walks over prerequisites with the transitive relation.

**Matchers** (`gmock-matchers.h`, `gmock-generated-matchers.h`). `Matchers` has the terms, what each accepts
and what each explains; `MatchAndExplain` has the matching code, with listener objects and loops;
`MatchersInWords` and `ExplanationsInWords` say what is accepted and explained of numbers, couples and lists;
`ExplanationTexts` justifies treating texts as sequences of words, numbers and printed values;
`Descriptions` gives the two description functions and the meaning of their phrases; `Bracketing` treats the
nestings of AllOf and AnyOf; `BipartiteMatching` and `UnorderedElements` treat UnorderedElementsAre;
`CaseInsensitive` treats string comparison with embedded NUL characters.

**The repository's own programs.** `Echo`, `EchoInWords` and `EchoServer` (the epoll echo server), `Tftp` and `TftpServer`
(the TFTP read side, RFC 1350), `TreeSort` (the heap binary tree), `BlockedCategories` (the in-place filter),
`SessionList` (the sentinel list).

Places where the code does something other than one may expect, all kept as they are:

- A TFTP block number from 0x8000 on is negative once it is in a short, so the seek fails and the answer is the
  next block of the file instead of the one asked for: `Tftp.RightlyAnsweredExactlyWhen`. In lock step the
  sequential read position happens to be right, so transfers still work up to 65536 blocks; then number 0
  starts the file over and the transfer never ends. `Tftp.DeliveredExactlyBelowLimit` gives the exact limit.
- `handle_RRQ` leaves the file open after a short first block, so a file below 512 bytes costs one extra
  empty packet (`Tftp.PacketCount`).
- A `WillOnce` after a `WillRepeatedly` is reported and still takes effect; it replaces the inferred
  cardinality. `ClauseGrammar.MisplacedWillOnce` is the smallest case, `ClauseGrammar.InferredExactlyWhen` the
  exact condition.
- A hard read error erases the queue of the echo server and does not leave the read loop, and the result -1 of a
  failed flush, compared with an unsigned size, counts as a complete write. Both drop queued bytes
  (`Echo.ReadErrorExample`, `Echo.FailedWriteExample`); `Echo.EchoConserves` says that nothing else does.
- A drained connection keeps its entry, with an empty queue: `Echo.DrainedExactlyAfterLastPop`.
- Removing a session that was inserted twice leaves the freed session in the list
  (`SessionList.InsertedTwiceExample`); removing it again frees it again. `SessionList.FreedTwiceExactlyWhen`
  and `SessionList.NamesFreedExactlyWhen` give the exact conditions.
- A locale in which another character folds to what NUL folds to makes strings of different length equal:
  `CaseInsensitive.FoldingToNulExample`; `CaseInsensitive.DecidesExactlyWhenNulIsKept` is the exact condition.

Bodies that the headers only declare are written to meet the comments beside the declarations: the
prerequisite walks (all prerequisites means the transitive closure), `Sequence::AddExpectation` (the old last
member becomes a prerequisite of the new one; adding the last member again adds nothing), `UntypedTimes` (the
same check as its neighbours), the initial cardinality (exactly one call), the cardinality factories, the
maximum matching and the two checks that use it.

## Model

| member | source | states |
|---|---|---|
| Cardinalities.Between | gtest/include/gmock/gmock-cardinalities.h:134-135 | allows exactly the counts from min to max; its bounds are always ordered |
| Cardinalities.AtLeast | gtest/include/gmock/gmock-cardinalities.h:125-126 | allows n calls or more, for every count an int can hold |
| Cardinalities.AtMost | gtest/include/gmock/gmock-cardinalities.h:128-129 | allows n calls or fewer |
| Cardinalities.AnyNumber | gtest/include/gmock/gmock-cardinalities.h:131-132 | allows every count an int can hold |
| Cardinalities.Exactly | gtest/include/gmock/gmock-cardinalities.h:137-138 | allows n calls and no other number |
| Cardinalities.Cardinality.OverSaturatedMeansPastUpper | gtest/include/gmock/gmock-cardinalities.h:107-112 | saturated and not satisfied means past the maximum when the bounds are ordered, and not otherwise |
| Expectations.FindMatching | gtest/include/gmock/gmock-spec-builders.h:1716-1730 | the match is the newest expectation of the mock function that should handle the call; none newer should |
| ExpectationInvariants.HandleEffect | gtest/include/gmock/gmock-spec-builders.h:1190-1220 | whole effect of a handled call: one count goes up by one, and retired afterwards are those retired before, and in a call that is not excessive the prerequisites of the handler and, on saturation, the handler |
| ExpectationInvariants.RetiredPrecedes | gtest/include/gmock/gmock-spec-builders.h:769-785 | what precedes a retired expectation, however indirectly, is retired |
| ExpectationInvariants.CallKeepsInv | gtest/include/gmock/gmock-spec-builders.h:1681-1704 | a call keeps the invariant: retirement closed under prerequisites, retired expectations satisfied, sequences chained |
| ExpectationInvariants.ChainKeepsInv | gtest/include/gmock/gmock-spec-builders.h:909-1046 | any clause on the statement being written keeps the invariant |
| ExpectationInvariants.ExpectKeepsInv | gtest/include/gmock/gmock-spec-builders.h:1605-1622 | a new expectation, in an implicit sequence or not, keeps the invariant |
| ExpectationInvariants.StepIsMonotone | gtest/include/gmock/gmock-spec-builders.h:846-865 | retirement and the count of the retired are final, and the recorded clauses of a finished statement stand |
| ExpectationRuns.InvariantAlways | gtest/include/gmock/gmock-spec-builders.h:781-806 | the invariant holds in every state of every run |
| ExpectationRuns.RetirementIsFinal | gtest/include/gmock/gmock-spec-builders.h:773-785 | over any run a retired expectation stays retired and satisfied with its count unchanged, and its prerequisites are retired |
| Verdicts.VerdictFollowsCalls | gtest/include/gmock/gmock-spec-builders.h:131-135 | verification of a mock function succeeds exactly when each of its expectations has handled the calls it requires and no call it handled was flagged excessive |
| Verdicts.LiveOnesDecide | gtest/include/gmock/gmock-spec-builders.h:131-135 | the verdict is that of the expectations that are not retired |
| Verdicts.OverSaturatedMeansExceeded | gtest/include/gmock/gmock-spec-builders.h:1695-1699 | over any run an expectation is over-saturated exactly when one of the calls it handled was flagged excessive |
| Verdicts.ExcessiveCallIsFinal | gtest/include/gmock/gmock-spec-builders.h:1695-1699 | after an excessive call verification fails, however the run goes on |
| ExpectationRuns.RetiredHandlesNothing | gtest/include/gmock/gmock-spec-builders.h:1094-1104 | a retired expectation never handles a call again, not even an excessive one |
| ExpectationRuns.PrerequisitesAreDone | gtest/include/gmock/gmock-spec-builders.h:1103-1211 | when a call is handled within the cardinality, everything that precedes the handler was satisfied, is retired from then on, and handles no later call |
| ExpectationRuns.SequenceOrder | gtest/include/gmock/gmock-spec-builders.h:616-634 | once a member of a sequence has handled a call within its cardinality, no earlier member handles any call |
| ExpectationRuns.EarlierMemberPrecedes | gtest/include/gmock/gmock-spec-builders.h:624-626 | an earlier member of a sequence is a transitive prerequisite of a later one |
| ExpectationRuns.SpecIsFinal | gtest/include/gmock/gmock-spec-builders.h:1222-1227 | once a statement is finished its recorded clauses do not change for the rest of the run |
| ExpectationRuns.CallCountIsHandledCalls | gtest/include/gmock/gmock-spec-builders.h:816-828 | an expectation's call count is the number of calls it handled |
| ExpectationRuns.CountsSumToMatchedCalls | gtest/include/gmock/gmock-spec-builders.h:823-828 | the call counts add up to the number of matched calls |
| ExpectationRuns.ExcessiveMeansOverSaturated | gtest/include/gmock/gmock-spec-builders.h:1695-1699 | a call is flagged excessive exactly when its handler is over-saturated afterwards |
| ExpectationRuns.RetiringNeverOverSaturates | gtest/include/gmock/gmock-spec-builders.h:1210-1215 | with RetiresOnSaturation an expectation is over-saturated exactly when no call is allowed at all and one came; otherwise saturated means retired |
| ExpectationRuns.HandsOutItsScript | gtest/include/gmock/gmock-spec-builders.h:1153-1181 | over any run the actions an expectation hands out are its script, in order |
| ExpectationRuns.ScriptInWords | gtest/include/gmock/gmock-spec-builders.h:1183-1220 | the script is the WillOnce actions, then the repeated action up to the upper bound, then the default |
| ExpectationRuns.OnlyWillOnce | gtest/include/gmock/gmock-spec-builders.h:1002-1005 | with WillOnce clauses but neither Times nor WillRepeatedly the repeated action is never used |
| CallsInWords.HandlerTakesCall | gtest/include/gmock/gmock-spec-builders.h:1086-1104 | over any run the handler of a call belongs to the mock function, is live, accepts every argument by its own matcher and all of them by its With matcher, and all that precedes it is satisfied |
| CallsInWords.CallGoesToNewestWithoutReason | gtest/include/gmock/gmock-spec-builders.h:1716-1730 | a call is unexpected exactly when every expectation of the mock function is retired, waits for something, or rejects; otherwise it goes to the newest that is none of these |
| CallsInWords.ActionOfCall | gtest/include/gmock/gmock-spec-builders.h:1153-1220 | a call is excessive exactly when the handler has had all calls it allows, and gets no action then; otherwise it performs the WillOnce action of its turn, or the repeated one when they are used up, and nothing for "do default" |
| CallsInWords.RecordsItsStatement | gtest/include/gmock/gmock-spec-builders.h:1605-1616 | every expectation has the mock function and the matchers of the statement that created it |
| CallsInWords.MembersWereNamed | gtest/include/gmock/gmock-spec-builders.h:616-634 | the members of a sequence are exactly the expectations whose statement named it, as implicit sequence or in a clause |
| CallsInWords.PrerequisitesWereAdded | gtest/include/gmock/gmock-spec-builders.h:937-977 | the direct prerequisites of an expectation are exactly those its After clauses named and the last members of the sequences it joined |
| CallsInWords.StatementIsChain | gtest/include/gmock/gmock-spec-builders.h:908-1046 | in any run a statement leaves what the chain of its clauses records |
| ClauseGrammar.CheckerIsGrammar | gtest/include/gmock/gmock-spec-builders.h:48-58 | a chain of clauses of any length raises no failure exactly when it is in the documented grammar |
| ClauseGrammar.ChecksFollowGrammar | gtest/include/gmock/gmock-spec-builders.h:722-732 | the same from any point of a statement on |
| ClauseGrammar.ChainRecords | gtest/include/gmock/gmock-spec-builders.h:973-1006 | the actions are those of the WillOnce clauses in written order, and prerequisites accumulate |
| ClauseGrammar.RetiresIsRecorded | gtest/include/gmock/gmock-spec-builders.h:1034-1046 | the flag is set after a chain exactly when it was before or some clause is RetiresOnSaturation |
| ClauseGrammar.LastWithCounts | gtest/include/gmock/gmock-spec-builders.h:909-923 | the extra matcher is that of the last With, and stays what it was without one |
| ClauseGrammar.LastRepeatedCounts | gtest/include/gmock/gmock-spec-builders.h:1010-1031 | the repeated action is that of the last WillRepeatedly |
| ClauseGrammar.NewExpInWords | gtest/include/gmock/gmock-spec-builders.h:885-896 | a new expectation takes all arguments its matchers take, allows exactly one call, and does the default |
| ClauseGrammar.DocumentedStatement | gtest/include/gmock/gmock-spec-builders.h:1002-1026 | a grammatical statement records its actions and prerequisites, and its cardinality is that of Times or else the documented one: n for n WillOnce clauses, at least n with WillRepeatedly, one with neither |
| ClauseGrammar.InferredExactlyWhen | gtest/include/gmock/gmock-spec-builders.h:1002-1026 | in any chain without Times, in order or not, the inferred cardinality is the documented one exactly when the last action clause is not a WillOnce or there is no WillRepeatedly |
| ClauseGrammar.LastActionClauseDecides | gtest/include/gmock/gmock-spec-builders.h:996-1032 | the last action clause alone decides what cardinality a chain without Times leaves |
| ClauseGrammar.LastTimesCounts | gtest/include/gmock/gmock-spec-builders.h:1002-1004 | with Times anywhere in a chain the last Times is the cardinality, whatever the action clauses |
| PrerequisiteWalks.AllSatisfiedUnfolds | gtest/include/gmock/gmock-spec-builders.h:808-810 | asking direct prerequisites and, recursively, theirs decides the transitive question |
| PrerequisiteWalks.RetireDownOneMore | gtest/include/gmock/gmock-spec-builders.h:769-771 | retiring below one more direct prerequisite, or skipping it when retired, extends the retired set by exactly what is under it |
| PrerequisiteWalks.RetiredNeedsNothing | gtest/include/gmock/gmock-spec-builders.h:769-771 | stopping at a retired expectation misses nothing |
| SpecBuilders.ExpectationBase.With | gtest/include/gmock/gmock-spec-builders.h:908-924 | takes the With step of the state machine on its fields |
| SpecBuilders.ExpectationBase.Times | gtest/include/gmock/gmock-spec-builders.h:843-844 | takes the Times step |
| SpecBuilders.ExpectationBase.InSequence | gtest/include/gmock/gmock-spec-builders.h:937-947 | takes the InSequence step and joins the sequence |
| SpecBuilders.ExpectationBase.After | gtest/include/gmock/gmock-spec-builders.h:965-977 | takes the After step: the named expectations become prerequisites |
| SpecBuilders.ExpectationBase.WillOnce | gtest/include/gmock/gmock-spec-builders.h:995-1007 | takes the WillOnce step |
| SpecBuilders.ExpectationBase.WillRepeatedly | gtest/include/gmock/gmock-spec-builders.h:1009-1032 | takes the WillRepeatedly step |
| SpecBuilders.ExpectationBase.RetiresOnSaturation | gtest/include/gmock/gmock-spec-builders.h:1034-1046 | takes the RetiresOnSaturation step |
| SpecBuilders.ExpectationBase.AllPrerequisitesAreSatisfied | gtest/include/gmock/gmock-spec-builders.h:808-810 | the recursive walk terminates and answers for all transitive prerequisites |
| SpecBuilders.ExpectationBase.RetireAllPreRequisites | gtest/include/gmock/gmock-spec-builders.h:769-771 | the walk in place, with its early exit, retires exactly the transitive prerequisites |
| SpecBuilders.ExpectationBase.Matches | gtest/include/gmock/gmock-spec-builders.h:1086-1091 | all argument matchers and the extra matcher accept |
| SpecBuilders.ExpectationBase.ShouldHandleArguments | gtest/include/gmock/gmock-spec-builders.h:1093-1104 | live, prerequisites satisfied, arguments accepted |
| SpecBuilders.ExpectationBase.GetCurrentAction | gtest/include/gmock/gmock-spec-builders.h:1152-1181 | every indexed access is in bounds and yields the action of the current count |
| SpecBuilders.ExpectationBase.GetActionForArguments | gtest/include/gmock/gmock-spec-builders.h:1190-1220 | all objects afterwards, and the action, are those of the state machine |
| SpecBuilders.Sequence.AddExpectation | gtest/include/gmock/gmock-spec-builders.h:624-633 | the old last member becomes a prerequisite; adding the last member again adds nothing |
| SpecBuilders.FunctionMocker.AddNewExpectation | gtest/include/gmock/gmock-spec-builders.h:1605-1622 | one fresh record joins the registry and the mocker's list, and that very expectation joins the implicit sequence if there is one |
| SpecBuilders.FunctionMocker.FindMatchingExpectationLocked | gtest/include/gmock/gmock-spec-builders.h:1716-1730 | the reverse walk over the mocker's own list finds the newest match among all expectations |
| SpecBuilders.FunctionMocker.UntypedFindMatchingExpectation | gtest/include/gmock/gmock-spec-builders.h:1681-1704 | one call is one step of the state machine, with its handler, action and excess flag |
| SpecBuilders.FunctionMocker.VerifyExpectations | gtest/include/gmock/gmock-spec-builders.h:131-135 | the loop over the mocker's own list gives the verdict over all expectations |
| MockPrograms.ExpectOn | gtest/include/gmock/gmock-spec-builders.h:1605-1622 | on all objects of a test, an EXPECT_CALL statement is the Expect step, in an implicit sequence with any history or in none |
| MockPrograms.ChainOn | gtest/include/gmock/gmock-spec-builders.h:909-1046 | on all objects of a test, any clause is the Chain step |
| MockPrograms.CallOn | gtest/include/gmock/gmock-spec-builders.h:1672-1704 | on all objects of a test, a call is the Call step, with its outcome |
| MockPrograms.Execute | gtest/include/gmock/gmock-spec-builders.h:1672-1680 | for every script of statements, clauses and calls the objects take exactly the steps of a run of the state machine, with its replies and its verdicts |
| MockPrograms.ReplyInWords | gtest/include/gmock/gmock-spec-builders.h:1681-1704 | a call in a script is answered unmatched exactly when every expectation of the mock function has a reason not to take it, and otherwise with the action and excess flag of the newest that has none |
| MockPrograms.ExecutesEveryRun | gtest/include/gmock/gmock-spec-builders.h:1672-1680 | every run of the state machine on existing mock functions and sequences is what executing its events does |
| MatchersInWords.ComparisonsInWords | gtest/include/gmock/gmock-matchers.h:926-973 | the comparison matchers accept the numbers that compare so |
| MatchersInWords.PairsInWords | gtest/include/gmock/gmock-matchers.h:2953-3079 | the matchers of pairs and fields ask about the right field |
| MatchersInWords.ContainersInWords | gtest/include/gmock/gmock-matchers.h:2818-2836 | Contains, Each, ElementsAre and Pointwise, said of the elements and their pairs |
| Matchers.SortedSorts | gtest/include/gmock/gmock-matchers.h:2654-2657 | the sorted container is a sorted rearrangement |
| MatchersInWords.SortedGoesOneWay | gtest/include/gmock/gmock-matchers.h:2654-2657 | it ascends, or descends for the reverse comparator |
| MatchersInWords.WhenSortedInWords | gtest/include/gmock/gmock-matchers.h:2651-2674 | WhenSorted asks about the one sorted rearrangement of a list of numbers |
| MatchAndExplain.RunMatcher | gtest/include/gmock/gmock-matchers.h:141-181 | for every term the result is what the term accepts, whoever listens; an interested listener gets exactly the explanation appended and an uninterested one nothing |
| MatchAndExplain.Matches | gtest/include/gmock/gmock-matchers.h:260-264 | asking without a listener gives the same result |
| MatchAndExplain.MatchPrintAndExplain | gtest/include/gmock/gmock-matchers.h:695-721 | both of its branches agree on the result; the value is printed before the inner explanation |
| MatchAndExplain.RunBothOf | gtest/include/gmock/gmock-matchers.h:1513-1541 | accepts what both accept; explains the first failure, or joins both successes |
| MatchAndExplain.RunEitherOf | gtest/include/gmock/gmock-matchers.h:1685-1713 | accepts what either accepts; explains the first success, or joins both failures |
| MatchAndExplain.RunQuantifier | gtest/include/gmock/gmock-matchers.h:2818-2836 | the one loop decides both Contains and Each and explains the first deciding element |
| MatchAndExplain.RunKey | gtest/include/gmock/gmock-matchers.h:2953-2963 | accepts by the first field |
| MatchAndExplain.RunPair | gtest/include/gmock/gmock-matchers.h:3035-3079 | accepts by both fields, in all of its branches |
| MatchAndExplain.RunField | gtest/include/gmock/gmock-matchers.h:2209-2213 | accepts by the selected member |
| MatchAndExplain.RunElementsAre | gtest/include/gmock/gmock-matchers.h:3163-3241 | the single pass accepts exactly containers of the right length whose elements match one by one |
| MatchAndExplain.RunPointwise | gtest/include/gmock/gmock-matchers.h:2751-2784 | accepts exactly containers of the right length whose pairs match one by one |
| MatchAndExplain.RunWhenSorted | gtest/include/gmock/gmock-matchers.h:2651-2674 | accepts by the sorted container, in both branches |
| ExplanationTexts.EmptyExplanation | gtest/include/gmock/gmock-matchers.h:676-683 | asking whether an explanation is the empty string is asking whether it has no pieces, however values are printed |
| ExplanationsInWords.ExplanationIsTrue | gtest/include/gmock/gmock-matchers.h:141-181 | every explanation is true of the matcher and the value, down to its innermost reason |
| ExplanationsInWords.BothOfExplained | gtest/include/gmock/gmock-matchers.h:1513-1541 | AllOf passes on what the first failure explains and joins what both explain when both match |
| ExplanationsInWords.EitherOfExplained | gtest/include/gmock/gmock-matchers.h:1685-1713 | AnyOf passes on what the first success explains and joins what both explain when neither matches |
| ExplanationsInWords.ContainsExplained | gtest/include/gmock/gmock-matchers.h:2818-2836 | Contains names the first element that matches, and says that it does |
| ExplanationsInWords.EachExplained | gtest/include/gmock/gmock-matchers.h:2818-2836 | Each names the first element that does not match, and says so |
| ExplanationsInWords.ElementsAreCounted | gtest/include/gmock/gmock-matchers.h:3204-3214 | a wrong number of elements is named, unless it is 0 |
| ExplanationsInWords.ElementsAreMismatch | gtest/include/gmock/gmock-matchers.h:3216-3223 | the element named is the first that its own matcher rejects |
| ExplanationsInWords.ElementsAreMatch | gtest/include/gmock/gmock-matchers.h:3225-3239 | when all match, the elements that have an explanation are listed with it in order |
| ExplanationsInWords.PointwiseExplained | gtest/include/gmock/gmock-matchers.h:2751-2784 | the pair named is the first that does not match |
| ExplanationsInWords.WhenSortedExplained | gtest/include/gmock/gmock-matchers.h:2651-2674 | the sorted container is printed and explained |
| ExplanationsInWords.PairMismatch | gtest/include/gmock/gmock-matchers.h:3046-3058 | the field named is the first that fails |
| ExplanationsInWords.PairMatch | gtest/include/gmock/gmock-matchers.h:3064-3079 | when both fields match, each explanation goes with its own field |
| ExplanationsInWords.FieldExplained | gtest/include/gmock/gmock-matchers.h:2209-2213 | the value printed is that of the field asked about |
| Descriptions.DescriptionsAreTruthful | gtest/include/gmock/gmock-matchers.h:121-138 | for every term the description holds of exactly the values that match, and the negated description of exactly those that do not |
| Descriptions.QuantifiersTruthful | gtest/include/gmock/gmock-matchers.h:2853-2891 | the phrases of Contains and Each and of their negations are true to the quantifiers |
| Descriptions.ItemsTruthful | gtest/include/gmock/gmock-matchers.h:3128-3161 | the list phrases of ElementsAre and of its negation are true |
| Bracketing.NestingIsItsLeaves | gtest/include/gmock/gmock-matchers.h:1491-1548 | any nesting of AllOf or AnyOf matches and explains as its list of leaves does |
| Bracketing.BracketingDoesNotMatter | gtest/include/gmock/gmock-matchers.h:1550-1601 | two nestings of the same list give the same result and the same explanation |
| Bracketing.OverloadsAgreeWithVariadic | gtest/include/gmock/gmock-generated-matchers.h:997-1161 | the balanced overloads and the right-nested variadic list are equivalent, for lists of any length |
| Bracketing.BalancedLeaves | gtest/include/gmock/gmock-generated-matchers.h:1000-1078 | the balanced nesting keeps every matcher once and in order |
| Bracketing.BalancedSplits | gtest/include/gmock/gmock-generated-matchers.h:1000-1078 | the two sides of a balanced nesting are the halves of the list, the first rounded down |
| Bracketing.RightNestedLeaves | gtest/include/gmock/gmock-matchers.h:1567-1600 | the right-nested list keeps every matcher once and in order |
| BipartiteMatching.MatchMatrix.SetEdge | gtest/include/gmock/gmock-matchers.h:3269-3288 | setting one edge changes that edge and no other |
| BipartiteMatching.CellsDiffer | gtest/include/gmock/gmock-matchers.h:3286-3288 | two coordinates never share a cell of the flattened table |
| BipartiteMatching.FindMaxBipartiteMatching | gtest/include/gmock/gmock-matchers.h:3302-3305 | the result is a matching, and no matching is larger |
| BipartiteMatching.TryAugment | gtest/include/gmock/gmock-matchers.h:3302-3305 | a search that succeeds adds one element and one matcher; one that fails leaves a closed set of taken matchers behind |
| BipartiteMatching.BlockedMeansMaximum | gtest/include/gmock/gmock-matchers.h:3302-3305 | the block left by the failed searches bounds every other matching |
| UnorderedElements.AnalyzeElements | gtest/include/gmock/gmock-matchers.h:3409-3433 | an edge of the matrix is set exactly when that matcher accepts that element |
| UnorderedElements.VerifyAllElementsAndMatchersAreMatched | gtest/include/gmock/gmock-matchers.h:3326-3328 | nobody is without a possible partner |
| UnorderedElements.FindPairing | gtest/include/gmock/gmock-matchers.h:3307-3308 | true exactly when every matcher can be given an element of its own |
| UnorderedElements.MatchUnordered | gtest/include/gmock/gmock-matchers.h:3377-3404 | accepts a container exactly when some rearrangement of it is accepted by ElementsAre with the same matchers; a wrong number of elements is explained to an interested listener |
| UnorderedElements.UnorderedMeansRearranged | gtest/include/gmock/gmock-matchers.h:3344-3404 | equal counts and a perfect matching exist exactly when such a rearrangement does |
| UnorderedElements.OrderDoesNotMatter | gtest/include/gmock/gmock-matchers.h:3344-3404 | the answer is the same for every order of the elements |
| CaseInsensitive.EqualsWholeStrings | gtest/include/gmock/gmock-matchers.h:1099-1120 | the recursion over embedded NULs decides equality of length and of every folded character |
| CaseInsensitive.CStringEqualsComparesHeads | gtest/include/gmock/gmock-matchers.h:1089-1097 | a C string comparison sees exactly the parts before the first NUL |
| CaseInsensitive.DecidesExactlyWhenNulIsKept | gtest/include/gmock/gmock-matchers.h:1099-1120 | the recursion decides equality of whole strings, for all strings, exactly for the folds that send no other character to what NUL folds to |
| Echo.EchoConserves | echo/epoll/echo_server.cpp:118-184 | for every connection and any interleaving of reads, failed reads, flushes and failed flushes, apart from a first write that fails and a flush of an empty queue: sent bytes followed by queued bytes are the received bytes exactly as long as no read failed with something queued and no flush failed |
| Echo.ReadErrorExample | echo/epoll/echo_server.cpp:127-133 | a run of three events in which a failed read loses a received byte |
| Echo.FailedWriteExample | echo/epoll/echo_server.cpp:171-181 | a run of three events in which a failed flush loses a received byte |
| Echo.EchoAccountsForBytes | echo/epoll/echo_server.cpp:118-184 | in the same runs sent and queued bytes are received bytes in order, and exactly those are missing that failed reads and failed flushes dropped |
| EchoInWords.BytesOfCalls | echo/epoll/echo_server.cpp:118-184 | over any run the bytes received are those the reads delivered, the bytes sent those the writes took, and their number is the sum of the results of the writes |
| EchoInWords.QueueIsTheRest | echo/epoll/echo_server.cpp:139-181 | as long as nothing that drops bytes has happened, the queue is what the reads delivered past the sum of the results |
| EchoInWords.EntryExactlyAfterRead | echo/epoll/echo_server.cpp:127-157 | there is an entry exactly when a read has delivered something since the last hard error |
| EchoInWords.QueueIsPushed | echo/epoll/echo_server.cpp:144-183 | the strings wait in the order they were pushed, one for each read, the first without what flushes took of it |
| Echo.QueuesAreWellFormed | echo/epoll/echo_server.cpp:148-172 | queued strings have 1 to 1024 bytes, so the assertion on a write's result holds; without an entry nothing is queued |
| Echo.ReadAppends | echo/epoll/echo_server.cpp:139-157 | a read adds its bytes at the end, whether half of it is echoed at once or all of it is queued |
| Echo.FlushMoves | echo/epoll/echo_server.cpp:168-183 | a partial or complete write of the front string moves bytes from the queue to the sent ones; a failed one drops the whole string |
| Echo.DrainSendsAll | echo/epoll/echo_server.cpp:161-184 | as many flushes as there are queued bytes, each writing something, send all that is queued, in order; the map entry stays |
| Echo.DrainIsRun | echo/epoll/echo_server.cpp:161-184 | every run that has left an entry goes on to that state with flushes of the one descriptor |
| Echo.DrainedExactlyAfterLastPop | echo/epoll/echo_server.cpp:164-181 | an entry has an empty queue, whose front the next writable event would take, exactly when the last event on the descriptor was a flush that popped the last string |
| EchoServer.Server.OnReadable | echo/epoll/echo_server.cpp:116-159 | the read loop turns every result of its script up to the first that would block or ends into one event of the run; a hard error does not stop it |
| EchoServer.Server.OnReadError | echo/epoll/echo_server.cpp:127-133 | a hard error erases the entry and keeps the connection |
| EchoServer.Server.HandleData | echo/epoll/echo_server.cpp:139-157 | one read through the shared buffer is one read step |
| EchoServer.Server.OnWritable | echo/epoll/echo_server.cpp:161-184 | one write is one flush step, with the comparison of a signed result and an unsigned size; nothing happens without a map entry |
| EchoServer.Server.SessionMapIsUnsentRest | echo/epoll/echo_server.cpp:89-184 | the session map holds the unsent rest of what a connection received exactly as long as nothing that drops bytes has happened to it |
| Tftp.DecodesAsSent | tftp/tftp_server.c:34-49 | the packet is the bytes 0 and 3, the block number with its high byte first, and the data, and decodes to them |
| Tftp.FirstPacketFits | tftp/tftp_server.c:118-121 | the 512 bytes set aside for the first packet hold it exactly for files of at most 508 bytes |
| Tftp.RightlyAnsweredExactlyWhen | tftp/tftp_server.c:133-155 | for every file length, position and number: the answer is right for every file of that length exactly when the number is below 0x8000, or the position is the one asked for, or both lie past the end |
| Tftp.LargeAckExample | tftp/tftp_server.c:118-144 | after the request for any file of 513 bytes, acknowledging 0x8000 is answered with its last byte where nothing is left |
| Tftp.RepeatedAckRepeatsPacket | tftp/tftp_server.c:133-155 | in any stream, repeating an acknowledgement below 0x8000 at any later time repeats the packet or is not answered |
| Tftp.AnyStreamOfAcks | tftp/tftp_server.c:133-155 | for any stream of acknowledgements each answer below 0x8000 is the slice asked for, and nothing follows a short packet |
| Tftp.TransferRuns | tftp/tftp_server.c:86-155 | step k of a lock-step transfer sends the expected packet and leaves the file right behind it |
| Tftp.TransferDelivers | tftp/tftp_server.c:118-155 | below 32 MiB the transfer stops after exactly the stated number of packets and their payloads are the file |
| Tftp.TransferLoops | tftp/tftp_server.c:139-152 | from 32 MiB on it never stops, and the packets repeat with period 65536 |
| Tftp.DeliveredExactlyBelowLimit | tftp/tftp_server.c:133-155 | a transfer ends with the whole file delivered exactly when the file is below 512 * 65536 bytes |
| Tftp.ClosedStaysClosed | tftp/tftp_server.c:135-138 | after the end of a transfer further acknowledgements change nothing |
| TftpServer.Server.MakeData | tftp/tftp_server.c:34-49 | the buffer holds exactly the packet, written with a moving index |
| TftpServer.Server.ParseRequest | tftp/tftp_server.c:88-101 | the two pointer walks stop and split the buffer into the NUL-terminated name and mode |
| TftpServer.Server.HandleRRQ | tftp/tftp_server.c:86-127 | the named file is opened and its first block sent, or nothing is |
| TftpServer.Server.HandleAck | tftp/tftp_server.c:133-155 | the buffer decodes to the answer, and the global file is left as stated |
| TftpServer.Server.HandleReq | tftp/tftp_server.c:156-187 | only acknowledgements are answered; other requests change neither file nor buffer |
| TftpServer.Server.HandleStream | tftp/tftp_server.c:133-187 | for any script of request buffers, the buffers sent for the acknowledgements carry the answers to the stream of their numbers |
| TftpServer.AnswerIsSlice | tftp/tftp_server.c:133-155 | of the buffers sent in any stream, each that answers a number below 0x8000 decodes to the next number and the slice asked for, and all before it were sent too |
| TftpServer.RepeatIsAnsweredAlike | tftp/tftp_server.c:133-155 | a repeated acknowledgement that is answered gets a buffer that decodes to the same packet |
| TftpServer.Server.Transfer | tftp/tftp_server.c:86-187 | a request and acknowledgements made from the newest packet make the handlers send the packets of the lock-step transfer |
| TftpServer.Server.HandleNewConnection | tftp/tftp_server.c:69-85 | only read requests open a file, and the fall-through changes nothing |
| TreeSort.BinaryTree.PushDataAux | algorithm/binary-tree/normal/binary-tree.cpp:36-67 | the tree stays acyclic and ordered, and the new node stands after every node that is not greater |
| TreeSort.BinaryTree.PushData | algorithm/binary-tree/normal/binary-tree.cpp:14-18 | the order gains one new node with the value |
| TreeSort.BinaryTree.PreorderPrintAux | algorithm/binary-tree/normal/binary-tree.cpp:26-35 | prints the values in order |
| TreeSort.PushedLeft | algorithm/binary-tree/normal/binary-tree.cpp:45-55 | inserting a smaller node into the whole order is inserting it into the left part |
| TreeSort.PushedRight | algorithm/binary-tree/normal/binary-tree.cpp:56-66 | inserting a node that is not smaller is inserting it into the right part |
| TreeSort.TreeSorts | algorithm/binary-tree/normal/binary-tree.cpp:14-67 | after any pushes the order is a sorted and stable rearrangement |
| TreeSort.PrintoutIsSorted | algorithm/binary-tree/normal/binary-tree.cpp:69-79 | the printed values are sorted and a permutation of the pushed ones |
| TreeSort.SortByTree | algorithm/binary-tree/normal/binary-tree.cpp:69-79 | the printout of an array is sorted and a rearrangement of it; it is the printout of the values pushed in that order |
| BlockedCategories.RemoveAt | go/custom/block_soft.go:34 | the shift within the backing array drops one element and keeps the order |
| BlockedCategories.FilterInPlace | go/custom/block_soft.go:32-37 | the loop with its step back ends and leaves the order-preserving filter |
| BlockedCategories.GetBlockedCates | go/custom/block_soft.go:25-47 | every list is filtered, and the result lists once each exactly the categories all of whose items are blocked |
| BlockedCategories.UnblockedIsEmpty | go/custom/block_soft.go:41-45 | nothing is left exactly when every item is blocked |
| BlockedCategories.UnblockedKeeps | go/custom/block_soft.go:32-37 | the filter keeps each unblocked item as often as it occurred and no blocked one |
| BlockedCategories.UnblockedInOrder | go/custom/block_soft.go:32-37 | the filter is the list at the ascending indices of the items that are not blocked |
| SessionList.CreateSessionList | tftp/list.c:4-16 | an empty list behind a sentinel |
| SessionList.GetListLength | tftp/list.c:18-32 | the number of items; 0 for a null list |
| SessionList.InsertToSessionList | tftp/list.c:33-39 | the item is prepended and the chain stays acyclic |
| SessionList.RemoveFromList | tftp/list.c:41-58 | the first occurrence is unlinked and freed with its session, nothing when it is absent; the chain stays acyclic and holds no freed node, and it still names the freed session exactly when that was inserted twice |
| SessionList.RemoveFirstRemoves | tftp/list.c:43-57 | exactly the first occurrence goes |
| SessionList.InsertThenRemove | tftp/list.c:33-58 | on the heap, inserting and then removing a session restores the list and frees the session, also when the list held it before |
| SessionList.Use | tftp/list.c:4-58 | any script of insertions and removals on a new list leaves the items and frees the sessions that the script says; no node is freed twice and no freed node is in the chain |
| SessionList.InsertedIsHeldOrFreed | tftp/list.c:33-58 | over any script a session is in the list or freed, together as often as it was inserted |
| SessionList.FreedTwiceExactlyWhen | tftp/list.c:41-58 | a session is freed twice exactly when the script removes it after an insertion and again after two |
| SessionList.NamesFreedExactlyWhen | tftp/list.c:41-58 | the list names a freed session exactly when it was removed after an insertion and was inserted more often than it was freed |
| SessionList.InsertedOnceIsSafe | tftp/list.c:33-58 | a session inserted at most once is never freed twice and never named once it is freed |
| SessionList.InsertedTwiceExample | tftp/list.c:33-58 | a session inserted twice and removed once is freed and still in the list |

## Left out

- Sockets, epoll, stdio and redis calls: their results are parameters or operations on byte sequences.
- Mutexes, thread-local sequences, shared ownership and the deletion of objects: each mock call is one atomic step.
- Call counts past INT_MAX: counts are unbounded, while the int of the source would overflow.
- Null Expectation handles in After: only expectations of the registry are named.
- Clauses on a statement that is already finished: the state machine only lets the statement being written take clauses, as the comments on the fields require.
- SpecBuilders.FunctionMocker.VerifyExpectations: gives the verdict and does not clear the expectations, because the body that does is not part of the headers.
- The texts of the engine's messages and the warnings of CheckActionCountIfNotDone.
- User-defined cardinalities, and actions that run mock functions: actions are opaque values.
- The spelling of descriptions: they are modelled as sentence patterns with a meaning, not as characters; explanations are sequences of fixed words, numbers, printed values and type names.
- Matcher types: terms are untyped and their projections total, where C++ rejects ill-typed terms at compile time; the ordering comparisons compare numbers.
- MatchAndExplain.RunWhenSorted: the comparator is less-than or greater-than on numbers, and elements it cannot tell apart keep their order, which std::sort leaves open.
- Pointer matchers, floating-point matchers, string patterns, printers, and the explanations and descriptions of UnorderedElementsAre, whose bodies are not in the headers.
- EchoServer.Server.HandleData: a first write that fails is not modelled, because the string built from the result -1 has no defined content; Echo.ReadAppends and the runs of Echo exclude it too.
- EchoServer.Server.OnWritable: requires something queued when there is an entry, because the front of an empty std::queue is undefined; line 164 tests only whether the entry exists. Echo.DrainedExactlyAfterLastPop says when that arises. Echo.FlushMoves and the runs of Echo require it too.
- Echo.EchoConserves: covers runs without the two undefined events above.
- Echo.EchoAccountsForBytes: covers the same runs.
- UnorderedElements.MatchUnordered: does not say what VerifyAllElementsAndMatchersAreMatched and FindPairing explain, because their bodies are not part of the headers.
- TftpServer.Server.HandleRRQ: its local packet buffer has 516 bytes, where line 119 declares 512; Tftp.FirstPacketFits says for which files that is enough.
- TftpServer.Server.ParseRequest: requires the two NUL-terminated strings that section 5 of RFC 1350 gives a request; without them the pointer walks would leave the buffer.
- TftpServer.Server.HandleNewConnection: requires the same of a read request.
- Several TFTP clients at once, write requests, and the unfinished event loop of the TFTP server's main.
- BlockedCategories.GetBlockedCates: requires that no two categories share a backing array, because removing from one would shift the items of the other.
- The other servers and clients, the demos, and the rest of the vendored headers.
