# Fault localization, regular expressions and PNG rows

A Dafny model of three parts of the repository, with proofs of what they promise.

1. **Fault localization without pending schemas** (Java, and one Python script). Combinations and
   schemas, monotone sets of schemas with their minimal hitting sets, safe values and padding, the recorded
   history of checks, and the NoPend resolver as a whole. The model follows the code of `Checker.check`,
   which returns true for a test that passes; the comment above it says the opposite.
2. **The automata and expressions of libxml2** (`xmlregexp.c`). Epsilon elimination on a transition graph
   that is changed in place, the compact table and its execution, hash-consed expressions with their
   rewriting constructors, the derivation by one token, and the printer and the parser.
3. **Row decoding in libpng** (`pngrutil.c`). Expansion of interlaced rows in place, the geometry and the
   progress of the seven passes, and the removal of the row filters of RFC 2083.

| files | subject |
|---|---|
| `Combs`, `Schemas`, `Hypergraphs`, `MonotoneSets`, `HittingSets` | combinations, bit sets, antichains, transversals |
| `SafeValues`, `FaultResolvers`, `PendingSchemas` | safe values, padding, verdicts, histories, pending schemas |
| `Borders`, `NoPend`, `Exactness`, `Combinatorics` | the resolver, what it identifies, binomials |
| `Automata`, `EpsilonClosure`, `StateMerging` | transition graphs and epsilon elimination |
| `Wildcards`, `CompactTable`, `CompactExec`, `Compilation` | the compact table, pushing tokens, and both with the elimination |
| `Languages`, `Expressions`, `Derivatives` | expression nodes, their languages, derivation |
| `Alternatives`, `ExpContexts`, `Joining`, `NameKeys` | the order of alternatives, the constructors, when they end, and the keys of names |
| `Printing`, `Parsing`, `Grammar`, `Blanks`, `RoundTrip`, `StoredTrees`, `ExprParsers` | printing and parsing expressions, and the grammar of the texts |
| `PixelBits`, `PixelRows`, `Interlace`, `Adam7`, `Passes`, `RowFilters` | PNG rows |
| `Results`, `Sets` | results and options, sizes of sets |

Where a promise does not hold for all inputs, the code is kept, the exact condition is proved, and an input
that fails is named: an empty faulty combination (`Exactness.NoPendIsExact`), merging final states
(`StateMerging.EliminateSimpleEpsilons`, `UnsafeMergeExample`) and the first state (`StartIsExact`,
`StartLostExample`), alternatives that have no order
(`ExpContexts.ExpContext.GetOr`, `Joining.NeverEnds`), a sequence that commits too early
(`Derivatives.SequenceStepExact`, `CommittedTooEarly`), texts that are not read back
(`RoundTrip.RoundTrips`), tokens that match more than one string (`CompactExec.PushingIsExact`,
`FirstColumnWins`), and images of at most four rows (`Passes.NoRowTakenInVain`).

`dafny verify dfyconfig.toml` checks the whole project.

## Model

| member | source | states |
|---|---|---|
| `Combs.FromList` | src/main/java/nju/gist/Common/Comb.java:26-33 | a list of values is a combination exactly when every value is non-negative or UNKNOWN; otherwise the exception |
| `Combs.Contains` | src/main/java/nju/gist/Common/Comb.java:60-70 | for equal lengths true exactly when the first agrees with the second wherever the second is known; otherwise the exception |
| `Combs.MaskCovers` | src/main/java/nju/gist/Common/Comb.java:60-70 | a part of a test contains a combination exactly when the test does and all its known positions are in the part |
| `Combs.CoveredIsMask` | src/main/java/nju/gist/Common/Comb.java:35-43 | whatever a test contains is the part of that test at its own known positions |
| `Schemas.FromComb` | src/main/java/nju/gist/Common/Schema.java:31-38 | the schema of a combination is the set of its known positions |
| `Schemas.GetComb` | src/main/java/nju/gist/Common/Schema.java:61-71 | the combination of a schema in a test fixes exactly the positions of the schema to the test's values |
| `Schemas.GetIndices` | src/main/java/nju/gist/Common/Schema.java:73-81 | the members of the schema, in strictly ascending order |
| `Schemas.Complement` | src/main/java/nju/gist/Common/Schema.java:114-120 | complement within the logical size |
| `Schemas.ComplementIn` | src/main/java/nju/gist/Common/Schema.java:122-136 | complement within a universe; the exception exactly when sizes differ or the schema is not inside the universe |
| `Schemas.OverlapsWith` | src/main/java/nju/gist/Common/Schema.java:154-165 | true exactly when the two sets meet; the exception exactly when sizes differ |
| `Schemas.MutableSchema.Set` | src/main/java/nju/gist/Common/MutableSchema.java:16-18 | sets or clears one position and no other |
| `Hypergraphs.HittingTheTransversal` | src/main/java/nju/gist/Common/MonotoneSchemaSet.java:74-104 | a set hits all minimal hitting sets of f exactly when it contains a member of f |
| `Hypergraphs.TransversalDuality` | src/main/java/nju/gist/Common/MonotoneSchemaSet.java:74-104 | the minimal hitting sets of the minimal hitting sets are the minimal members, for every finite family |
| `Hypergraphs.LowerBorder` | src/main/java/nju/gist/Common/MonotoneSchemaSet.java:58-104 | the minimal hitting sets of the complements of m are exactly the minimal sets that no member of m contains |
| `Hypergraphs.UpperBorder` | src/main/java/nju/gist/Common/MonotoneSchemaSet.java:58-104 | the complements of the minimal hitting sets of f are exactly the maximal sets that contain no member of f |
| `Hypergraphs.NoPendingSets` | src/main/java/nju/gist/Common/MonotoneSchemaSet.java:58-104 | every set is inside a member of h or contains one of f exactly when every minimal hitting set of the complements of h contains one of f |
| `MonotoneSets.RejectionComesFirst` | src/main/java/nju/gist/Common/MonotoneSchemaSet.java:18-27 | when a schema of an antichain rejects the new one, nothing before it was removed, so an element is never removed and the addition then refused |
| `MonotoneSets.AddedIsExtremal` | src/main/java/nju/gist/Common/MonotoneSchemaSet.java:14-44 | one addition keeps the list a duplicate-free antichain and makes it exactly the minimal (maximal) elements of the old ones and the new one |
| `MonotoneSets.Compare` | src/main/java/nju/gist/Common/MonotoneSchemaSet.java:20-26 | what one element of the list means for the new schema: reject it, be removed, or neither; the exception for two different sets of different sizes |
| `MonotoneSets.ComplementListFamily` | src/main/java/nju/gist/Common/MonotoneSchemaSet.java:66-72 | the complemented list names exactly the complements of the members |
| `MonotoneSets.ComplementInvolutive` | src/main/java/nju/gist/Common/MonotoneSchemaSet.java:66-72 | complementing twice gives back the same list in the same order |
| `MonotoneSets.ComplementsAreAccepted` | src/main/java/nju/gist/Common/MonotoneSchemaSet.java:66-72 | the complements of an antichain are added one after the other without a rejection or a removal: none is dropped |
| `MonotoneSets.MonotoneSchemaSet.Add` | src/main/java/nju/gist/Common/MonotoneSchemaSet.java:14-44 | the in-place scan computes the specified list and answers true exactly when no element rejects; error cases of mixed sizes included |
| `MonotoneSets.MonotoneSchemaSet.Remove` | src/main/java/nju/gist/Common/MonotoneSchemaSet.java:46-48 | the set stays an antichain and loses exactly the element equal to the argument, if there is one; says whether there was one |
| `MonotoneSets.RemovedIsAntichain` | src/main/java/nju/gist/Common/MonotoneSchemaSet.java:46-48 | an antichain without one of its elements is an antichain |
| `MonotoneSets.RunKeepsAntichain` | src/main/java/nju/gist/Common/MonotoneSchemaSet.java:14-72 | after any additions, removals and complements in any order, the set is a duplicate-free antichain of schemas of one size |
| `MonotoneSets.AddsAreExtremal` | src/main/java/nju/gist/Common/MonotoneSchemaSet.java:14-44 | after any non-empty run of additions alone, the set holds exactly the minimal (maximal) ones of all schemas offered that have the size of the first; offers of other sizes change nothing |
| `MonotoneSets.MonotoneSchemaSet.ComplementIn` | src/main/java/nju/gist/Common/MonotoneSchemaSet.java:66-72 | a fresh set of the other kind holding the complements in order; the exception exactly when an element is not inside the universe |
| `MonotoneSets.MonotoneSchemaSet.Complement` | src/main/java/nju/gist/Common/MonotoneSchemaSet.java:58-64 | a fresh set of the other kind holding the complements in order |
| `HittingSets.MhsRecursive` | src/main/java/nju/gist/Common/MonotoneSchemaSet.java:88-104 | the backtracking restores the shared candidate, and adds every minimal hitting set that extends it and only hitting sets that do |
| `HittingSets.TryEachVertex` | src/main/java/nju/gist/Common/MonotoneSchemaSet.java:97-102 | the loop over the vertices of one edge sets and clears each bit and covers every way to hit that edge |
| `HittingSets.ExactFamily` | src/main/java/nju/gist/Common/MonotoneSchemaSet.java:74-104 | a minimal antichain that is sound and complete for a family is exactly its set of minimal hitting sets |
| `HittingSets.GetMhs` | src/main/java/nju/gist/Common/MonotoneSchemaSet.java:74-86 | succeeds exactly for a non-empty antichain without the empty set, and then returns exactly all minimal hitting sets |
| `HittingSets.TransversalAccepted` | src/main/java/nju/gist/Common/MonotoneSchemaSet.java:74-79 | the result of a successful call is itself accepted by the same two guards |
| `HittingSets.SecondRoundAccepted` | src/main/java/nju/gist/Common/MonotoneSchemaSet.java:74-104 | for a non-empty antichain without the empty set a second round is accepted too and gives the antichain back |
| `SafeValues.ComputeSafeValues` | scripts/benchmark-preprocess/computeSafeValue.py:4-38 | None exactly when all rows are blank or a column holds both values; otherwise, per column of the widest row, 1 exactly where a 0 occurs, 0 exactly where a 1 occurs, and a dash exactly where neither does |
| `SafeValues.ClashMeansUnavoidable` | scripts/benchmark-preprocess/computeSafeValue.py:20-36 | a column holds both values exactly when no choice of one value per column avoids all of them |
| `SafeValues.ComputedIsSafe` | scripts/benchmark-preprocess/computeSafeValue.py:20-38 | what is computed is safe for the faulty combinations read from the same rows |
| `SafeValues.PadAtRandom` | src/main/java/nju/gist/Common/Testcase.java:29-41 | every outcome of the random fill is a padding: known positions kept, free ones safe, or 0 or 1 where no safe value is given |
| `SafeValues.PadAgainst` | src/main/java/nju/gist/Common/Testcase.java:50-62 | padding with the opposite of the failing test where no safe value is given; the exception exactly when a value becomes invalid |
| `SafeValues.OppositeIsPadding` | src/main/java/nju/gist/Common/Testcase.java:50-62 | against a binary failing test this is a padding as well |
| `SafeValues.PaddingIsExact` | src/main/java/nju/gist/Common/Testcase.java:29-62 | with safe values a padded combination contains a faulty combination exactly when the unpadded one does |
| `FaultResolvers.VerdictIsPass` | src/main/java/nju/gist/Tester/Checker.java:32-43 | the verdict is true exactly when the test contains no faulty combination, that is, when it passes |
| `FaultResolvers.Checker.Check` | src/main/java/nju/gist/Tester/Checker.java:32-43 | counts the call, remembers the test and returns the verdict |
| `FaultResolvers.Checker.Reset` | src/main/java/nju/gist/Tester/Checker.java:22-25 | forgets the tests and the count |
| `FaultResolvers.History.RecordKeepsSound` | src/main/java/nju/gist/FaultResolver/AbstractFaultResolver.java:57-78 | recording a right verdict keeps the history right |
| `FaultResolvers.History.NotPendingIsRight` | src/main/java/nju/gist/FaultResolver/AbstractFaultResolver.java:80-94 | whatever a right history decides has really that verdict |
| `FaultResolvers.History.HealthyNeverContainsFaulty` | src/main/java/nju/gist/FaultResolver/AbstractFaultResolver.java:57-94 | in a right history no healthy combination contains a faulty one |
| `FaultResolvers.RunIsSound` | src/main/java/nju/gist/FaultResolver/AbstractFaultResolver.java:57-94 | after any sequence of checks the records are right and none contradictory, every answer that is not pending agrees with the real verdict, and every checked combination is decided; a valid resolver's records are those of its own checks |
| `FaultResolvers.FaultResolver.CheckWithSafeValues` | src/main/java/nju/gist/FaultResolver/AbstractFaultResolver.java:57-66 | exactly one test is executed: the combination padded with the safe values, at random where none is given; the answer is the real verdict of the unpadded combination, whatever the random fill, and exactly that is recorded |
| `FaultResolvers.FaultResolver.CheckAgainst` | src/main/java/nju/gist/FaultResolver/AbstractFaultResolver.java:68-78 | the same, padded with the opposite of the failing test where no safe value is given |
| `FaultResolvers.Log.FollowsFurther` | src/main/java/nju/gist/FaultResolver/AbstractFaultResolver.java:68-78 | along a run, every test executed is the padding of a combination checked in the run, and every combination checked has its test |
| `FaultResolvers.Log.FollowsWithWholeTests` | src/main/java/nju/gist/Common/Testcase.java:50-62 | so a run executes only whole tests of full length |
| `FaultResolvers.FaultResolver.CheckPending` | src/main/java/nju/gist/FaultResolver/AbstractFaultResolver.java:80-94 | true exactly when no record decides the combination; a false answer goes with the right verdict; the exception for a wrong length |
| `FaultResolvers.FaultResolver.Reset` | src/main/java/nju/gist/FaultResolver/AbstractFaultResolver.java:39-43 | clears the run flag, the result and the checker, but keeps the recorded combinations |
| `PendingSchemas.NoPendingCharacterisation` | src/main/java/nju/gist/FaultResolver/AbstractFaultResolver.java:80-94 | no schema of a test is pending exactly when every minimal hitting set of the complements of the maximal healthy schemas contains a faulty one |
| `Borders.NothingPendingIsExact` | src/main/java/nju/gist/FaultResolver/NoPend/NoPendFaultResolver.java:78-91 | without pending schemas the two borders are exactly the minimal faulty and the maximal healthy schemas |
| `Borders.NoChainNothingPending` | src/main/java/nju/gist/FaultResolver/NoPend/NoPendFaultResolver.java:80-91 | no bottom lies below a top exactly when nothing is pending |
| `Borders.BetweenIsPending` | src/main/java/nju/gist/FaultResolver/NoPend/NoPendFaultResolver.java:80-98 | everything between a bottom and a top is pending |
| `Borders.PendingShrinks` | src/main/java/nju/gist/FaultResolver/NoPend/NoPendFaultResolver.java:100-124 | deciding a pending schema strictly reduces the number of pending ones |
| `NoPend.GetLongestChain` | src/main/java/nju/gist/FaultResolver/NoPend/NoPend.java:12-35 | a pair of top and bottom with the greatest distance, or null exactly when no bottom is below a top; the exception for empty or mismatched sets |
| `NoPend.BuildChain` | src/main/java/nju/gist/FaultResolver/NoPend/NoPendFaultResolver.java:144-162 | the chain from min to max grows strictly and holds every set min joined with the last parameters of max |
| `NoPend.Bisect` | src/main/java/nju/gist/FaultResolver/NoPend/NoPendFaultResolver.java:167-178 | the search finds the first failing element of a chain whose last element fails, halving what is left with every check: 2 to the number of checks is at most twice the length of the chain; its tests are padded against the failing test |
| `NoPend.BinarySearch` | src/main/java/nju/gist/FaultResolver/NoPend/NoPendFaultResolver.java:130-185 | null exactly with a healthy max, which is recorded; otherwise a failing schema all of whose predecessors on the chain pass, also recorded; the exceptions for mismatched arguments |
| `NoPend.FindBottoms` | src/main/java/nju/gist/FaultResolver/NoPend/NoPendFaultResolver.java:80-80 | the lowest undecided schemas |
| `NoPend.FindTops` | src/main/java/nju/gist/FaultResolver/NoPend/NoPendFaultResolver.java:81-81 | the highest undecided schemas |
| `NoPend.AddAll` | src/main/java/nju/gist/FaultResolver/NoPend/NoPendFaultResolver.java:115-120 | merging keeps exactly the extremal members of both sets |
| `NoPend.Eliminate` | src/main/java/nju/gist/FaultResolver/NoPend/NoPendFaultResolver.java:93-124 | one round keeps both borders right and strictly reduces the number of pending schemas |
| `NoPend.Identify` | src/main/java/nju/gist/FaultResolver/NoPend/NoPendFaultResolver.java:67-128 | terminates with exactly the minimal faulty and the maximal healthy schemas below the universe, for any faulty universe |
| `NoPend.SeedFaulty` | src/main/java/nju/gist/FaultResolver/NoPend/NoPendFaultResolver.java:39-45 | starting from a known faulty combination keeps the borders right |
| `NoPend.Conduct` | src/main/java/nju/gist/FaultResolver/NoPend/NoPendFaultResolver.java:19-65 | the whole run adds exactly the minimal failing schemas of every failing test to the result, and leaves none of their schemas pending except perhaps the empty and the full one; every test executed on the way is a whole test, padded for a checked combination against a failing test; a second run does nothing; without safe values the exception |
| `Exactness.NoPendIsExact` | src/main/java/nju/gist/FaultResolver/NoPend/NoPendFaultResolver.java:31-65 | the schemas found over all failing tests are exactly the minimal faulty combinations that some failing test contains, if and only if no faulty combination is the empty one |
| `Exactness.FoundInTest` | src/main/java/nju/gist/FaultResolver/NoPend/NoPendFaultResolver.java:60-62 | in one test: the minimal failing schemas are exactly the minimal faulty combinations that it contains |
| `Combinatorics.FallingIsChoose` | src/main/java/nju/gist/Util/Combinatorics.java:25-30 | the product of the loop is Pascal's binomial times k!, so the final division is exact |
| `Combinatorics.ChooseSymmetric` | src/main/java/nju/gist/Util/Combinatorics.java:21-23 | replacing k by n - k does not change the binomial |
| `Combinatorics.NChooseK` | src/main/java/nju/gist/Util/Combinatorics.java:12-31 | the binomial, truncated to an int as Java does and exact when it fits; the exception exactly for the invalid k |
| `Automata.SimplePath` | src/main/resources/bugs/libxml2/xmlregexp.c:1770-1842 | an epsilon path can be cut to one that visits no state twice |
| `Automata.ClosingKeepsLanguages` | src/main/resources/bugs/libxml2/xmlregexp.c:1957-1995 | replacing a state's epsilons by copies of what lies behind them changes no state's language |
| `Automata.PruningKeepsLanguage` | src/main/resources/bugs/libxml2/xmlregexp.c:2018-2071 | freeing states that no kept state leads to changes no kept state's language |
| `EpsilonClosure.Automaton.AddTrans` | src/main/resources/bugs/libxml2/xmlregexp.c:1347-1420 | appends the transition unless it is there already, with the back link; nothing for a freed slot |
| `EpsilonClosure.Automaton.ReduceEpsilonTransitions` | src/main/resources/bugs/libxml2/xmlregexp.c:1770-1842 | copies to the state exactly what lies behind the epsilon along unmarked paths, restores the marks, and terminates since each call marks one state more |
| `EpsilonClosure.Automaton.CloseState` | src/main/resources/bugs/libxml2/xmlregexp.c:1957-1995 | afterwards the state is closed: no live epsilon of its own, and everything behind its epsilons copied; has_epsilon is set exactly when there was one to another state |
| `EpsilonClosure.Automaton.CloseAllStates` | src/main/resources/bugs/libxml2/xmlregexp.c:1957-1995 | the pass from the last state to the first leaves no live epsilon and every state's language, for every meaning of the atoms |
| `EpsilonClosure.Automaton.DropEpsilons` | src/main/resources/bugs/libxml2/xmlregexp.c:1999-2013 | the second pass over the epsilons finds nothing left to remove |
| `EpsilonClosure.Automaton.MarkReached` | src/main/resources/bugs/libxml2/xmlregexp.c:2018-2061 | the search marks exactly the states that a walk over live transitions reaches: all that the marked ones lead to, and each by a walk from the start over marked states |
| `EpsilonClosure.Automaton.FreeUnreached` | src/main/resources/bugs/libxml2/xmlregexp.c:2062-2071 | frees exactly the states that were not marked |
| `EpsilonClosure.Automaton.CloseEpsilonTransitions` | src/main/resources/bugs/libxml2/xmlregexp.c:1947-2071 | closing, dropping and pruning together: no live epsilon left, every state left is reached from the first by live transitions, and state 0 accepts exactly the same words |
| `StateMerging.MergeIsExact` | src/main/resources/bugs/libxml2/xmlregexp.c:1860-1917 | merging a state into the target of its only epsilon keeps all other languages if and only if a final one leads to a final state by epsilons alone |
| `StateMerging.EmptyWordIsClosure` | src/main/resources/bugs/libxml2/xmlregexp.c:1902-1908 | the empty word is accepted exactly when epsilons alone lead to a final state |
| `StateMerging.UnsafeMergeExample` | src/main/resources/bugs/libxml2/xmlregexp.c:1906-1907 | a final state merged into a target that accepts nothing makes the target accept the empty word |
| `StateMerging.RedirectTransitions` | src/main/resources/bugs/libxml2/xmlregexp.c:1880-1900 | all live transitions to the merged state are redirected, whatever the order and repetition of the back links |
| `StateMerging.MergeState` | src/main/resources/bugs/libxml2/xmlregexp.c:1872-1912 | one merge in place is the specified merge and keeps the back links complete |
| `StateMerging.EliminateSimpleEpsilons` | src/main/resources/bugs/libxml2/xmlregexp.c:1860-1917 | the in-order sweep merges away exactly the states planned from the initial table; no surviving state ever loses a word, and all of them keep their languages if and only if, in the initial table, every final state merged away leads to a final state by epsilons alone |
| `StateMerging.StepIsSafe` | src/main/resources/bugs/libxml2/xmlregexp.c:1902-1908 | in the middle of the sweep, one more merge is safe exactly when the initial table says so |
| `StateMerging.FinalsLeadToFinalsIsSafe` | src/main/resources/bugs/libxml2/xmlregexp.c:1902-1908 | the initial table is safe when final states with a single plain epsilon lead to final states |
| `StateMerging.FreeMerged` | src/main/resources/bugs/libxml2/xmlregexp.c:1936-1945 | frees exactly the merged states |
| `StateMerging.EliminateEpsilonTransitions` | src/main/resources/bugs/libxml2/xmlregexp.c:1924-2071 | the whole elimination leaves no live epsilon and no state that the first does not reach, and every merged state is gone; unless the first state is merged away it loses no word, and accepts exactly the same ones when the initial table is safe for the sweep; if it is merged away, every state is freed; atoms, links to live states and dead sinks carry over |
| `StateMerging.StartMergedAway` | src/main/resources/bugs/libxml2/xmlregexp.c:1860-1912 | the first state is merged away if and only if it is not marked as a start state and its only transition is a plain epsilon to another state |
| `StateMerging.MergedExactly` | src/main/resources/bugs/libxml2/xmlregexp.c:1860-1912 | a state not marked as a start state is merged away if and only if its only transition is a plain epsilon to another state that was not merged away before it |
| `StateMerging.StartIsExact` | src/main/resources/bugs/libxml2/xmlregexp.c:1860-2071 | a first state that is final or marked as a start state keeps its words if and only if it is not merged away |
| `StateMerging.StartLostExample` | src/main/resources/bugs/libxml2/xmlregexp.c:1860-1912 | a final first state with an epsilon to a final state is merged away although the table is safe for the sweep, and the empty word is lost |
| `Wildcards.MatchWithoutStar` | src/main/resources/bugs/libxml2/xmlregexp.c:3639-3673 | without a star, matching is equality |
| `Wildcards.MatchKeepsSubstrings` | src/main/resources/bugs/libxml2/xmlregexp.c:3630-3636 | a match never changes the number of substrings, as the comment in the source promises |
| `Wildcards.StarIsRestOfSubstring` | src/main/resources/bugs/libxml2/xmlregexp.c:3650-3664 | a star matches exactly what is left of the current substring, up to the next | or the end, be it empty |
| `Wildcards.OthersAreThemselves` | src/main/resources/bugs/libxml2/xmlregexp.c:3646-3672 | any other character matches itself alone, and only the end matches the end |
| `Wildcards.StrEqualWildcard` | src/main/resources/bugs/libxml2/xmlregexp.c:3639-3673 | the pointer loop decides the recursive definition of matching for non-empty tokens without a star |
| `CompactTable.NumberStates` | src/main/resources/bugs/libxml2/xmlregexp.c:480-487 | live states get consecutive numbers in order |
| `CompactTable.RankInjective` | src/main/resources/bugs/libxml2/xmlregexp.c:480-487 | no two live states share a number |
| `CompactTable.NumberStrings` | src/main/resources/bugs/libxml2/xmlregexp.c:506-539 | equal texts share a number and different ones do not, numbers are given in order of first appearance; refused exactly when an atom is not a plain single string |
| `CompactTable.RowEntryMeaning` | src/main/resources/bugs/libxml2/xmlregexp.c:572-625 | a row entry is zero without a transition on that string, and otherwise names the one target of all of them |
| `CompactTable.FillEntry` | src/main/resources/bugs/libxml2/xmlregexp.c:594-623 | recording a transition succeeds exactly when it agrees with what is recorded for its string |
| `CompactTable.FillRow` | src/main/resources/bugs/libxml2/xmlregexp.c:572-625 | the row of a state is complete, and refused exactly when two transitions on one string differ; no other row changes |
| `CompactTable.ConsistentRowsMeanDeterministic` | src/main/resources/bugs/libxml2/xmlregexp.c:589-611 | all rows are consistent exactly when the automaton is deterministic on texts |
| `CompactTable.BuildTable` | src/main/resources/bugs/libxml2/xmlregexp.c:446-664 | not tried exactly for an automaton marked as not deterministic, without atoms, or whose first atom is not a string; otherwise no result exactly when some atom is not a single string, refused exactly for automata that are not deterministic, and else the table represents every state and transition, with its columns in order of first appearance |
| `CompactExec.Exec.Push` | src/main/resources/bugs/libxml2/xmlregexp.c:3688-3756 | one token follows the transition that reads it whose string has the smallest number, with the verdict of its target's kind, or fails exactly when there is none |
| `CompactExec.PushAll` | src/main/resources/bugs/libxml2/xmlregexp.c:3688-3756 | the verdict at the end is an error exactly when the first transitions to read the tokens cannot read all of them without entering a sink, otherwise final exactly when they lead to a final state; then the graph accepts the tokens, and where the first match covers the others it is given exactly then |
| `CompactExec.TokensAreRuns` | src/main/resources/bugs/libxml2/xmlregexp.c:3712-3740 | reading the tokens one after the other is a run of the automaton over the word of their positions |
| `CompactExec.PushingIsExact` | src/main/resources/bugs/libxml2/xmlregexp.c:3712-3740 | in a deterministic automaton pushing finds whatever is accepted, from every state and for all tokens, if and only if everything accepted after another matching transition is accepted after the first one |
| `CompactExec.NoOverlapCovers` | src/main/resources/bugs/libxml2/xmlregexp.c:3712-3740 | that is so where no state reads one token to two different targets |
| `CompactExec.ApartNoOverlap` | src/main/resources/bugs/libxml2/xmlregexp.c:3712-3740 | a deterministic automaton whose atoms never match one token with different texts has no state that reads a token to two targets |
| `CompactExec.NoStarsApart` | src/main/resources/bugs/libxml2/xmlregexp.c:3639-3673 | atoms without stars never match one token with different texts |
| `CompactExec.FirstColumnWins` | src/main/resources/bugs/libxml2/xmlregexp.c:3712-3740 | a deterministic graph with a* and ab accepts the token ab, but pushing it ends in a state that is not final |
| `Compilation.Compile` | src/main/resources/bugs/libxml2/xmlregexp.c:6288-6298 | elimination and table together, for any first state, with the same four outcomes: the table represents a graph that has lost no word, and has the same words when the initial table is safe, unless the first state is merged away |
| `Compilation.Recognize` | src/main/resources/bugs/libxml2/xmlregexp.c:4130-4133 | compiling and pushing plain tokens: a final verdict means that the graph with its epsilons accepts them, if the sweep is safe for it; whatever it accepts gets a final verdict, if no token matches two different texts and the first state is not merged away; if it is, no tokens get the verdict 0 and any others an error |
| `Languages.DerivativeOfCat` | src/main/resources/bugs/libxml2/xmlregexp.c:7119-7141 | Brzozowski's rule for concatenation, over all languages |
| `Languages.DerivativeOfRep` | src/main/resources/bugs/libxml2/xmlregexp.c:7142-7180 | the rule for bounded and unbounded repetition, right even when the body accepts the empty word |
| `Languages.EmptyInRep` | src/main/resources/bugs/libxml2/xmlregexp.c:6743-6744 | the empty word is a repetition exactly when no copy is needed or the body accepts it |
| `Expressions.NillableIsExact` | src/main/resources/bugs/libxml2/xmlregexp.c:6739-6765 | the cached bit holds exactly when the node accepts the empty word |
| `Expressions.LanguageStays` | src/main/resources/bugs/libxml2/xmlregexp.c:6556-6780 | nodes added later never change what a node denotes |
| `Expressions.SwapKeepsLanguages` | src/main/resources/bugs/libxml2/xmlregexp.c:6630-6636 | swapping the parts of one shared OR node in place changes no node's language |
| `ExpContexts.ExpContext.FindOrAdd` | src/main/resources/bugs/libxml2/xmlregexp.c:6703-6779 | the unique entry of a node: the one that is stored, with nothing added, or else exactly one new entry, so that no node is ever stored twice |
| `Expressions.NowhereElse` | src/main/resources/bugs/libxml2/xmlregexp.c:6703-6732 | a node that is stored anywhere has its key and stands in the bucket of that key, so looking in one bucket is enough |
| `Printing.SameTreeSameNode` | src/main/resources/bugs/libxml2/xmlregexp.c:6545-6554 | two stored nodes of the same tree are one node: comparing pointers is comparing expressions |
| `ExpContexts.ExpContext.GetCount` | src/main/resources/bugs/libxml2/xmlregexp.c:6571-6591 | the node returned denotes the repetition, through all reduction rules; the node itself for {1}, the empty node for {0}, the forbidden node for a negative minimum; a stored count is returned and nothing added |
| `ExpContexts.ExpContext.GetSeq` | src/main/resources/bugs/libxml2/xmlregexp.c:6682-6699 | the node returned denotes the concatenation, and is the forbidden node exactly when a part is; with an empty part it is one of the two parts; a stored sequence is returned and nothing added |
| `ExpContexts.ExpContext.GetOr` | src/main/resources/bugs/libxml2/xmlregexp.c:6592-6681 | the node returned denotes the union and has exactly the alternatives of both parts; a stored alternative is returned without any reordering. With different keys for different alternatives, the constructor ends, within a stated depth, if and only if the alternatives can be joined in order |
| `Alternatives.OneOrder` | src/main/resources/bugs/libxml2/xmlregexp.c:6641-6680 | alternatives can be put in order in one way only |
| `Alternatives.AltsInOrder` | src/main/resources/bugs/libxml2/xmlregexp.c:6592-6681 | a stored node has its alternatives in order: rising keys, and no key above that of the group two places further on |
| `Alternatives.NothingNewJoins` | src/main/resources/bugs/libxml2/xmlregexp.c:6608-6628 | a group can always be joined to one that has all its alternatives already |
| `Alternatives.RegroupGroup` | src/main/resources/bugs/libxml2/xmlregexp.c:6647-6675 | an alternative that goes further into a group: it ends if and only if all can be put in order, and the first alternative then goes in front again without another reordering |
| `Alternatives.RegroupLeft` | src/main/resources/bugs/libxml2/xmlregexp.c:6626-6646 | two groups: the rest of the left one is joined first, and it ends if and only if each of these joins does |
| `Joining.SameAlternativesSameNode` | src/main/resources/bugs/libxml2/xmlregexp.c:6592-6681 | two stored nodes with the same alternatives are one node, in whatever order they were put together |
| `Joining.FewCanBeJoined` | src/main/resources/bugs/libxml2/xmlregexp.c:6592-6681 | nodes with up to three alternatives of different keys can always be joined |
| `Joining.FourAlternatives` | src/main/resources/bugs/libxml2/xmlregexp.c:6641-6680 | four alternatives can be put in order if and only if the least key is not above the key of the group of the two greatest |
| `Joining.NamesHaveTheseKeys` | src/main/resources/bugs/libxml2/xmlregexp.c:6475-6487 | the program's hash gives the names a, d, e and f the keys 26322, 29539, 30537 and 35728 |
| `Joining.NeverEnds` | src/main/resources/bugs/libxml2/xmlregexp.c:6641-6680 | so the alternatives of a | (d | (e | f)) cannot be put in order, and the constructor does not end on it |
| `Derivatives.DerivationIsSound` | src/main/resources/bugs/libxml2/xmlregexp.c:7077-7184 | whatever the derivation by a token denotes, the expression accepts after that token |
| `Derivatives.NothingMissed` | src/main/resources/bugs/libxml2/xmlregexp.c:7077-7184 | a derivation that finds nothing is right: no accepted word starts with the token |
| `Derivatives.DerivationIsExact` | src/main/resources/bugs/libxml2/xmlregexp.c:7077-7184 | the derivation is the exact derivative when at every nillable left part of a sequence at most one part finds the token |
| `Derivatives.SequenceStepExact` | src/main/resources/bugs/libxml2/xmlregexp.c:7119-7141 | a sequence step is exact if and only if the words it drops from the right part are covered by what it keeps |
| `Derivatives.CommittedTooEarly` | src/main/resources/bugs/libxml2/xmlregexp.c:7133-7140 | for a? , (a , b) and the token a, the word b is left but not derived |
| `Derivatives.StringDerive` | src/main/resources/bugs/libxml2/xmlregexp.c:7077-7184 | the node returned denotes that derivation, and is the forbidden node exactly when nothing is found; there is a node, whatever the fuel, when at every alternative on the way at most one part finds the token |
| `Derivatives.NoAlternativeOneWay` | src/main/resources/bugs/libxml2/xmlregexp.c:7077-7184 | that is so for every expression without alternatives |
| `Printing.DumpInt` | src/main/resources/bugs/libxml2/xmlregexp.c:8030-8104 | the text appended for a node is the printed form of its tree, with the outer parentheses if asked for |
| `Printing.PrintedForms` | src/main/resources/bugs/libxml2/xmlregexp.c:8030-8104 | the separators, the brackets exactly around sequences and alternatives inside other expressions, and which of ?, *, +, {n}, {n,m} and {n,inf} stands for a count |
| `Printing.TreeMeansTheSame` | src/main/resources/bugs/libxml2/xmlregexp.c:8030-8104 | the tree of a stored node denotes the node's language |
| `Parsing.OrReadsClean` | src/main/resources/bugs/libxml2/xmlregexp.c:7880-7955 | whatever is read holds only names without delimiters |
| `Grammar.WrittenIsRead` | src/main/resources/bugs/libxml2/xmlregexp.c:7997-8012 | everything that the grammar of names, groups, counts, alternatives and sequences writes, with blanks anywhere between, is read to the end as its tree, grouped from the left |
| `Grammar.GrammarIsExact` | src/main/resources/bugs/libxml2/xmlregexp.c:7862-8027 | an expression of names is read from a text, to its end, if and only if the grammar writes the text for that expression |
| `Grammar.OpenCountIsRead` | src/main/resources/bugs/libxml2/xmlregexp.c:7998-8007 | {n,*} and {n,} after a name have no upper limit, as the comment in the source promises of the first |
| `Grammar.GroupedFromTheLeft` | src/main/resources/bugs/libxml2/xmlregexp.c:7957-7994 | without brackets, parts are grouped from the left and alternatives bind closer than sequences |
| `Grammar.ThreeNames` | src/main/resources/bugs/libxml2/xmlregexp.c:7957-7994 | so a | b | c and a , b , c are read as left-nested trees |
| `Grammar.UnbalancedIsRefused` | src/main/resources/bugs/libxml2/xmlregexp.c:7886-7899 | a text of the grammar with one bracket too many is refused |
| `Blanks.BlanksAreAlike` | src/main/resources/bugs/libxml2/xmlregexp.c:7857-7858 | texts that differ only in which of space, tab, newline and carriage return stands at a place are read alike |
| `RoundTrip.DecimalValue` | src/main/resources/bugs/libxml2/xmlregexp.c:8088-8093 | the printed number has the number as its decimal value |
| `RoundTrip.InfinityJams` | src/main/resources/bugs/libxml2/xmlregexp.c:8090-8091 | {n,inf} is refused by the parser for every n from 2 on |
| `RoundTrip.PrintedIsReadAs` | src/main/resources/bugs/libxml2/xmlregexp.c:7880-8104 | for every tree with clean names: its text is read to the end as the tree with the two static nodes as names, or refused exactly when a count stands on a count or is printed as {n,inf} |
| `RoundTrip.RoundTrips` | src/main/resources/bugs/libxml2/xmlregexp.c:7880-8104 | parsing the dump gives the same tree and uses up the text if and only if names are clean, no static node occurs, no count stands on a count and none is printed as {n,inf} |
| `ExprParsers.ExprParser.ParseNumber` | src/main/resources/bugs/libxml2/xmlregexp.c:7861-7878 | the cursor loop reads the specified number |
| `ExprParsers.ExprParser.ParseOr` | src/main/resources/bugs/libxml2/xmlregexp.c:7880-7955 | the cursor method builds a node for what stands at the cursor and stops where the specification does; fuel can only run out in a text with a |, and never on what reads as a normal tree, which is built as it stands |
| `ExprParsers.ExprParser.ParseSeq` | src/main/resources/bugs/libxml2/xmlregexp.c:7957-7974 | the same for alternatives |
| `ExprParsers.ExprParser.ParseExpr` | src/main/resources/bugs/libxml2/xmlregexp.c:7977-7994 | the same for sequences |
| `ExprParsers.ExprParser.Parse` | src/main/resources/bugs/libxml2/xmlregexp.c:8014-8027 | the whole text: the node of its tree, or null exactly when the specification refuses it; every text that the grammar writes gives a node of its tree and is used up, unless the fuel runs out; a normal tree is built as it stands, whatever the fuel |
| `StoredTrees.KeyOfTree` | src/main/resources/bugs/libxml2/xmlregexp.c:6489-6519 | the key of a node depends on its tree alone, so it is the same in every context |
| `StoredTrees.StoredNodes` | src/main/resources/bugs/libxml2/xmlregexp.c:6489-6519 | the 16-bit keys of stored nodes, and the order of stored alternatives: the left one is no alternative itself and its key is not above those of the right one or its two parts |
| `StoredTrees.StoredIsNormal` | src/main/resources/bugs/libxml2/xmlregexp.c:6556-6699 | a stored tree without static nodes is normal: no constructor has anything to rewrite on it |
| `StoredTrees.TreesInPlace` | src/main/resources/bugs/libxml2/xmlregexp.c:6592-6681 | two nodes are in order as alternatives exactly when their trees are |
| `ExprParsers.DumpIsReadBack` | src/main/resources/bugs/libxml2/xmlregexp.c:7862-8104 | reading the dump of a printable stored node, in any context: the node has the very same tree, and all input is consumed; in its own context it is that node, and nothing is added |
| `ExprParsers.DumpAndParse` | src/main/resources/bugs/libxml2/xmlregexp.c:7862-8104 | dumping a printable node and parsing the text in any context always gives a node of the same tree, whatever the fuel |
| `ExprParsers.DumpMeansTheSame` | src/main/resources/bugs/libxml2/xmlregexp.c:7862-8104 | were the names hashed differently, the node would still denote the same language, unless the reordering does not end |
| `PixelBits.OthersStay` | src/main/resources/bugs/libpng/pngrutil.c:2801-2803 | clearing and setting one pixel of a byte leaves the other pixels |
| `PixelBits.OneBitPixels` | src/main/resources/bugs/libpng/pngrutil.c:2766-2794 | which bit of which byte is pixel q of a 1-bit row, from the high end or, swapped, from the low end |
| `PixelBits.TwoBitPixels` | src/main/resources/bugs/libpng/pngrutil.c:2821-2853 | the same for two bits |
| `PixelBits.FourBitPixels` | src/main/resources/bugs/libpng/pngrutil.c:2877-2909 | the same for four bits |
| `PixelBits.PixelReplaced` | src/main/resources/bugs/libpng/pngrutil.c:2801-2810 | writing at the byte and shift of a pixel replaces that pixel of the row and no other, in both pixel orders |
| `PixelBits.StepLeft` | src/main/resources/bugs/libpng/pngrutil.c:2804-2818 | the shift counters move one pixel to the left, across byte borders, in both pixel orders |
| `PixelBits.LastPixel` | src/main/resources/bugs/libpng/pngrutil.c:2766-2794 | the initial byte and shift are those of the last pixel |
| `PixelRows.SourceIntact` | src/main/resources/bugs/libpng/pngrutil.c:2796-2820 | the next source pixel is not overwritten before it is read |
| `PixelRows.ExpandedAt` | src/main/resources/bugs/libpng/pngrutil.c:2796-2820 | place i * inc + j of the expanded row holds pixel i, and the places behind are as before |
| `Interlace.ExpandPacked` | src/main/resources/bugs/libpng/pngrutil.c:2766-2931 | for 1, 2 and 4 bits and both pixel orders the in-place loop repeats every pixel inc times and keeps what follows |
| `Interlace.ExpandBytes` | src/main/resources/bugs/libpng/pngrutil.c:2932-2957 | the same for pixels of whole bytes |
| `Interlace.ExpandedPixel` | src/main/resources/bugs/libpng/pngrutil.c:2747-2964 | output pixel i * inc + j equals original pixel i, for every depth and order |
| `Interlace.LaterPixelStays` | src/main/resources/bugs/libpng/pngrutil.c:2747-2964 | packed pixels after the last one written are unchanged |
| `Interlace.DoReadInterlace` | src/main/resources/bugs/libpng/pngrutil.c:2747-2964 | for any positive width and any pass the row is expanded in place within the bytes of the final width, and the row description is updated: the new bytes are the new bits, rounded up |
| `Interlace.ExpandedRowFits` | src/main/resources/bugs/libpng/pngrutil.c:3358-3366 | the expanded row of any pass ends a pixel before the end of the row buffer whenever its depth is at most the maximal depth |
| `Adam7.CountIsExact` | src/main/resources/bugs/libpng/pngrutil.c:3127-3137 | place start + k * inc is in the image exactly for k below the count |
| `Adam7.QuotientCounts` | src/main/resources/bugs/libpng/pngrutil.c:3237-3249 | the division used for iwidth and num_rows counts those places |
| `Adam7.PatternRows` | src/main/resources/bugs/libpng/pngrutil.c:3098-3108 | the 8 by 8 pattern, row by row as in section 2.6 of RFC 2083 |
| `Adam7.PixelInOnePass` | src/main/resources/bugs/libpng/pngrutil.c:3098-3108 | every pixel of the image is a column and a row of the pass that the 8 by 8 pattern gives it (section 2.6 of RFC 2083) |
| `Adam7.PassPixelInImage` | src/main/resources/bugs/libpng/pngrutil.c:3098-3137 | every column and row of a pass is a pixel of the image, and belongs to that pass and no other |
| `Adam7.PassesCoverImage` | src/main/resources/bugs/libpng/pngrutil.c:3098-3137 | the seven products of columns and rows sum to width times height |
| `Passes.RowReader.StartRow` | src/main/resources/bugs/libpng/pngrutil.c:3235-3255 | the counts for the first row, in all three modes |
| `Passes.RowReader.NextPass` | src/main/resources/bugs/libpng/pngrutil.c:3122-3143 | the next pass: the following one when passes are delivered at full height, otherwise the next one with columns |
| `Passes.RowReader.FinishRow` | src/main/resources/bugs/libpng/pngrutil.c:3093-3146 | every call takes one row off what remains, exactly the last one ends the image, and iwidth is always the width of the current pass, or of the image without interlacing |
| `Passes.NoRowTakenInVain` | src/main/resources/bugs/libpng/pngrutil.c:3132-3143 | delivered pass by pass, a run takes exactly the rows that exist if and only if the image is more than four rows high |
| `RowFilters.FilterIsInjective` | src/main/resources/bugs/libpng/pngrutil.c:2968-3089 | no two rows have the same encoding of sections 6.2 to 6.6 of RFC 2083 over the same prior row |
| `RowFilters.PaethStartsAsUp` | src/main/resources/bugs/libpng/pngrutil.c:3041-3045 | for the first pixel the Paeth prediction is the byte above |
| `RowFilters.Nearest` | src/main/resources/bugs/libpng/pngrutil.c:3049-3077 | the differences decide as the predictor of section 6.6 of RFC 2083 does, ties included |
| `RowFilters.UndoSub` | src/main/resources/bugs/libpng/pngrutil.c:2978-2992 | in place: what was there is the Sub encoding of what is there now |
| `RowFilters.UndoUp` | src/main/resources/bugs/libpng/pngrutil.c:2993-3006 | in place: what was there is the Up encoding of what is there now |
| `RowFilters.UndoAverage` | src/main/resources/bugs/libpng/pngrutil.c:3007-3030 | in place: what was there is the Average encoding of what is there now |
| `RowFilters.UndoPaeth` | src/main/resources/bugs/libpng/pngrutil.c:3031-3083 | in place: what was there is the Paeth encoding of what is there now |
| `RowFilters.ReadFilterRow` | src/main/resources/bugs/libpng/pngrutil.c:2968-3089 | in numbers, per byte with a left, b above and c above left: types 1 to 4 add a, b, half of a + b rounded down, and the nearest of a, b, c to a + b - c with ties in that order, modulo 256, and type 0 nothing; so the old bytes are the encoding of the new ones; no byte behind changes; an unknown type clears the first byte only |
| `RowFilters.UnfilteringInverts` | src/main/resources/bugs/libpng/pngrutil.c:2968-3089 | a row whose encoding equals the encoding of the raw row is the raw row: unfiltering inverts filtering |

## Left out

- ExpContexts.ExpContext.GetOr: reordering an alternative calls the constructor again and need not end, so a fuel parameter bounds the depth. When it ends is exact for alternatives with different keys; for two different alternatives with the same 16-bit key only the meaning of a returned node is stated. The in-place swap of a shared OR node is never reached, because every OR node is created in order; that swapping would be harmless is proved on its own.
- ExpContexts.ExpContext.GetCount: repetitions whose maximum is below a non-negative minimum are outside the model, as are the cached c_max, reference counts, and running out of memory or of nodes.
- ExpContexts.ExpContext.GetAtom: the hash of names is a parameter of the context, and the program's own hash is NameKeys.NameKey, with characters as unsigned bytes; names are compared by content where the program compares interned pointers.
- Derivatives.DerivationIsExact: the condition is sufficient; the exact one is proved for a single sequence step (SequenceStepExact).
- ExprParsers.ExprParser.Parse: texts for which the parser uses a null part as an expression, or builds a count with its maximum below its minimum, have the outcome Undefined; numbers are unbounded where the program uses int. That the fuel suffices is promised for normal trees and for texts without a |.
- Grammar.GrammarIsExact: a quantifier {0} behind a refused text in matching brackets is read as the empty expression; such texts are outside the grammar, and the statement is about expressions of names alone. Which of the texts outside the grammar give null and which have the outcome Undefined is said by ReadText alone, apart from UnbalancedIsRefused.
- RoundTrip.PrintedIsReadAs: expressions whose counts the constructors would not build (a negative minimum, or a maximum below it) are not printed.
- EpsilonClosure.Automaton.ReduceEpsilonTransitions: counters and counts are left out (all are -1), as are the ALL and LAX transitions, the determinism marking and the backtracking executor. States are slots of one table, so aliasing of state pointers is not modelled.
- StateMerging.EliminateEpsilonTransitions: the table is taken as built, with every slot in use and back links complete. Exactness of the condition is for all states that survive the sweep; for the languages of the first state alone it is sufficient.
- CompactTable.BuildTable: whether the automaton was marked as not deterministic before is a parameter; the marking itself is left out. The graph that is kept when no table is tried is not executed here.
- Compilation.Recognize: when no table is built the result is None; the backtracking executor is left out.
- CompactExec.Exec.Push: callbacks, the transdata array and the error report are left out; tokens are non-empty and hold no star, since the comparison in the program swaps its arguments for a token with a star.
- HittingSets.GetMhs: the family is an antichain of schemas of one logical size, as every user of the class keeps it.
- MonotoneSets.MonotoneSchemaSet.Add: the list is an immutable sequence held in a field; the iterator is an index into it.
- NoPend.Conduct: there is at least one parameter, the failing tests are binary and really fail, and safe values come from the computation above; the commented-out seeding from passing tests is not part of the code.
- SafeValues.ComputeSafeValues: rows hold cells that are already trimmed; reading files is left out.
- FaultResolvers.FaultResolver.CheckPending: the Monte Carlo estimate of the pending proportion is left out.
- Interlace.DoReadInterlace: the width is positive, as its callers see to; PNG_ROWBYTES comes from a header that is not part of this model and is written out as RowBytes.
- Passes.RowReader.FinishRow: the inflate calls after the last row and the clearing of the prior row are left out.
- RowFilters.ReadFilterRow: a row has at least one pixel's bytes, and the prior row is another array.
- The other resolvers (SOFOT, FIC, ComFIL, TRT, Ben, IterAIFL) and the evaluation scripts: they would add members of the same kind over the same layers.
- MutableSchema.setComplement: it runs over allocated bits rather than the logical size and nothing here uses it.
- xmlExpExpDeriveInt, xmlExpDivide and xmlExpSubsume: the treatment of an OR on the right is not a subsumption.
- zlib, CRC and chunk handling in libpng, Unicode tables and schema counters in libxml2, and the other C subjects.
