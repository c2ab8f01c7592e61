# Borealis: a verified model

Borealis is a bounded model checker for C. It turns a function into a tree of *predicate
states*, compiles the tree into one SMT formula over a symbolic byte memory, and reads and
evaluates annotations that users write in comments. This project models five of its parts in
Dafny and proves what they are for. Run `dafny verify dfyconfig.toml`.

**Predicate states and their encoding.** A state is a predicate list, a sequence of two states,
or a branch; it stands for a set of *paths* (`PredicateStates`). `Meaning` runs a path over a
concrete memory. `Encoding` is the compiler: a formula, and a context of versioned symbolic
arrays that is copied for each branch and merged under the branches' PATH conditions, or
replaced by fresh arrays in free-variable mode. `ExecutionContexts` has the compiler as the
program runs it, with a mutable context and loops, `StateAlgebra` the laws of filtering,
splitting, reversing, slicing and simplifying, and `BasicStates` the loops behind them.

The solver is given a formula together with its axiom, to which INVARIANT predicates go, so the
results are about both. `MergedMeaning` and `FreeMeaning` say without symbols what the two modes
compute, for every state, with no condition but that guards do not write in merge mode: the
memory afterwards, when the formula is true, and when the axiom is. `MergeModeExact` and
`FreeModeExact` relate that to the paths of the state, `MergeConditions` says when merged memory
is right, `InvariantDefinitions` that the INVARIANT predicates of programs do no harm, and
`EncodingLimits` has the inputs on which the encoders are not exact.

The conditions of merge mode (`Mergeable`) are about the guards: the PATH predicates of an
alternative neither read nor write memory, the simplifier does not change what they say, and no
two alternatives' PATH predicates hold together. Then the formula says that a path executes; the
axiom says that the INVARIANT predicates of *all* alternatives hold, also of those that no path
takes (`MergeAssertsIff`). Free-variable mode needs none of these conditions, but that the
alternatives of a choice ask for the same arrays (`Uniform`): an array that an alternative never
asked for is not equated with the fresh array that replaces it. Its axiom asks of an alternative
left aside only that its INVARIANT predicates can hold.

**Symbolic byte memory.** `MemArrays` has the three representations of arrays, `ByteScatter`
values of any width scattered over cells, `OverflowAxiom` the addition that excludes overflow,
`RangeStore` the two ways to zero a range.

**Aggregate layout.** `AggregateLayout` relates the flattened initialiser, the address
computation and the loop that writes the initialiser.

**Executor.** `BumpAllocator` places blocks, `SegmentTrees` is the lazily created tree that
holds memory, with the arithmetic of its nodes in `SegmentBlocks`, `AllocatedTrees` is about the
trees that runs of the allocator leave, `ChunkLoads` has the loads that walk over chunks,
`StoredLoads` those of what was stored, `VectorBitcast` the casts of vectors; the annotation
stack machine is in `AnnotationTerms`, `AnnotationExecutors` and `AnnotationMeaning`.

**Annotation parser and printer.** `AnnoTree` prints, `AnnoGrammar` is the grammar with its
ordered choice and an operand stack that backtracking does not restore, `AnnoCalculator` the
parser with that stack as mutable state. `AnnoRoundTrip` proves that reading undoes printing on
printable trees, `AnnoShape` which trees reading can build, `AnnoConverse` that no other tree
reads back, `AnnoSafety` that an accepted text leaves one operand; `AnnoLimits` has some forms
that do not read back.

## Where the code does not meet its purpose

Each of these is a lemma; beside most stands the exact condition under which the code is right.
Where comments in the source say otherwise, as about `>>` and about the arguments of a call
(a list of at least one, Anno/grammar.hpp:105-108), the model follows the code.

- An INVARIANT predicate of a branch that is not taken is asserted all the same, and can make
  a state unsatisfiable that has a path (`UntakenInvariantIsAsserted`). What is asserted is right
  exactly if a good path leaves no branch with a failing INVARIANT (`MergeAssertsIff`), as where
  these stand outside branches (`StraightInvariantsAreExact`). Those that programs give rise to
  are stores and definitions of variables, and then no harm is done: under the condition named
  above for each mode, what it asserts is satisfiable exactly if some path can be run
  (`AssertionIsSatisfiableIff`).
- A PATH predicate that reads memory is evaluated again after its branch has written there
  (`MemoryReadingGuardLosesWrite`), and of two branches whose guards hold only the later one's
  memory is kept (`OverlappingGuardsForgetEarlierPath`). `MergedIsRightIff` and
  `MergedIsRightIffGuards` say exactly when merged memory is right after one choice, and
  `MergingIsExactThroughoutIff` when merging is exact in every part of a nested state.
- Simplifying a branch drops alternatives without predicates and collapses a complementary
  pair, which changes its paths (`SimplifyKeepsPathsThroughoutIff`) and makes guards false
  (`EmptyBranchMakesGuardFalse`, `ComplementaryBranchMakesGuardFalse`; exactly when, for one
  step in `SimplifyChoiceKeepsTruthIff` and for a whole tree in
  `SimplifyKeepsTruthThroughoutIff`).
- Free-variable mode loses arrays that only some alternatives ask for
  (`NonUniformChoiceForgetsArray`).
- `>>` is read as a left shift, and literals of more than 31 bits come back cut to 32. Booleans,
  implications and dereferences print as text that is not read back (`AnnoLimits`); neither are a
  unary operator on a unary operand, a name that begins with `true` or `false`, a property of an
  integer literal, and literals from 2^63 on. Negative literals and suffixes on unary operands
  read back as other trees. `RoundTripIff` says exactly which trees read back.
- A record without leaves has size one, but flattens to nothing, so that the program's own
  assertion fails (`ElementCountIsAssertedIff`) and the leaves behind it are not found; leaves
  are found exactly if none has such a record before it (`ShiftsArePlacesIff`). Field offsets wrap at 2^32 (`WideFieldsCollide`):
  addresses are exact for all leaves exactly if no field with a leaf lies behind 2^32 elements of
  its record (`ShiftsAreExactIff`).
- The range axiom compares pointers as signed (`RangeStoreIsLoopIff`); the loop that it stands
  for never ends on 2^32 cells or more (`LoopEndsIff`).
- The stack arena may grow into the heap arena (`StackRunsIntoHeap`): all blocks are apart exactly
  while it stays in its half or nothing is on the heap (`BlocksAreApartIff`).
- Allocating over a node that has children or bytes hides them under the new state
  (`AllocateKeepsCleanIff`), and the first store there brings them back (`StaleContentsReturn`,
  `StaleBytesReturn`).
- The first store into a zeroed or uninitialised chunk loses the rest of it
  (`OtherPlacesAreKeptIff`).
- A load shorter than a chunk that starts inside one takes its offset off twice, and stops with
  a bad slice or not at all (`LoadIsRightIff`, `ShortLoadFails`).
- A bitcast between element counts that do not divide loses bits (`ConservesIff`).
- Two literals cannot be compared in an annotation (`LiteralsCannotBeCompared`), and a false
  premise leaves a value of the wrong width (`ImpliesIsWellWidthedIff`).

## Model

| member | source | states |
|---|---|---|
| MergeModeExact.MergeIsExact | State/PredicateStateChoice.h:78-123 | Under well-behaved guards, for every nesting, valuation and initial memory: the formula is true exactly if some path executes with each predicate holding where it stands, the final context is the memory of every path that executes, and the axiom is true exactly if the INVARIANT predicates of all alternatives hold, from which those of the path follow |
| MergeModeExact.MergeAssertsIff | SMT/Z3/Solver.cpp:91-91 | Formula and axiom together are true exactly if some path executes with its INVARIANT predicates and all alternatives meet theirs; so they are right about the paths if and only if a good path leaves no alternative that fails to |
| MergeModeExact.StraightInvariantsAreExact | State/BasicPredicateState.h:101-105 | With INVARIANT predicates outside choices only, formula and axiom together say exactly that some path executes and meets them |
| InvariantDefinitions.AssertionIsSatisfiableIff | Passes/PredicateAnalysis/DefaultPredicateAnalysis.cpp:50-314 | With INVARIANT predicates as instructions give rise to them, stores and definitions of variables mentioned only in scope: formula and axiom of merge mode are satisfiable together exactly if under some valuation a path executes and meets its INVARIANT predicates; and so are those of free-variable mode, if alternatives ask for the same arrays |
| InvariantDefinitions.GoodPathCanBeAsserted | SMT/Z3/Solver.cpp:91-91 | For a path that executes and meets its INVARIANT predicates, the variables defined in branches can be chosen, and nothing else changed, so that formula and axiom are true |
| InvariantDefinitions.MergedIsRun | State/PredicateStateChoice.h:78-123 | Under well-behaved guards merged memory is the memory in which the path that executes ends, in any memory and without symbols |
| MergedMeaning.MergeMeans | State/PredicateStateChoice.h:78-123 | For every state whose guards do not write, overlapping or memory-reading as they may be: the context denotes the merged memory, the formula says that the state is reached through, the axiom that all INVARIANT predicates hold, taken or not |
| MergeModeExact.ChoiceIsExact | SMT/ExecutionContext.stub.cpp.inc:184-213 | If each alternative is encoded exactly in its own copy of the context, so is the choice after memories are merged, and its axiom is that of all alternatives |
| MergeConditions.MergedIsRightIff | SMT/ExecutionContext.stub.cpp.inc:184-213 | For exactly encoded alternatives whose PATH predicates do not write: merged memory is that of every path that executes if and only if every alternative that executes ends in the memory of the last one whose guard is still true at its own end, or, where there is none, in the memory before |
| MergeConditions.MergedIsRightIffGuards | SMT/ExecutionContext.stub.cpp.inc:207-213 | For guards that do not read memory: if and only if every alternative that executes ends in the memory of the last one whose path condition holds |
| MergeConditions.MergingIsExactThroughoutIff | State/PredicateStateChoice.h:78-123 | For every nesting, and guards that overlap or read memory but do not write: the formula and the context of a state, and of every part of it that execution comes to, say exactly which paths execute and where they end if and only if in every choice that it comes to each alternative that executes has the same merged memory as the last one whose guard is true |
| MergeConditions.RightThroughoutIff | SMT/ExecutionContext.stub.cpp.inc:184-213 | The same for memory alone, whatever the guards do: every path that executes ends in merged memory, in every part, if and only if the choices agree in that way |
| MergeMode.LastTrueGuardDecides | SMT/ExecutionContext.stub.cpp.inc:207-213 | Whatever the guards are, after a choice memory is that of the last alternative whose guard is true |
| MergeMode.NoTrueGuardKeepsMemory | SMT/ExecutionContext.stub.cpp.inc:207-213 | If no guard is true, a choice leaves memory as it was before it |
| MergeMode.MergeShortcutIsSound | SMT/ExecutionContext.stub.h:54-72 | In every context the encoder reaches, returning the default because no alternative has a higher version equals the full merge |
| MergeMode.EncodeGrows | SMT/ExecutionContext.stub.h:48-72 | Under copy, store and nested merge every array either has a higher version than before or is the array it was |
| MergeModeExact.GuardMeans | State/PredicateStateChoice.h:101-108 | The guard computed in the alternative's final context, or taken over from its formula, is true exactly if some path of the alternative meets its PATH predicates |
| MergeMode.PathModeMeans | State/PredicateStateChoice.h:105-107 | In path mode a state of PATH predicates becomes a formula that is true exactly if one of its paths can hold |
| MergeModeExact.ExecutionImpliesGuard | State/PredicateStateChoice.h:101-108 | An alternative with a path that executes has a true guard |
| Meaning.ChainExact | State/PredicateStateChain.h:80-91 | Exact encodings of base and current compose to an exact encoding of the paths of both in sequence |
| Meaning.EncodeDataMeans | State/BasicPredicateState.h:92-110 | A predicate list's formula says that the list executes, its axiom that its INVARIANT predicates hold where they stand, and its context is the memory it ends in |
| Meaning.EncodeActionMeans | Predicate/StorePredicate.h:63-93 | A predicate's formula means that it holds in the memory of the context, and the context afterwards denotes the memory after its write |
| Meaning.RunConcat | State/PredicateStateChain.h:87-90 | Running one path after another is running the second in the memory in which the first ends |
| Guards.FaithfulMeans | State/PredicateStateChoice.cpp:111-142 | Simplifying a path condition that is faithful keeps whether it can hold |
| Guards.SimplifyChoiceKeepsTruthIff | State/PredicateStateChoice.cpp:111-142 | One step at a choice of alternatives that are understood keeps whether it can hold if and only if no pair collapses and either no dropped alternative is true or a kept one is |
| Guards.SimplifyChainKeepsTruthIff | State/PredicateStateChain.cpp:122-133 | One step at a sequence keeps whether it can hold if and only if the part that is dropped is true or the part that is kept is false; where both are dropped, if and only if what is left of the base says what both said |
| Guards.SettledMeans | State/PredicateStateChoice.cpp:111-142 | A state without effects that simplifies to nothing, and whose dropped parts are understood, can hold in any valuation exactly if what is dropped is true (`DroppedTruth`), which does not depend on the valuation |
| Guards.SimplifyKeepsTruthThroughoutIff | State/PredicateStateChoice.cpp:111-142 | For any state without effects, and a valuation: simplifying keeps whether each part of the state can hold, and so the whole, if and only if at every sequence in it the part that is dropped is left as something true or stands beside something false, and at every choice no pair collapses and nothing true is dropped unless something true is kept |
| FreeMeaning.FreeMeans | State/PredicateStateChoice.h:91-119 | For every state, memory and final memory: some choice of the external arrays makes the formula true, the axiom, or both, with the context denoting that final memory, exactly if the state can end in it, where of a choice one alternative is taken and the INVARIANT predicates of the others can hold |
| FreeModeExact.FreeIsSound | State/PredicateStateChoice.h:109-119 | A true free-variable formula comes from a path that executes and ends in the memory that the context denotes; with a true axiom its INVARIANT predicates hold |
| FreeModeExact.FreeIsComplete | SMT/ExecutionContext.stub.h:118-126 | For a path that executes, the external arrays of the state can be chosen, and nothing else changed, so that the formula is true and the context denotes the path's memory; and the axiom true too, if the path meets its INVARIANT predicates and the alternatives it leaves aside can meet theirs |
| FreeModeExact.FreeSatisfiableIffSomePathExecutes | State/PredicateStateChoice.h:91-119 | For nested choices and overlapping guards, some choice of the external arrays makes the formula true exactly if some path executes; formula and axiom, exactly if some path executes and meets its INVARIANT predicates, and every alternative it leaves aside can meet its own |
| FreeModeExact.ModesAreEquisatisfiable | State/PredicateStateChoice.h:91-119 | Where merging is exact, the merge formula is true exactly if the free-variable formula can be made true; with the axioms, merging asserts just that and the INVARIANT predicates of all alternatives in merged memory |
| EncodingLimits.UntakenInvariantIsAsserted | State/BasicPredicateState.h:101-105 | A path executes and has no INVARIANT predicate, the formula is true, and yet the axiom is false, because of an INVARIANT predicate in the other branch |
| EncodingLimits.MemoryReadingGuardLosesWrite | State/PredicateStateChoice.h:106-107 | An alternative whose PATH predicate reads a cell that it then overwrites executes, but its write is missing from the merged memory |
| EncodingLimits.OverlappingGuardsForgetEarlierPath | SMT/ExecutionContext.stub.cpp.inc:207-213 | With two true guards the merged memory is not that of the path through the first alternative |
| EncodingLimits.EmptyBranchMakesGuardFalse | State/PredicateStateChoice.cpp:114-118 | A branch without path condition is dropped from a guard, which becomes false where the branch is taken |
| EncodingLimits.ComplementaryBranchMakesGuardFalse | State/PredicateStateChoice.cpp:120-132 | A complementary branch, which always holds, collapses to a choice of nothing, which is encoded as false |
| EncodingLimits.NonUniformChoiceForgetsArray | SMT/ExecutionContext.stub.cpp.inc:258-261 | In free-variable mode an array that the taken alternative never asked for can have any contents afterwards, with the axiom or without |
| EncodingLimits.ChoiceRemembersIffUniform | SMT/ExecutionContext.stub.cpp.inc:247-261 | Where every alternative can be taken, each solution of a free-variable choice denotes the final memory of one of its paths, if and only if the alternatives ask for the same arrays; with the axiom or without |
| SmtLogic.SwitchPicksLastTrueGuard | SMT/Logic.stub.hpp:667-680 | Of several true guards the last one decides |
| SmtLogic.SwitchFallsThrough | SMT/Logic.stub.hpp:667-680 | Without a true guard the default decides |
| SmtLogic.SwitchOfEqualCases | SMT/Logic.stub.hpp:667-680 | If all cases have the value of the default, so has the switch, whatever the guards |
| ExecutionContexts.MergeVersioned | SMT/ExecutionContext.stub.h:54-72 | The loops over versions and alternatives compute the merge that the exactness proofs are about |
| ExecutionContexts.SwitchArrays | SMT/Logic.stub.hpp:667-680 | The accumulation over cases computes the switch in which the last true guard decides |
| ExecutionContexts.ExecutionContext.Get | SMT/ExecutionContext.stub.h:103-104 | Asking for an array enters it, with default contents, exactly if it is not there |
| ExecutionContexts.ExecutionContext.ReadExprFromMemory | SMT/ExecutionContext.stub.h:143-149 | A read selects from the current array and changes no array's contents |
| ExecutionContexts.ExecutionContext.WriteExprToMemory | SMT/ExecutionContext.stub.h:150-156 | A write stores into one array, raises its version by one and leaves the others alone |
| ExecutionContexts.ExecutionContext.ExternalizeEverythingMutable | SMT/ExecutionContext.stub.h:118-126 | One equation for each array of the context, whose place its external variable then takes |
| ExecutionContexts.ExecutionContext.SwitchOnAlternatives | SMT/ExecutionContext.stub.cpp.inc:154-213 | Every array known to the context or to an alternative becomes its merge |
| ExecutionContexts.ExecutionContext.ExternalSwitchOnAlternatives | SMT/ExecutionContext.stub.cpp.inc:235-261 | Every array known to the context or to an alternative becomes the external variable of this choice |
| ExecutionContexts.DoitBasic | State/BasicPredicateState.h:92-110 | The loop over predicates, updating the context in place, produces the specified formula and context |
| ExecutionContexts.Doit | State/PredicateStateChoice.h:78-123 | The recursive encoder with copied contexts, collected memories and an in-place merge produces the specified formula and context |
| ExecutionContexts.DoitFree | State/PredicateStateChoice.h:91-119 | The same for free-variable mode, with its counter of choices |
| StateAlgebra.FilterIsPathwise | State/BasicPredicateState.cpp:101-110 | Filtering any state by types filters each of its paths |
| StateAlgebra.SplitIsFilterAndRest | State/PredicateStateChoice.cpp:80-97 | The first half of a split is the filter, the second half has of each path what the first leaves, and sizes add up |
| StateAlgebra.ReverseIsPathwise | State/PredicateStateChain.cpp:95-100 | Reversing any state reverses each of its paths |
| StateAlgebra.ReverseTwice | State/BasicPredicateState.cpp:121-128 | Reversing a path twice is the identity |
| StateAlgebra.SliceContinuesPrefix | State/PredicateStateChain.cpp:113-120 | If slicing on a state succeeds, the paths of the whole are exactly those of the prefix continued by those of the slice |
| StateAlgebra.SimplifyKeepsSize | State/PredicateStateChoice.cpp:111-142 | Simplifying never adds predicates, and keeps all exactly if nowhere a complementary pair collapses |
| StateAlgebra.SimplifyKeepsPathsThroughoutIff | State/PredicateStateChoice.cpp:111-142 | Simplifying keeps the paths of every part of a state, and so of the whole, exactly if at every choice in it no pair collapses and dropping the empty alternatives loses no path, and at every sequence the side that is dropped has the empty path or the other one none |
| StateAlgebra.SimplifyKeepsPlain | State/PredicateStateChain.cpp:122-133 | A state without empty alternatives, choices of nothing and collapsing pairs keeps its path set, its size and whether it is empty |
| StateAlgebra.MakeChainKeepsPathsIff | State/PredicateStateFactory.cpp:12-24 | The chain factory keeps the path set under the same condition on the side that it drops |
| StateAlgebra.MakeChoiceKeepsPaths | State/PredicateStateFactory.cpp:34-45 | The choice factory, which gives back a single alternative as it is, always keeps the path set |
| StateAlgebra.EmptyMeansNoPredicate | State/PredicateStateChain.cpp:135-141 | A state is empty exactly if it has size zero |
| BasicStates.BasicPredicateState.Map | State/BasicPredicateState.cpp:92-99 | The loop maps each predicate in its place, in a state of its own |
| BasicStates.BasicPredicateState.FilterByTypes | State/BasicPredicateState.cpp:101-110 | The loop keeps the predicates of the given types in their order, in a state of its own |
| BasicStates.BasicPredicateState.SplitByTypes | State/BasicPredicateState.cpp:130-147 | The loop sorts the predicates into two states of their own, each in the old order |
| BasicStates.BasicPredicateState.Reverse | State/BasicPredicateState.cpp:121-128 | The backward loop gives the reversed list |
| BasicStates.SplitState | State/PredicateStateChoice.cpp:80-97 | The loop over alternatives and the recursion into sequences split any state as the pathwise results ask |
| MemArrays.RepresentationsAgree | SMT/Logic.stub.hpp:957-1220 | After any history of stores, multi-stores and guarded merges from the same contents, theory array, closure and every function that meets the axioms have the same element at every index |
| MemArrays.AxiomsAreConservative | SMT/Logic.stub.hpp:923-947 | The axioms of derived functions can be met together, whatever the initial contents |
| MemArrays.LastEntryWins | SMT/Logic.stub.hpp:650-665 | Of several entries for an index the last one is stored |
| MemArrays.LastTrueWins | SMT/Logic.stub.hpp:667-680 | Of several true guards the last one decides, for any type of value |
| MemArrays.SwitchThenSelect | SMT/Logic.stub.hpp:1108-1113 | Switching whole arrays and then selecting is switching the selected elements |
| MemArrays.StoreEntries | SMT/Logic.stub.hpp:1077-1084 | Storing entries one by one gives at each index what a switch on the index gives |
| ByteScatter.ReadOverWrite | SMT/Logic.stub.hpp:1327-1365 | Selecting any width within the cells just stored gives the stored value cut or sign-extended to that width |
| ByteScatter.ReadBack | SMT/Logic.stub.hpp:1327-1365 | Selecting the width that was stored gives the stored bit vector, for every width and cell size |
| ByteScatter.DisjointRead | SMT/Logic.stub.hpp:1327-1365 | A select of any width whose cells are not among the stored ones is unchanged |
| ByteScatter.IntervalsApart | SMT/Logic.stub.hpp:1357-1365 | Without wrapping around, footprints are disjoint when their intervals are |
| ByteScatter.PiecesJoin | SMT/Logic.stub.hpp:1239-1260 | The cells of a value joined in order are the value sign-extended to whole cells |
| ByteScatter.SplitBytes | SMT/Logic.stub.hpp:1239-1260 | The loop produces the cells of the value, the narrow case included |
| ByteScatter.ConcatBytesDynamic | SMT/Logic.stub.hpp:1288-1307 | The loop joins the cells, the first lowest, and cuts or extends to the width asked for |
| ByteScatter.Select | SMT/Logic.stub.hpp:1327-1333 | The loop over cells computes the select that reads back what was stored |
| ByteScatter.Store | SMT/Logic.stub.hpp:1356-1365 | The loop over cells computes the store that is read back |
| Bits.SextKeepsSignedVal | SMT/Logic.stub.hpp:373-383 | Growing a bit vector with its sign keeps the signed value |
| OverflowAxiom.AxiomIsExact | SMT/Logic.stub.hpp:773-801 | For all widths, signed and unsigned: the axiom holds exactly if the sum is representable in the wider width, and then the result is the sum |
| RangeStore.RangeStoreIsLoopIff | SMT/ExecutionContext.stub.h:160-184 | The arrays that meet the range axiom are those that the loop of writes produces, for all memories, exactly if the range does not wrap around as signed pointers |
| RangeStore.WrappedRangeStoresNothing | SMT/ExecutionContext.stub.h:169-174 | If it does wrap around, the axiom asks memory to stay as it was, while the loop writes |
| RangeStore.RangeAxiomHasModel | SMT/ExecutionContext.stub.h:169-181 | The range axiom can be met for every memory |
| RangeStore.WriteZeros | Predicate/SeqDataZeroPredicate.h:94-96 | Stopped after any number of turns, the loop with its 32-bit counter has the specified counter and memory |
| RangeStore.LoopEndsIff | Predicate/SeqDataZeroPredicate.h:94-96 | The loop ends exactly on fewer than 2^32 cells, and then has written each of them |
| AggregateLayout.ShiftsAreExactIff | Type/TypeUtils.cpp:111-122 | With all counts below 2^64: the shift of every leaf of a type is its position without wrap-around if and only if in each record every field with a leaf has fewer than 2^32 elements before it |
| AggregateLayout.LeafAtPosition | Codegen/llvm.cpp:192-217 | In a type without a hollow record before a leaf, the leaf of an in-range index path lies in the flattened initialiser at its position |
| AggregateLayout.LeafAtShift | Codegen/llvm.cpp:192-217 | In such a type the shift along an in-range index path is the place of that path's leaf in the flattened initialiser |
| AggregateLayout.LeafAtPlace | Codegen/llvm.cpp:192-217 | In every type the leaf of an in-range index path lies in the flattened initialiser behind as many entries as there are leaves before it |
| AggregateLayout.ShiftsArePlacesIff | Term/GepTerm.cpp:76-113 | Where offsets do not wrap, the shift of every leaf of a type is its place in the flattened initialiser if and only if no record without leaves comes before a leaf |
| AggregateLayout.ElementCountIsAssertedIff | Factory/Nest.cpp:62-66 | The asserted element count equals the number of flattened leaves exactly if no record in the type is without leaves |
| AggregateLayout.SizeCountsLeavesIff | Type/TypeVisitor.hpp:141-152 | A type's size is at least its number of leaves, and equal to it exactly if no record in it is hollow |
| AggregateLayout.InitialiserIsFound | Predicate/SeqDataPredicate.h:85-95 | If the program's assertion passes, then after the initialiser is written the address computed over an index path holds that path's leaf |
| AggregateLayout.ShiftsAreDistinct | Term/GepTerm.cpp:76-113 | Different leaves lie at different shifts |
| AggregateLayout.WrittenHolds | Predicate/SeqDataPredicate.h:90-94 | After the write loop each datum is in its cell and no other cell has changed |
| AggregateLayout.CalcShift | Term/GepTerm.cpp:76-113 | The loop over indices, with running size and type, computes the shift along the path as a 64-bit word |
| AggregateLayout.GetGepChild | Term/GepTerm.cpp:66-74 | The loop ends at the type that the index path leads to |
| AggregateLayout.GetStructOffset | Type/TypeUtils.cpp:111-122 | The loop adds the sizes of the fields before, in 32 bits |
| AggregateLayout.VisitType | Type/TypeVisitor.hpp:123-153 | The visitor computes a type's size in 64 bits |
| AggregateLayout.WriteSeqData | Predicate/SeqDataPredicate.h:90-94 | The loop with a running base writes the data from the start on |
| AggregateLayout.FlattenCounts | Codegen/llvm.cpp:192-217 | A flattened constant has as many entries as its type has leaves |
| AggregateLayout.HollowRecordShiftsWhatFollows | Type/TypeVisitor.hpp:146-152 | Behind an empty record the shift points past the leaf that it should find |
| AggregateLayout.WideFieldsCollide | Type/TypeUtils.cpp:114-117 | A field behind 2^32 elements is given the shift of the first field |
| BumpAllocator.RunKeeps | Executor/MemorySimulator.cpp:776-819 | Over any run of requests: blocks have the least size that fits, are aligned to it in their arena, lie below its offset and apart from earlier blocks of the arena, and the offset stays below twice the rounded sizes, less a chunk per block |
| BumpAllocator.AllocateMeans | Executor/MemorySimulator.cpp:776-819 | An allocation runs out of memory exactly for 2^63 or more than the tree, succeeds exactly if its rounded block ends within the tree, marks exactly that block in the tree, and changes nothing otherwise |
| BumpAllocator.BlocksAreApartIff | Executor/MemorySimulator.cpp:776-819 | After any run of requests all blocks of both arenas are apart if and only if the stack arena has stayed in its half or nothing is on the heap |
| BumpAllocator.StackRunsIntoHeap | Executor/MemorySimulator.cpp:90-94 | Nothing keeps the stack arena in its half: a stack block and a heap block get the same address |
| BumpAllocator.RoundedIsLeast | Executor/MemorySimulator.cpp:769-773 | The rounded size is the least chunk * 2^k that the amount fits in |
| BumpAllocator.CalcRealMemoryAmount | Executor/MemorySimulator.cpp:762-774 | The doubling loop ends without leaving 64 bits, for every amount below 2^63 and any chunk size |
| BumpAllocator.PlaceIsLeast | Executor/MemorySimulator.cpp:781-785 | A block is placed at the first multiple of its size at or above the offset |
| BumpAllocator.LocateAligned | Executor/MemorySimulator/SegmentTreeImpl.cpp:36-85 | A block aligned to its rounded size is exactly one node of the tree, and the descent stops there and nowhere above |
| BumpAllocator.MemorySimulator.AllocateMemory | Executor/MemorySimulator.cpp:776-792 | A stack allocation keeps the invariant and is the specified step |
| BumpAllocator.MemorySimulator.MallocMemory | Executor/MemorySimulator.cpp:803-819 | A heap allocation keeps the invariant and is the specified step |
| BumpAllocator.MemorySimulator.TreeAllocate | Executor/MemorySimulator/SegmentTreeImpl.cpp:346-359 | Marks the located node, or leaves the marks as they were |
| SegmentTrees.StoreMeans | Executor/MemorySimulator/SegmentTreeImpl.cpp:88-178 | A store into allocated memory, split wherever it crosses the middle of a node, puts its data in place, turns the rest of a touched chunk that had no bytes into garbage, and keeps every other place and what is allocated |
| SegmentTrees.StoreSucceedsIff | Executor/MemorySimulator/SegmentTreeImpl.cpp:102-120 | The checks along the descent accept a store exactly if every place that it writes lies in an allocated block |
| SegmentTrees.OtherPlacesAreKeptIff | Executor/MemorySimulator/SegmentTreeImpl.cpp:122-141 | A store keeps all other places exactly if every chunk that it covers in part held bytes before |
| SegmentTrees.AllocateMeans | Executor/MemorySimulator/SegmentTreeImpl.cpp:20-86 | Allocating in blank memory gives the block the requested state, makes exactly its first places writable, as many as asked for, and keeps everything else |
| SegmentBlocks.AllocateOverMeans | Executor/MemorySimulator/SegmentTreeImpl.cpp:20-86 | Allocating over whatever is there gives the block the requested state, makes its first places writable unless it lies in an allocated node, and keeps everything else |
| SegmentBlocks.AllocateKeepsCleanIff | Executor/MemorySimulator/SegmentTreeImpl.cpp:36-85 | An allocation leaves stale children or bytes under its state if and only if the node at which its descent ends had any |
| SegmentBlocks.StaleContentsReturn | Executor/MemorySimulator/SegmentTreeImpl.h:169-182 | After an allocation over a node with children, the first store into the block leaves each half that had a child as if there had been no allocation, and the other half as in a block allocated over nothing |
| SegmentBlocks.StaleBytesReturn | Executor/MemorySimulator/SegmentTreeImpl.cpp:123-141 | After an allocation over a single chunk, the first store into it leaves the chunk as if there had been no allocation |
| SegmentBlocks.AllocateSucceedsIff | Executor/MemorySimulator/SegmentTreeImpl.cpp:36-85 | An allocation passes the assertions of its descent exactly if its place is aligned to the smallest node that is large enough |
| SegmentBlocks.InBlockMeans | Executor/MemorySimulator/SegmentTreeImpl.cpp:36-85 | The places of the node at which the descent ends are those in the same multiple of its size |
| SegmentBlocks.TouchedMeans | Executor/MemorySimulator/SegmentTreeImpl.cpp:143-178 | A store that is split at the middle of each node touches exactly the chunks from that of its first to that of its last byte |
| AllocatedTrees.RunsBuildTrees | Executor/MemorySimulator.cpp:776-819 | While the stack arena stays in its half or nothing is on the heap, every run of the allocator leaves a valid tree, in which a place is writable exactly if it is among the requested bytes of a block |
| AllocatedTrees.BuildMeans | Executor/MemorySimulator/SegmentTreeImpl.cpp:346-359 | Blocks that are apart and that the descent finds build a valid tree, blank outside them, in which exactly their requested bytes are writable |
| AllocatedTrees.LocateIsAllocate | Executor/MemorySimulator/SegmentTreeImpl.cpp:36-85 | The allocator finds a node exactly where the descent in the tree marks one |
| AllocatedTrees.LocatedBlock | Executor/MemorySimulator/SegmentTreeImpl.cpp:36-85 | The node that it finds is the one whose contents the allocation sets |
| SegmentTrees.GetMeans | Executor/MemorySimulator/SegmentTreeImpl.cpp:180-238 | What the tree answers for a place is what is in memory there |
| SegmentTrees.DeriveKeeps | Executor/MemorySimulator/SegmentTreeImpl.h:168-195 | Creating children that take over a node's state changes neither contents nor what is allocated |
| StoredLoads.StoreThenLoad | Executor/MemorySimulator.cpp:836-912 | After a store the memory that loads walk through holds its data, and loading the same range returns them exactly if it starts on a chunk boundary or spans at least a chunk |
| StoredLoads.KnownIsLoaded | Executor/MemorySimulator/SegmentTreeImpl.cpp:374-382 | A place of the tree whose byte is known is loaded as that byte, from a chunk or from a node that is filled |
| ChunkLoads.LoadIsRightIff | Executor/MemorySimulator.cpp:858-889 | The walk gives flat memory for all memories exactly if it starts on a chunk boundary, spans at least a chunk, or loads nothing |
| ChunkLoads.ShortLoadFails | Executor/MemorySimulator.cpp:866-872 | What a shorter load from within a chunk does instead: a slice outside the buffer, no answer, or no end |
| ChunkLoads.WalkIsFlat | Executor/MemorySimulator.cpp:858-889 | From a boundary, or with a whole chunk to go, the rest of the walk is the rest of flat memory |
| ChunkLoads.FlatIsConcreteIff | Executor/MemorySimulator.cpp:874-881 | Flat memory is concrete exactly if every byte's chunk has been written, and then has each byte of its chunk |
| ChunkLoads.LoadBytesFromMemory | Executor/MemorySimulator.cpp:854-889 | The loop in unsigned 64-bit arithmetic computes the walk |
| VectorBitcast.ConservesIff | Executor/Execution.cpp:1755-1793 | Every vector's bits are conserved, in either byte order, exactly if one element count divides the other |
| VectorBitcast.BitcastConserves | Executor/Execution.cpp:1755-1793 | Then the result has the right shape and the same weighted sum of elements |
| VectorBitcast.BitcastRoundTrip | Executor/Execution.cpp:1755-1793 | Casting there and back is the identity |
| VectorBitcast.LastElementIsLost | Executor/Execution.cpp:1756-1775 | Merging counts that do not divide ignores the last element |
| VectorBitcast.HighBitsAreLost | Executor/Execution.cpp:1776-1793 | Splitting into counts that do not divide loses the high bits |
| VectorBitcast.ValueIsInjective | Executor/Execution.cpp:1755-1793 | Vectors of one shape with the same weighted sum are the same |
| VectorBitcast.OrOfApart | Executor/Execution.cpp:1772-1772 | Or-ing in an element without common bits adds it |
| VectorBitcast.MergeGroup | Executor/Execution.cpp:1761-1774 | The inner loop, with a wrapping shift amount, computes the weighted sum of its group |
| VectorBitcast.SplitElement | Executor/Execution.cpp:1780-1791 | The inner loop, with a wrapping shift amount, computes the digits of its element |
| VectorBitcast.ExecuteBitCast | Executor/Execution.cpp:1755-1793 | The loops compute the cast that the conservation results are about |
| AnnotationExecutors.AnnotationExecutor.Transform | Executor/AnnotationExecutor.cpp:130-138 | Transforming a term leaves the old stack and exactly the term's value on it, or reports a violated axiom or a missing operation exactly if evaluation by recursion does |
| AnnotationExecutors.AnnotationExecutor.TransformPair | Term/BinaryTerm.h:46-54 | The left operand is evaluated before the right one, and the operation gets them in this order |
| AnnotationExecutors.AnnotationExecutor.TransformBinary | Executor/AnnotationExecutor.cpp:206-252 | Two operands leave the stack and the result, if there is one, is on it |
| AnnotationExecutors.AnnotationExecutor.TransformCmp | Executor/AnnotationExecutor.cpp:253-316 | The same for comparisons |
| AnnotationExecutors.AnnotationExecutor.TransformTernary | Executor/AnnotationExecutor.cpp:317-333 | Of three operands the chosen one stays, at the merged type |
| AnnotationExecutors.AnnotationExecutor.TransformAxiom | Executor/AnnotationExecutor.cpp:417-427 | The axiom leaves the stack and the value below it stays |
| AnnotationMeaning.ArithmeticIsExact | Executor/AnnotationExecutor.cpp:206-252 | Without overflow, with literals that fit and no zero divisors, the value on the stack is the integer that the term stands for, under addition, subtraction, multiplication, truncating division and remainder, at the merged width |
| AnnotationMeaning.ConditionsMean | Executor/AnnotationExecutor.cpp:94-100 | A condition over such terms leaves a set bit exactly if it holds, so that an assertion fails exactly if it does not |
| AnnotationMeaning.SextOrTruncMeans | Executor/AnnotationExecutor.cpp:33-46 | Bringing a value to another width keeps its signed value exactly if it fits |
| AnnotationMeaning.SupportedRuns | Executor/AnnotationExecutor.cpp:14-46 | Operand widths never clash: without shifts, comparisons of two literals and wide implications, evaluation fails exactly if it comes to a division by zero, and otherwise ends in a value of the term's type or a violated axiom |
| AnnotationMeaning.ImpliesIsWellWidthedIff | Executor/AnnotationExecutor.cpp:239-246 | An implication has a value of its type exactly if its premise is true or its type is a single bit |
| AnnotationMeaning.LiteralsCannotBeCompared | Executor/AnnotationExecutor.cpp:253-316 | Comparing two literals is unsupported, except by the constant comparisons |
| AnnotationMeaning.ArithmeticMeans | Executor/Execution.cpp:893-895 | Modular arithmetic on bits is modular arithmetic on signed values |
| AnnoConverse.RoundTripIff | Anno/grammar.hpp:85-219 | For every tree without floating literals: reading its printed text gives exactly that tree and nothing else if and only if it is printable and has neither a right shift nor a literal of more than 31 bits |
| AnnoConverse.ReadOrRefused | Anno/grammar.hpp:85-219 | The printed text of every tree that reading can build is that of a printable tree, and read as such, or is not read to its end |
| AnnoShape.ExprBuilds | Anno/calculator.hpp:161-267 | What reading leaves on the stack without spilling is a tree of valid names, left shifts, non-empty argument lists and names as members |
| AnnoSafety.AcceptedLeavesOneOperand | Anno/calculator.hpp:250-263 | If reading abandons operands it stops before an operator; so a text that is read to its end leaves exactly one operand more, a tree that reading can build, which is what the command level asserts |
| AnnoSafety.ExprSpills | Anno/grammar.hpp:139-219 | Where an expression has left operands behind, the rest begins with an operator that no looser level can read |
| AnnoRoundTrip.ReadUndoesPrint | Anno/grammar.hpp:85-219 | Reading the printed text of a printable tree consumes all of it and leaves one operand, the tree with its right shifts turned left and its literals cut to 32 bits, and no operand spilled |
| AnnoRoundTrip.ReparseIsIdentityIff | Anno/grammar.hpp:169-171 | What comes back is the tree itself exactly if it has no right shift and no literal of more than 31 bits |
| AnnoRoundTrip.LevelReads | Anno/grammar.hpp:139-219 | A printed operand is read at any level, inside any text whose continuation no level and no suffix can take |
| AnnoRoundTrip.OpQuietAbove | Anno/grammar.hpp:139-219 | An operator is not taken by a tighter level: where a shorter operator is a prefix of it, as with bitwise and logical and, the attempt fails and leaves no trace |
| AnnoRoundTrip.ArgumentsRead | Anno/grammar.hpp:87-92 | A printed argument list is collected into the list of its arguments |
| AnnoGrammar.ReadExpr | Anno/grammar.hpp:85-219 | On every input, accepted or not, the stack below the entry depth is kept, and success leaves one operand, and the operands spilled by abandoned alternatives, above it |
| AnnoGrammar.ReadLevel | Anno/grammar.hpp:139-219 | The same for every level of the cascade |
| AnnoGrammar.ReadOperator | Anno/calculator.hpp:213-222 | An operator with its operand never pulls from below the operand that it continues |
| AnnoGrammar.ReadSuffix | Anno/grammar.hpp:93-112 | The same for index, call and property suffixes, which fail without touching the stack |
| AnnoGrammar.ReadArguments | Anno/grammar.hpp:87-92 | Collecting arguments always finds two operands to collect |
| AnnoCalculator.Calculator.Pull | Anno/calculator.hpp:161-167 | Takes the top off a stack that callers know is not empty |
| AnnoCalculator.Calculator.BinaryAction | Anno/calculator.hpp:213-222 | The left operand is the one pushed first |
| AnnoCalculator.Calculator.Expr | Anno/grammar.hpp:218-219 | The parser with its mutable stack reports, on every input, what the grammar specifies and leaves the specified stack |
| AnnoCalculator.Calculator.OperatorStar | Anno/grammar.hpp:161-161 | The loop over operators keeps what its last, failed attempt has pushed |
| AnnoCalculator.Calculator.Operator | Anno/grammar.hpp:183-183 | The loop over alternatives tries them in order on the stack that the ones before have left |
| AnnoCalculator.Calculator.Suffix | Anno/grammar.hpp:93-112 | Suffixes on the mutable stack are those of the grammar |
| AnnoTree.PrintingVisitor.Visit | Anno/production.cpp:178-294 | The visitor appends exactly the printed text to its stream |
| AnnoTree.PrintingVisitor.VisitItems | Anno/production.cpp:196-201 | The loop separates the items of a list by commas |
| AnnoLimits.BooleansAreRefused | Anno/production.cpp:184-186 | A printed boolean is refused |
| AnnoLimits.LoadsAreRefused | Anno/production.cpp:286-294 | A printed dereference is refused |
| AnnoLimits.ImplicationsAreRefused | Anno/production.cpp:275-276 | A printed implication is refused, and its left operand stays behind on the stack |
| AnnoLimits.NegativeLiteralsReadAsNegations | Anno/production.cpp:181-183 | A negative literal reads back as the negation of a positive one |
| AnnoLimits.SuffixesBindTighter | Anno/production.cpp:248-271 | A suffix on a unary operand reads back inside it |

## Left out

- MergeModeExact.MergeIsExact: values are 64-bit words of one cell each; other widths are scattered over cells in `ByteScatter`, and narrower arithmetic is not modelled. Stores of records, which the program ignores, have no predicate here.
- FreeModeExact.FreeSatisfiableIffSomePathExecutes: asks that the alternatives of a choice use the same arrays, because without that the result is false (`EncodingLimits.NonUniformChoiceForgetsArray`); for a single choice that condition is shown to be necessary (`EncodingLimits.ChoiceRemembersIffUniform`), for nested ones only sufficient. `FreeMeaning.FreeMeans` is exact without it.
- InvariantDefinitions.AssertionIsSatisfiableIff: definitions by casts, choices between values and address computations are not among the terms of the model.
- AnnoConverse.RoundTripIff: leaves out floating-point literals, which have a lexeme only; their values and printing are library behaviour.
- AggregateLayout.LeafAtShift: asks that sizes stay below 2^64, that field offsets do not wrap at 2^32, which `ShiftsAreExactIff` shows to be needed, and that no hollow record comes before a leaf, which `ShiftsArePlacesIff` does.
- SegmentTrees.AllocateMeans: is about blank memory, where an allocation also succeeds and leaves a valid tree; `SegmentBlocks.AllocateOverMeans` is about any memory.
- RangeStore.WriteZeros: stops after a given number of turns, because the program's loop may never end.
- ChunkLoads.LoadBytesFromMemory: returns `Endless` where the program's loop would repeat for ever.
- Context axioms of the encoder, the counters for local and global pointers, bounds of address computations, and the mode in which memory starts out unconstrained.
- Locations and visited sets of predicate states, and the iteration order of hash tables, which is taken to be insertion order.
- The simplifier of formulas, quantifier patterns and solver back ends: expressions are taken by value. `BSeq` in `Choice::simplify` is taken to match a sequence of exactly that length; its header is not part of this model.
- SegmentTrees.StoreMeans: nodes are values, so that what a refused store has already changed is not in the model; stores of no bytes are not either. The tree's `memset`, `memmove`, `memchr` and `free` are left out. `ChunkLoads` takes chunk contents from a map, which `StoredLoads` builds from a tree; the load from a chunk that was never stored to, through a null pointer, is not in it.
- Global memory and constants of the executor, floating point, pointers and vectors in annotations, literals wider than 64 bits.
- The command level of the annotation parser (keywords, masks, comment delimiters), and its error messages.
- Abstract interpretation, drivers, passes, converters and databases.
