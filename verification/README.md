# Models of the OR-Tools dependency analyser, the streaming CP-SAT shim and the contrib models

A Dafny model of the parts of this repository that compute something themselves. The solvers behind the
examples are not part of it: a posted constraint is a predicate on assignments, and nothing is assumed about search.

`dafny verify dfyconfig.toml` checks the whole project.

## The parts

**Dependency analyser** (`Reachability`, `SccInvariant`, `Tarjan`, `Condensation`, `WeakComponents`).
The recursive search for strongly connected components is a class whose fields are the counter, the two
dictionaries, the stack and the set that the nested function updates. The proof follows white, gray and black
directories: one lemma for each way the search moves. The condensation and the breadth-first search are methods;
the theorems about them range over all matrices and all lists of directories, repeated or unlisted names included.

**Streaming solve** (`StreamModel`, `StreamInvariant`, `StreamTheorems`, `StreamHistories`, `StreamShutdown`,
`StreamLiveness`, `StreamObjects`).
A labelled transition system with one step for each lock acquisition, critical section, unlocked read,
notification and wait, for any number of streams on one token. Threads are the workers, the solver threads
that call the observer, one consumer and one finalizer per handle, and any number of callers of stop. Assumed are only
the facts about the solver: observer calls end before the solve returns, and a stopped solve returns. The theorems are about
every run; those of `StreamHistories` say what the labels of a run, taken alone, make of its states, and those of `StreamLiveness` speak
about every endless run that is fair: a thread that can always take its next step takes it
in the end, and a thread that finds the token mutex free again and again gets it in the end. `StreamObjects` ties the critical sections,
written on fields, to the steps.

**Nonograms** (`NonogramAutomaton`, `NonogramRegular`, `NonogramTable`, `NonogramLayout`, `NonogramBoard`).
The three ways in which a clue is compiled into an automaton and the automaton into constraints, proved to accept
the same language, which is the set of lines that the clue describes.

**Parametric models** (`Circuit`, `DeBruijn` with `JoinedCycles`, `DeBruijnTours`, `DeBruijnBalance`, `DeBruijnTrails` and `DeBruijnSequences`,
`MagicSequence`, `Partition`, `BrokenWeights`, `Langford`, `GolombRuler`, `DivisiblePrefix`, `Cumulative`, with `Cp`, `Digits`, `Permutations` and `Sums` below them).
The posting loops are methods that build the list of constraints; their contracts equate it with a specification
function. A lemma per model says what it means for an assignment to satisfy that list, another one (`...InFull`) spells that meaning
out without the functions that the constraints are built from, and the theorems are about that meaning, for all sizes.

## Where the code does not do what it says

- The modulo propagator of `divisible_by_9_through_1.cs` posts a strict lower bound where its comment (line 58) says `<=`.
  The model follows the code. For x within bounds whose largest absolute value is l, three kinds of input are lost: x = l with y = -1, x = -l with
  y = 1, and every input when x is fixed at 0 (`ModuloMeans`, `PostedModuloMeans`, `StrictBoundIsTooStrict`, `FixedZeroIsRejected`).
- The same propagator demands `x * r >= 0` (line 49) together with `r >= 0` (line 46), so every negative x with a non-zero remainder is rejected.
  `ModuloIsExact` says for which inputs the propagator is exactly the modulo operation. The digits model in that file, in which x is not negative, only
  meets such inputs.
- The bound on a variable limit in `furniture_moving.py` (lines 76-79) sums all demands, also those of tasks that were filtered out.
  For given bounds of the starts it loses no schedule exactly when the peak demand of the active tasks never exceeds that sum (`BoundLosesNothing`);
  for all bounds, exactly when the demands filtered out do not sum to less than 0 (`LeftOutDecides`). `NegativeDemandLosesAll` gives a case in which
  it loses everything.

## Preconditions

Sizes are natural numbers. A model that indexes its first variable needs one: `circuit`, the ruler, the partition,
the Langford and the de Bruijn model ask for a size of at least 1, as the sources fail with an index error otherwise. The line automata
need a non-empty line and the cumulative constraint needs an active task, as the sources take an element of an empty list otherwise.
The values of x in the circuit model are indices, as its comment (`circuit.py`, line 52) demands.

## Model

| member | source | states |
|---|---|---|
| `Tarjan.FindStronglyConnectedComponents` | or-tools/tools/check_ortools_deps.py:106-160 | For every matrix and list of directories: the lists are non-empty, hold every listed directory once and nothing else, two directories share a list exactly when each reaches the other, and every dependency stays in its list or leads to an earlier list |
| `Tarjan.DecompositionInFull` | or-tools/tools/check_ortools_deps.py:106-160 | That decomposition spelled out on the matrix: which lists share a directory, what is listed, who reaches whom inside a list, and no entry of the matrix from a list to a later one |
| `Tarjan.SccFinder.StrongConnect` | or-tools/tools/check_ortools_deps.py:129-155 | A call on a white directory keeps the invariant of the running calls, numbers everything it can reach, changes no earlier number or lowlink, and leaves on the stack only what an older running call covers; the recursion terminates |
| `Tarjan.SccFinder.Enter` | or-tools/tools/check_ortools_deps.py:130-135 | The start of a call: index and lowlink are the counter, the directory is pushed, and nothing else that was recorded changes |
| `Tarjan.SccFinder.LookAt` | or-tools/tools/check_ortools_deps.py:137-145 | One step of the loop over the directories: recursion on an unvisited neighbour and the minimum of the lowlinks, the minimum with the index of a neighbour on the stack, nothing otherwise; keeps the scan invariant with one more directory done |
| `Tarjan.SccFinder.Leave` | or-tools/tools/check_ortools_deps.py:147-155 | At the end of a call a root pops exactly its component and any other directory stays on the stack, covered by an older running call |
| `Tarjan.SccFinder.PopComponent` | or-tools/tools/check_ortools_deps.py:148-155 | The popping loop cuts the stack at the root, keeps on_stack equal to the set of stack entries, and appends the popped entries in reverse order as one component |
| `Tarjan.FinishedDecomposes` | or-tools/tools/check_ortools_deps.py:157-160 | Strongly connected lists whose edges only lead backwards are exactly the classes of mutual reachability |
| `SccInvariant.EnterScans` | or-tools/tools/check_ortools_deps.py:130-135 | Numbering and pushing a white directory starts a scan |
| `SccInvariant.RecurseScans` | or-tools/tools/check_ortools_deps.py:141-143 | A finished recursive call, with its lowlink taken into account, keeps the scan invariant |
| `SccInvariant.SeenScans` | or-tools/tools/check_ortools_deps.py:144-145 | A neighbour that is still on the stack, with its index taken into account, keeps the scan invariant |
| `SccInvariant.SkipScans` | or-tools/tools/check_ortools_deps.py:138-144 | A directory that is not a neighbour, or is in a finished component, needs no change |
| `SccInvariant.LeaveRoot` | or-tools/tools/check_ortools_deps.py:147-155 | If the lowlink equals the index, the entries from the directory up are one strongly connected component that only earlier components can follow |
| `SccInvariant.LeaveInner` | or-tools/tools/check_ortools_deps.py:147 | If the lowlink is smaller, the directory reaches an older running call and stays on the stack |
| `SccInvariant.NothingLeft` | or-tools/tools/check_ortools_deps.py:157-160 | When no call is running the stack is empty, so every visited directory is in a component |
| `SccInvariant.ComponentsAreMutual` | or-tools/tools/check_ortools_deps.py:147-155 | In finished components, sharing one is the same as reaching each other |
| `Condensation.NumberComponents` | or-tools/tools/check_ortools_deps.py:179-186 | The numbering gives each listed directory the number, from 1, of the last component that lists it, and nothing else |
| `Condensation.NumberingInFull` | or-tools/tools/check_ortools_deps.py:179-186 | The number of a directory is the place, counted from 1, of the last list that has it, and every listed directory has one |
| `Condensation.BuildCondensation` | or-tools/tools/check_ortools_deps.py:183-204 | Looking up fails exactly when some dependency has an end outside the components; otherwise the edges are exactly the pairs of different numbers joined by a dependency |
| `Condensation.EdgesInFull` | or-tools/tools/check_ortools_deps.py:197-204 | Which edges there are, spelled out: (a, b) with a different from b for which the matrix has a true entry from a directory numbered a to one numbered b |
| `Condensation.Condense` | or-tools/tools/check_ortools_deps.py:106-204 | Both analyses chained: the condensation is built exactly when all dependencies are between listed directories |
| `Condensation.EdgesGoDown` | or-tools/tools/check_ortools_deps.py:147-204 | Components are emitted in reverse topological order: every edge of the condensation leads to a smaller number |
| `Condensation.CondensationIsAcyclic` | or-tools/tools/check_ortools_deps.py:197-204 | No path of the condensation returns to where it started |
| `Condensation.CondensationKeepsReach` | or-tools/tools/check_ortools_deps.py:163-204 | One directory reaches another exactly when its component reaches the other one in the condensation |
| `WeakComponents.BuildUndirected` | or-tools/tools/check_ortools_deps.py:241-245 | The neighbour sets are exactly the dependencies read in both directions |
| `WeakComponents.Explore` | or-tools/tools/check_ortools_deps.py:251-261 | The breadth-first search from an unvisited directory terminates, lists each directory it reaches exactly once, and marks exactly those as visited |
| `WeakComponents.FindWeaklyConnectedComponents` | or-tools/tools/check_ortools_deps.py:225-262 | Every listed directory is in exactly one list; a list is all that its first directory reaches in the undirected view, unlisted directories included, so two directories share a list exactly when each reaches the other |
| `WeakComponents.WeakDecompositionInFull` | or-tools/tools/check_ortools_deps.py:225-262 | The decomposition spelled out on the lists |
| `WeakComponents.ReachIsSymmetric` | or-tools/tools/check_ortools_deps.py:242-245 | Reachability in the undirected view is symmetric |
| `StreamInvariant.StepKeepsInv` | native/cpsat_shim.cpp:118-135 | Every step of every thread, taken in any state that satisfies it, keeps the invariant on both mutexes, the queue, the wake-ups, the pointer, the reference count and the finalizers |
| `StreamInvariant.RunKeepsInv` | native/cpsat_shim.cpp:152-201 | The invariant holds in every state of every run, with any number of streams on one token |
| `StreamTheorems.StopHitsLiveLimit` | native/cpsat_shim.cpp:161-191 | Whenever the pointer is set it leads to the limit of a stream that has registered and not yet unregistered, so no stop follows a dangling pointer |
| `StreamTheorems.ActiveLimitIsStopped` | native/cpsat_shim.cpp:163-169 | A stop is not lost: once one was requested, the limit the pointer leads to is stopped, whether the stop came before or after the registration |
| `StreamTheorems.ActiveUntilInterference` | native/cpsat_shim.cpp:163-191 | While a stream is registered the pointer leads to its limit exactly as long as no other stream has registered or unregistered since |
| `StreamTheorems.StopReachesExactly` | native/cpsat_shim.cpp:118-131 | A stop or a drop stops a registered, not yet stopped stream if and only if no other stream of the token has registered or unregistered since it did |
| `StreamTheorems.SoloRun` | native/cpsat_shim.cpp:161-191 | If streams are started only when no worker is busy, at most one worker is busy and the pointer leads to its limit |
| `StreamTheorems.StoppedSolvesStop` | native/cpsat_shim.cpp:229-239 | With one stream at a time, after a stop every registered limit is stopped |
| `StreamTheorems.ReturnedThenQueued` | native/cpsat_shim.cpp:172-200 | In every state the pushed updates are the returned ones followed by the queue: no loss, no duplication, no reordering |
| `StreamTheorems.HistoriesGrow` | native/cpsat_shim.cpp:292-313 | What was pushed and what was returned only grow, so what next has returned is always a prefix of all that is ever pushed |
| `StreamTheorems.FinalIsTheLast` | native/cpsat_shim.cpp:193-199 | A final update that next has returned is the last one, and then all pushed updates have been returned |
| `StreamHistories.PushedIsObserved` | native/cpsat_shim.cpp:173-200 | In every run the updates pushed on a stream are, in order, those that the labels name: the bytes of each observer call and the final response, each marked as such |
| `StreamHistories.DeliveredThenQueued` | native/cpsat_shim.cpp:173-200 | What the solver has handed over to a stream is what its calls of next have returned, in order and unchanged, followed by the queue |
| `StreamHistories.FinalIsObserved` | native/cpsat_shim.cpp:193-199 | Of what the solver hands over only the last update can be final, and once the stream is finished the last one is |
| `StreamHistories.StoppedExactly` | native/cpsat_shim.cpp:233-237 | The token is stopped exactly when a stop or the stop of a finalizer has happened before |
| `StreamHistories.LimitStoppedExactly` | native/cpsat_shim.cpp:161-169 | The limit of a stream is stopped exactly when it registered after a stop, or a stop came while it was the last registered one and none had unregistered since |
| `StreamHistories.LimitNeedsStop` | native/cpsat_shim.cpp:166-168 | A limit is stopped only if the token is |
| `StreamHistories.ActiveIsLastRegistered` | native/cpsat_shim.cpp:165-190 | In every run the pointer leads to the stream that registered last, and is null if one has unregistered since |
| `StreamHistories.FinishedDropLeavesToken` | native/cpsat_shim.cpp:120-131 | The finalizer of a stream that it finds finished never takes the token mutex and never asks for a stop |
| `StreamHistories.DropHasCause` | native/cpsat_shim.cpp:120-131 | A finalizer asks for a stop only after it has found its stream unfinished |
| `StreamHistories.DropStopsExactly` | native/cpsat_shim.cpp:118-135 | A freed handle has asked for a stop exactly when its finalizer found the stream unfinished |
| `StreamHistories.TokenMutexExcludes` | native/cpsat_shim.cpp:161-191 | In every run at most one thread is in a critical section of the token |
| `StreamHistories.StateMutexExcludes` | native/cpsat_shim.cpp:176-198 | In every run at most one of observer, worker and consumer is in a critical section of a stream |
| `StreamHistories.TokenIsFreedExactly` | native/cpsat_shim.cpp:273-284 | The reference count is zero exactly when the calling program holds no reference and every handle is freed |
| `StreamTheorems.NextFailsExactly` | native/cpsat_shim.cpp:296-304 | A check of next fails exactly when the final update has been returned before |
| `StreamTheorems.WakeUpIsPending` | native/cpsat_shim.cpp:180-200 | A sleeping consumer with a non-empty queue or the finished flag set has a notification on its way, and none sleeps on after the worker is gone |
| `StreamTheorems.TokenOutlivesItsUsers` | native/cpsat_shim.cpp:273-284 | No step that touches the token is possible once its last reference is gone, and while a worker runs there is a reference |
| `StreamShutdown.MeasureStep` | native/cpsat_shim.cpp:118-135 | Each step of a worker, of its observer calls in flight or of its finalizer uses up a measure; only a new observer call raises it |
| `StreamShutdown.OwnStepsAreBounded` | native/cpsat_shim.cpp:152-201 | In every stretch of every run a stream takes at most as many own steps as its measure, plus two per observer call that starts meanwhile |
| `StreamShutdown.DropIsNeverBlocked` | native/cpsat_shim.cpp:118-135 | For any number of streams: in every state that satisfies the invariant a drop in progress has an enabled helpful step, a step of its own stream or the release of the token mutex, and that step is the return of a solve only if the finalizer awaits that very solve; with one stream at a time that solve was stopped |
| `StreamShutdown.DropFacts` | native/cpsat_shim.cpp:118-135 | In every such state the token still has a reference, so the release that ends the drop is never held up |
| `StreamShutdown.DropCompletes` | native/cpsat_shim.cpp:118-135 | For any number of streams: from any such state the drop can be completed within twice the measure plus one steps, without the consumer and with no solve returning but its own; with one stream at a time only stopped solves return |
| `StreamLiveness.TokenComesFree` | native/cpsat_shim.cpp:120-131 | In every fair endless run, whoever holds the token mutex gives it back |
| `StreamLiveness.DropEnds` | native/cpsat_shim.cpp:118-135 | In every fair endless run, with any number of streams on the token, a drop that has begun ends with the handle freed and the worker gone, if the solve that its finalizer awaits returns |
| `StreamLiveness.SoloDropEnds` | native/cpsat_shim.cpp:118-135 | With one stream at a time the same holds if only stopped solves return |
| `StreamShutdown.NoThreadHoldsBoth` | native/cpsat_shim.cpp:120-132 | The finalizer joins the worker without the token mutex, and no worker holds both mutexes |
| `StreamShutdown.DropStopsTheWrongSolve` | native/cpsat_shim.cpp:163-191 | Two streams at once on one token: a run in which dropping the first handle stops the second solve and leaves the first one running |
| `StreamObjects.StopToken.Register` | native/cpsat_shim.cpp:164-168 | The first critical section of the worker, on the real fields, is the registration step of the transition system: the pointer leads to the limit, and the limit is stopped if it was or the token is |
| `StreamObjects.StopToken.Unregister` | native/cpsat_shim.cpp:189-190 | The second critical section is the unregistration step: the pointer is null |
| `StreamObjects.StopToken.RequestStop` | native/cpsat_shim.cpp:233-237 | The critical section that stop and the finalizer share is the stop step and the drop step: the token is stopped, and so is the limit that the pointer leads to |
| `StreamObjects.StreamState.PushSolution` | native/cpsat_shim.cpp:177-178 | The critical section of the observer appends the bytes, as an update that is not final, to the queue; it is the push of a solution |
| `StreamObjects.StreamState.PushFinalResponse` | native/cpsat_shim.cpp:196-198 | The last critical section appends the bytes as the final update and sets finished; it is the push of the final update followed by the store of finished |
| `StreamObjects.StreamState.Check` | native/cpsat_shim.cpp:296-304 | One round of the wait loop returns the front update, fails, or goes to sleep, as the transition system says, and changes the queue accordingly |
| `StreamObjects.StreamState.Next` | native/cpsat_shim.cpp:292-313 | The wait loop, for any turns of the other threads while it waits: it goes on exactly while nothing has arrived and the stream is not finished, returns the first of all that has arrived and leaves the rest, and fails only on a finished stream with nothing left |
| `NonogramRegular.FillStateBits` | or-tools/examples/contrib/nonogram_regular.py:163-172 | The in-place loop with the running index c writes a 0 before each block of ones, and one 0 for a clue without numbers |
| `NonogramRegular.MakeTransitionMatrix` | or-tools/examples/contrib/nonogram_regular.py:144-197 | The in-place table has for each state the two next states of the automaton of the clue |
| `NonogramRegular.Regular` | or-tools/examples/contrib/nonogram_regular.py:93-137 | The posted constraints: last state accepted, first state q0, and per cell its range and one table look-up |
| `NonogramRegular.RegularInFull` | or-tools/examples/contrib/nonogram_regular.py:93-137 | For any table, any number of symbols, any start and any accepting states: the posted constraints hold exactly when the states start in q0, make the move of the table on every symbol, state 0 staying at 0, and end in an accepting state |
| `NonogramRegular.CheckRule` | or-tools/examples/contrib/nonogram_regular.py:206-224 | Zeros are dropped from the clue wherever they stand and the automaton of the rest is posted on the line |
| `NonogramRegular.TableIsNext` | or-tools/examples/contrib/nonogram_regular.py:105-116 | The flattened table with its failing row holds the next state of every state and cell, and has no entry for the state past the last |
| `NonogramRegular.LineMeans` | or-tools/examples/contrib/nonogram_regular.py:126-137 | The state variables of a satisfied line are the run of the automaton over its cells |
| `NonogramRegular.RunIffAccepts` | or-tools/examples/contrib/nonogram_regular.py:118-137 | A word has an accepting state trace exactly when the automaton accepts it |
| `NonogramAutomaton.StateAccepts` | or-tools/examples/contrib/nonogram_regular.py:161-188 | Every state after the failing one accepts exactly the words that complete the remaining blocks from there |
| `NonogramAutomaton.AcceptsRunLengths` | or-tools/examples/contrib/nonogram_regular.py:144-197 | The compiled automaton of a clue accepts a line of any length exactly when its run lengths are the clue, for the empty clue too |
| `NonogramLayout.RunLengthsAreLayout` | or-tools/examples/contrib/nonogram_regular.py:140-143 | A line has given run lengths exactly when it is blanks, first block, at least one blank, second block, and so on |
| `NonogramBoard.CheckRuleAccepts` | or-tools/examples/contrib/nonogram_regular.py:206-224 | For every clue, zeros anywhere, and every line length: the cells extend to an assignment of the posted rule exactly when they are symbols 1 and 2 whose run lengths are the non-zero clue numbers in order |
| `NonogramLayout.CheckRuleAcceptsLayouts` | or-tools/examples/contrib/nonogram_regular.py:206-224 | The same for the clue as the puzzle describes it: blocks in order with blanks between |
| `NonogramLayout.DrawsExactly` | or-tools/examples/contrib/nonogram_regular.py:206-224 | A line has the run lengths of its clue exactly when symbol 2 marks blocks at increasing places, a blank between any two, whose lengths are the positive numbers of the clue in order |
| `NonogramLayout.CheckRuleDraws` | or-tools/examples/contrib/nonogram_regular.py:206-224 | The posted rule accepts exactly these lines, said on the clue as given and the symbols, without the compiled clue |
| `NonogramBoard.PostBoard` | or-tools/examples/contrib/nonogram_regular.py:261-267 | All row rules and then all column rules are posted, each with state variables of its own |
| `NonogramBoard.BoardIsSolvable` | or-tools/examples/contrib/nonogram_regular.py:227-267 | A grid extends to an assignment of all posted constraints exactly when each row i of it has the run lengths of row clue i and each column j those of column clue j |
| `NonogramLayout.BoardDraws` | or-tools/examples/contrib/nonogram_regular.py:227-267 | The same with the blocks of each clue: every row and column draws its own clue |
| `NonogramBoard.ClueTotalsAgree` | or-tools/examples/contrib/nonogram_regular.py:261-267 | A board that can be solved has row clues and column clues with the same total |
| `NonogramTable.RegularByTuples` | or-tools/examples/contrib/nonogram_table.py:93-131 | The allowed-tuples form: a tuple per state and input, failing state included, and a tuple constraint per cell |
| `NonogramTable.RegularByTuplesInFull` | or-tools/examples/contrib/nonogram_table.py:93-131 | For any table the allowed-tuples form means the same as the element form |
| `NonogramTable.CheckRuleByTuples` | or-tools/examples/contrib/nonogram_table.py:202-220 | The allowed-tuples rule of a clue is posted on the line |
| `NonogramTable.TupleRuleIsRule` | or-tools/examples/contrib/nonogram_table.py:105-131 | The allowed-tuples form and the element form of a rule have the same solutions, state variables included |
| `NonogramTable.MakeTransitionTuples` | or-tools/examples/contrib/nonogram_table2.py:77-109 | The list holds a tuple for exactly the moves of the automaton that do not fail |
| `NonogramTable.CheckRuleByTransitions` | or-tools/examples/contrib/nonogram_default_search.py:89-99 | One transition constraint on the line is posted, with initial state 1, the last state accepting and a tuple for exactly the moves of the automaton; assignments satisfy it exactly when the line consists of 0 and 1 with the clue as run lengths |
| `NonogramRegular.CleanRule` | or-tools/examples/contrib/nonogram_regular.py:212-216 | The loop keeps exactly the positive numbers of the clue, in order: they stand at an increasing list of indices that holds every index of a positive number |
| `NonogramRegular.KeptIsClue` | or-tools/examples/contrib/nonogram_regular.py:212-216 | Whatever list holds the positive numbers of a clue in order is the clue that the rules compile |
| `NonogramTable.TransitionAccepts` | or-tools/examples/contrib/nonogram_table2.py:115-125 | The transition constraint accepts exactly the lines of 0 and 1 whose run lengths are the clue: the same language as the other two forms |
| `Circuit.PostCircuit` | or-tools/examples/contrib/circuit.py:57-82 | The posting loops produce the decomposition, the empty loops for n = 1 and n = 2 included |
| `Circuit.CircuitMeans` | or-tools/examples/contrib/Circuit.java:32-52 | An assignment with x in range satisfies the posted constraints exactly when z is the orbit of 0 under a permutation x |
| `Circuit.CircuitInFull` | or-tools/examples/contrib/circuit.py:57-82 | Spelled out: x and z have no repetitions, z starts with x[0], every entry of z is the successor of the one before, the last one included, and 0 stands at the end of z and nowhere else |
| `Circuit.CircuitIsCycle` | or-tools/examples/contrib/circuit.py:57-82 | x has an orbit exactly when it is a permutation in which every node leads to every node |
| `Circuit.PostedCircuitIsCycle` | or-tools/examples/contrib/circuit.py:57-82 | x extends to an assignment of the posted constraints exactly when it is a single cycle through all nodes |
| `Circuit.OrbitIsUnique` | or-tools/examples/contrib/circuit.py:64-72 | z is determined by x |
| `Circuit.LastStepIsForced` | or-tools/examples/contrib/circuit.py:66-72 | The step to the last index, which is not posted, holds in every solution |
| `Circuit.NonZeroIsRedundant` | or-tools/examples/contrib/circuit.py:74-79 | The constraints z[i] != 0 follow from the others |
| `Digits.PostToNum` | or-tools/examples/contrib/DeBruijn.java:29-37 | The weighted terms are collected and their sum equated with the number |
| `Digits.ToNumMeans` | or-tools/examples/contrib/DeBruijn.java:29-37 | The constraint holds exactly when the number is the value of the digits in the base |
| `Digits.ValueIsInjective` | or-tools/examples/contrib/DeBruijn.java:29-37 | Different words of the same length have different numbers |
| `DeBruijn.PostSequence` | or-tools/examples/contrib/DeBruijn.java:43-125 | All declarations and constraints in order, with the equal-count flag and the symmetry break as options |
| `DeBruijn.RowsAreWindows` | or-tools/examples/contrib/DeBruijn.java:97-111 | The overlap, corner and first-digit constraints say exactly that binary[i][j] is bin_code[(i + j) mod m] |
| `DeBruijn.SequenceMeans` | or-tools/examples/contrib/debruijn.cs:82-127 | An assignment satisfies the model without its symmetry break exactly when the code has pairwise different cyclic windows and everything else is computed from it |
| `DeBruijn.SolutionFor` | or-tools/examples/contrib/DeBruijn.java:83-122 | Every code with different windows extends to a solution, provided its digits occur equally often where that is asked for |
| `DeBruijn.PostedMeans` | or-tools/examples/contrib/DeBruijn.java:43-125 | The same for all that is posted: the symmetry break adds exactly that the first number is smallest |
| `DeBruijn.SequenceInFull` | or-tools/examples/contrib/DeBruijn.java:43-125 | Spelled out on the variables: digits in range, binary[i][j] is code[(i + j) mod m], x[i] is the number of row i, all x differ, the counts are right, the counts are equal if asked for and m is a multiple of the base, and x[0] is the smallest |
| `DeBruijn.LengthIsLimited` | or-tools/examples/contrib/DeBruijn.java:52-56 | There is no code longer than base^n |
| `DeBruijn.EveryWordOnce` | or-tools/examples/contrib/DeBruijn.java:83-111 | For m = base^n every word of length n is the window of exactly one place |
| `DeBruijn.EveryDigitEquallyOften` | or-tools/examples/contrib/DeBruijn.java:113-122 | For m = base^n every digit occurs exactly base^(n-1) times, so the equal-count constraint is redundant |
| `DeBruijn.RotationIsCode` | or-tools/examples/contrib/DeBruijn.java:94-106 | Every rotation of a code is a code |
| `DeBruijn.MinFirstMeans` | or-tools/examples/contrib/DeBruijn.java:123-125 | The symmetry break keeps the solutions whose first number is smallest |
| `DeBruijn.OneRotationPasses` | or-tools/examples/contrib/DeBruijn.java:123-125 | Exactly one rotation of each code passes the symmetry break |
| `JoinedCycles.CyclesAreJoined` | or-tools/examples/contrib/DeBruijn.java:94-106 | Exchanging the successors of two words on different cycles joins the cycles |
| `DeBruijnTrails.CrossedAreTrails` | or-tools/examples/contrib/DeBruijn.java:94-106 | Exchanging the last digits of two different words with the same inner digits, and their successors, keeps closed trails of different words |
| `DeBruijnTrails.JoinAll` | or-tools/examples/contrib/DeBruijn.java:94-106 | Trails that together have every head are crossed, keeping the heads, until one trail covers all words |
| `DeBruijnTrails.TourExists` | or-tools/examples/contrib/DeBruijn.java:83-106 | For every base > 1, every n and every m from 1 to base^n, m different words of length n can be arranged in a circle, each starting with the last n - 1 digits of the one before; if the base divides m, all digits lead equally many of them |
| `DeBruijnSequences.TourGivesCode` | or-tools/examples/contrib/DeBruijn.java:83-111 | The leading digits along such a circle are a code whose windows are its words |
| `DeBruijnSequences.CodeExists` | or-tools/examples/contrib/DeBruijn.java:39-42 | For every base and n there is a code of every length from 1 to base^n, with equal digit counts whenever the base divides the length |
| `DeBruijnSequences.DeBruijnSequenceExists` | or-tools/examples/contrib/DeBruijn.java:39-42 | For every base and n there is a cyclic code of length base^n without a repeated window |
| `DeBruijnSequences.FullLengthFeasible` | or-tools/examples/contrib/DeBruijn.java:43-125 | For m = base^n the posted model has a solution for every base and n, with the symmetry break and with or without equal counts |
| `DeBruijnSequences.ModelFeasible` | or-tools/examples/contrib/DeBruijn.java:43-125 | The posted model with its symmetry break has a solution exactly when m <= base^n, with equal counts asked for or not: the guard m % base == 0 is all that equal counts need |
| `MagicSequence.PostRound` | or-tools/examples/contrib/magic_sequence_sat.py:28-35 | One round of the outer loop posts the literals of a number, both enforced implications each, and their sum |
| `MagicSequence.PostMagic` | or-tools/examples/contrib/magic_sequence_sat.py:26-38 | All rounds and the redundant sum are posted |
| `MagicSequence.MagicMeans` | or-tools/examples/contrib/magic_sequence_sat.py:26-38 | The posted constraints hold exactly when entry k counts the occurrences of k and the literals are right; the sum adds nothing |
| `MagicSequence.MagicInFull` | or-tools/examples/contrib/magic_sequence_sat.py:26-38 | Spelled out on the variables: entry k is the number of times k occurs, and literal (k, i) is 1 exactly when entry i is k |
| `MagicSequence.SumIsRedundant` | or-tools/examples/contrib/magic_sequence_sat.py:37-38 | For every n the entries of a magic sequence add up to n |
| `MagicSequence.MagicSequencesAre` | or-tools/examples/contrib/magic_sequence_sat.py:26-41 | All magic sequences of all lengths: none for 1, 2, 3 and 6, two for 4, one for 5, and one for every n >= 7 |
| `MagicSequence.StandardIsMagic` | or-tools/examples/contrib/magic_sequence_sat.py:41 | n - 4, 2, 1, a single 1 at index n - 4 and zeros elsewhere is a solution for every n >= 7 |
| `MagicSequence.MagicModelSolutions` | or-tools/examples/contrib/magic_sequence_sat.py:26-41 | The posted model has exactly this solution for n >= 7, and none for n = 6 |
| `Partition.PostPartition` | or-tools/examples/contrib/Partition.java:37-81 | All constraints in order |
| `Partition.PostOrder` | or-tools/examples/contrib/Partition.java:45-48 | Both halves are posted as increasing |
| `Partition.PostSums` | or-tools/examples/contrib/Partition.java:51-81 | The joined array, its signed sums and the four closed forms are posted |
| `Partition.JoinHalves` | or-tools/examples/contrib/Partition.java:51-55 | The loop that counts down fills one array with both halves |
| `Partition.FillSigns` | or-tools/examples/contrib/Partition.java:59-63 | The loop that counts down fills the coefficients 1 and -1 |
| `Partition.SquareHalves` | or-tools/examples/contrib/Partition.java:66-75 | The loop that counts down fills the three arrays of squares |
| `Partition.PartitionMeans` | or-tools/examples/contrib/Partition.java:37-81 | The posted constraints hold exactly when x and y are increasing disjoint halves of 1..2m in order, with equal sums and equal sums of squares, and the closed forms hold |
| `Partition.PartitionInFull` | or-tools/examples/contrib/Partition.java:37-81 | Spelled out: both halves increase within 1..2m and share no number, x[0] < y[0], each half adds up to 2m(2m + 1) / 4 and its squares to 2m(2m + 1)(4m + 1) / 12 |
| `Partition.ClosedFormsAreRedundant` | or-tools/examples/contrib/Partition.java:78-81 | The four closed forms follow from the other constraints, integer division included, and m is even and at least 4 |
| `Partition.PartitionExists` | or-tools/examples/contrib/Partition.java:37-81 | For every even m >= 4 there is a partition, built from shifted blocks |
| `Partition.ModelFeasible` | or-tools/examples/contrib/Partition.java:37-81 | The posted model has a solution exactly when m is even and m >= 4 |
| `BrokenWeights.PostWeights` | or-tools/examples/contrib/broken_weights.py:69-94 | All constraints in order |
| `BrokenWeights.DeclareSides` | or-tools/examples/contrib/broken_weights.py:70-73 | The dictionary x has a variable from -1 to 1 for every load and piece |
| `BrokenWeights.PostLoads` | or-tools/examples/contrib/broken_weights.py:93-94 | Load i + 1 is equated with the signed sum of the weights |
| `BrokenWeights.WeightsMean` | or-tools/examples/contrib/broken_weights.py:69-94 | The posted constraints hold exactly when the weights are increasing, add up to m and the rows weigh the loads 1..m |
| `BrokenWeights.WeightsInFull` | or-tools/examples/contrib/broken_weights.py:69-94 | Spelled out: weights from 1 to m increase and add up to m, sides are -1, 0 or 1, and for each i the products of weights and sides add up to i + 1 |
| `BrokenWeights.LoadsAreLimited` | or-tools/examples/contrib/broken_weights.py:93-94 | 2m + 1 <= 3^n, by an injection of the loads -m..m into the positions of the pieces |
| `BrokenWeights.WeightsExist` | or-tools/examples/contrib/broken_weights.py:81-94 | There are n pieces for every total from 1 + ... + n to (3^n - 1) / 2 |
| `BrokenWeights.PowersOfThree` | or-tools/examples/contrib/broken_weights.py:81-94 | The powers of three add up to (3^n - 1) / 2 and weigh every load up to that |
| `BrokenWeights.PowersSolveModel` | or-tools/examples/contrib/broken_weights.py:69-94 | At the limit the powers of three solve the posted model |
| `BrokenWeights.ModelFeasible` | or-tools/examples/contrib/broken_weights.py:69-94 | The posted model has a solution exactly when 1 + ... + n <= m and 2m + 1 <= 3^n |
| `Langford.PostLangford` | or-tools/examples/contrib/langford.py:65-79 | All constraints in order, the symmetry break last |
| `Langford.UnbrokenMeans` | or-tools/examples/contrib/langford.py:65-76 | Without the symmetry break: distinct positions, the second occurrence i + 1 places after the first, and solution agrees with position |
| `Langford.LangfordInFull` | or-tools/examples/contrib/langford.py:65-79 | Spelled out: all places differ, the second place of j is j + 1 after the first, the sequence has j at both, and its first entry is smaller than its last |
| `Langford.UnbrokenIsLangford` | or-tools/examples/contrib/langford.py:71-76 | A list of numbers extends to positions exactly when each i from 1 to k occurs exactly twice, with i numbers between |
| `Langford.PositionsAreUnique` | or-tools/examples/contrib/langford.py:73-76 | The positions are determined by the sequence |
| `Langford.ReversalKeepsSolutions` | or-tools/examples/contrib/langford.py:71-76 | Reversing a solution, with the two occurrences of each number exchanged, gives a solution |
| `Langford.MirrorTwice` | or-tools/examples/contrib/langford.py:78-79 | Reversing twice gives the solution back |
| `Langford.ExactlyOnePasses` | or-tools/examples/contrib/langford.py:78-79 | Of a solution and its reversal exactly one passes the symmetry break |
| `Langford.Feasible` | or-tools/examples/contrib/langford.py:71-76 | A solution exists only if k is 0 or 3 modulo 4, by the sum of all positions |
| `Langford.SolutionExists` | or-tools/examples/contrib/langford.py:71-76 | For every such k there is a solution, given in closed form |
| `Langford.ModelFeasible` | or-tools/examples/contrib/langford.py:65-79 | The posted model has a solution exactly when k is 0 or 3 modulo 4 |
| `GolombRuler.PostRuler` | or-tools/examples/contrib/GolombRuler.java:43-65 | All constraints in order, the symmetry break only for m > 2 |
| `GolombRuler.PostDistances` | or-tools/examples/contrib/GolombRuler.java:51-58 | The nested loop with the running k fills the whole array with the distances and posts a bound for each |
| `GolombRuler.PairAtIndex` | or-tools/examples/contrib/GolombRuler.java:53-54 | The running k gives each pair i < j a place of its own |
| `GolombRuler.IndexOfPair` | or-tools/examples/contrib/GolombRuler.java:53-54 | Every place of the array belongs to a pair |
| `GolombRuler.BoundIsImplied` | or-tools/examples/contrib/GolombRuler.java:56 | The bound (j - i)(j - i + 1) / 2 on each distance follows from increasing ticks and distinct distances |
| `GolombRuler.RulerMeans` | or-tools/examples/contrib/GolombRuler.java:43-65 | The posted constraints hold exactly when the ticks increase from 0 within the limit, all distances differ and the symmetry break holds |
| `GolombRuler.RulerInFull` | or-tools/examples/contrib/GolombRuler.java:43-65 | Spelled out: the first tick is 0, the ticks increase, none is beyond 2^(m + 1) - 1 for m < 31 or 9999 from there on, all distances differ, and for m > 2 the first distance is smaller than the last |
| `GolombRuler.LargestTick` | or-tools/examples/contrib/GolombRuler.java:43 | For 1 < m < 31 the largest last tick of a solution is 2^(m + 1) - 1: it is reached and never passed |
| `GolombRuler.LargestFixedTick` | or-tools/examples/contrib/GolombRuler.java:43 | From 31 ticks on no last tick is beyond 9999, and 31 ticks reach it |
| `GolombRuler.MirrorIsRuler` | or-tools/examples/contrib/GolombRuler.java:62-65 | The mirror of a ruler is a ruler of the same length, and mirroring twice gives the ruler back |
| `GolombRuler.ExactlyOnePasses` | or-tools/examples/contrib/GolombRuler.java:62-65 | For m > 2 exactly one of a ruler and its mirror passes the symmetry break |
| `GolombRuler.PowerRulerIsRuler` | or-tools/examples/contrib/GolombRuler.java:43 | For 0 < m < 31 the ticks 2^i - 1 fit the domain and satisfy everything |
| `GolombRuler.PrimeRulerIsRuler` | or-tools/examples/contrib/GolombRuler.java:43 | For m from 31 to 71 the ticks 142 i + (i^2 mod 71) fit the domain 0..9999 and are a ruler |
| `GolombRuler.UpTo71Feasible` | or-tools/examples/contrib/GolombRuler.java:43-65 | The posted model has a solution for every m from 1 to 71 |
| `GolombRuler.TooManyDistances` | or-tools/examples/contrib/GolombRuler.java:43-60 | A solution has no more distances than the largest tick allows, so there is none from m = 142 on |
| `DivisiblePrefix.PostMyMod` | or-tools/examples/contrib/divisible_by_9_through_1.cs:35-66 | An assignment satisfies what the propagator posts exactly when r is a remainder of x by y with quotient d: 0 <= r < |y|, x * r >= 0, x = y * d + r and -l < d <= l for the largest absolute bound l of x |
| `DivisiblePrefix.MyModMeans` | or-tools/examples/contrib/divisible_by_9_through_1.cs:35-66 | The eight constraints in terms of values: 0 <= r < |y|, x * r >= 0, x = y * d + r and d within its bounds |
| `DivisiblePrefix.MyModInFull` | or-tools/examples/contrib/divisible_by_9_through_1.cs:35-66 | Spelled out: r >= 0, x * r >= 0, r < |y|, min(lbx, -ubx) < d <= max(ubx, -lbx) and x = y * d + r |
| `DivisiblePrefix.ModuloMeans` | or-tools/examples/contrib/divisible_by_9_through_1.cs:44-65 | For x from -l to l a quotient exists exactly when y is not 0, r is x modulo y, r is 0 if x is negative, and the input is not lost: l = 0, x = l with y = -1, or x = -l with y = 1 |
| `DivisiblePrefix.ModuloIsExact` | or-tools/examples/contrib/divisible_by_9_through_1.cs:44-65 | The propagator accepts x modulo y and nothing else exactly when x is nonnegative or a multiple of y, and the input is not lost |
| `DivisiblePrefix.PostedModuloMeans` | or-tools/examples/contrib/divisible_by_9_through_1.cs:35-66 | The same condition for the posted constraints: some value of the quotient variable satisfies them exactly then |
| `DivisiblePrefix.StrictBoundIsTooStrict` | or-tools/examples/contrib/divisible_by_9_through_1.cs:58-59 | The posted constraints reject 5 modulo -1 = 0 for an x from 0 to 5, whatever the quotient, against the comment above the strict bound |
| `DivisiblePrefix.FixedZeroIsRejected` | or-tools/examples/contrib/divisible_by_9_through_1.cs:37-62 | For an x fixed at 0 no y, r and quotient satisfy the posted constraints, although 0 modulo y is 0 |
| `DivisiblePrefix.PostPrefixes` | or-tools/examples/contrib/divisible_by_9_through_1.cs:97-131 | The digits, the prefixes and the modulo constraints are posted |
| `DivisiblePrefix.ModelMeans` | or-tools/examples/contrib/divisible_by_9_through_1.cs:97-131 | The posted constraints hold exactly when the digits are distinct, every prefix is divisible by its length, t holds the prefixes and d the quotients |
| `DivisiblePrefix.PrefixesInFull` | or-tools/examples/contrib/divisible_by_9_through_1.cs:97-131 | Spelled out: distinct digits from 1 to base - 1, t[i] is the number of the first base - 1 - i digits, and is that many times d[i] |
| `DivisiblePrefix.PrefixesShrink` | or-tools/examples/contrib/divisible_by_9_through_1.cs:121-129 | t[i + 1] is t[i] divided by the base |
| `DivisiblePrefix.OddBaseHasNone` | or-tools/examples/contrib/divisible_by_9_through_1.cs:117-131 | No odd base from 3 on has a solution, by the digit sum modulo base - 1 |
| `DivisiblePrefix.WholeNumberIsRedundant` | or-tools/examples/contrib/divisible_by_9_through_1.cs:121-130 | In every even base the constraint on the whole number holds for any distinct digits |
| `DivisiblePrefix.DigitIsDivisible` | or-tools/examples/contrib/divisible_by_9_through_1.cs:121-130 | A common divisor of the base and of a prefix length divides the digit that ends the prefix |
| `DivisiblePrefix.MiddleDigit` | or-tools/examples/contrib/divisible_by_9_through_1.cs:121-130 | In an even base the middle digit is half the base |
| `DivisiblePrefix.ModelFeasible` | or-tools/examples/contrib/divisible_by_9_through_1.cs:97-131 | The posted model has a solution exactly when some digits have divisible prefixes, and never in an odd base from 3 on |
| `Cumulative.PostCumulative` | or-tools/examples/contrib/furniture_moving.py:62-79 | A window sum for each time from the earliest to the latest bound, and the bound on a variable limit |
| `Cumulative.FindTasks` | or-tools/examples/contrib/furniture_moving.py:65 | The tasks with positive demand and duration, in order |
| `Cumulative.CollectTerms` | or-tools/examples/contrib/furniture_moving.py:69-73 | One product of two indicators and the demand per task |
| `Cumulative.CumulativeMeans` | or-tools/examples/contrib/furniture_moving.py:62-74 | For starts within their bounds the posted window sums hold exactly when the load stays within the limit at every integer time |
| `Cumulative.StartTimesSuffice` | or-tools/examples/contrib/furniture_moving.py:68-74 | The limit holds at every time exactly when it holds at the start of each active task |
| `Cumulative.LoadIsUsage` | or-tools/examples/contrib/furniture_moving.py:64-65 | Leaving out inactive tasks changes no load when no demand is negative |
| `Cumulative.LoadsAddUpToEnergy` | or-tools/examples/contrib/furniture_moving.py:68-74 | Over a span that covers all tasks the loads add up to the sum of duration times demand |
| `Cumulative.EnergyIsBounded` | or-tools/examples/contrib/furniture_moving.py:68-74 | That sum is at most the limit times the length of any span that covers all tasks |
| `Cumulative.VariableLimitMeans` | or-tools/examples/contrib/furniture_moving.py:76-79 | With a variable limit the posted constraints also bound it by the sum of all demands |
| `Cumulative.PostedMeans` | or-tools/examples/contrib/furniture_moving.py:62-79 | For any limit, fixed or variable, the posted constraints hold exactly when the load stays within it at every time and a variable limit is at most the sum of all demands |
| `Cumulative.CumulativeInFull` | or-tools/examples/contrib/furniture_moving.py:62-79 | Spelled out: at every time the demands of the tasks with positive demand and duration that run then add up to at most the limit, and a variable limit is at most the sum of all demands |
| `Cumulative.TimesInFull` | or-tools/examples/contrib/furniture_moving.py:65-67 | The posted times run from the earliest start of an active task to the latest start of one plus the longest duration of any task |
| `Cumulative.ActiveInFull` | or-tools/examples/contrib/furniture_moving.py:65 | The filtered tasks are exactly those with positive demand and duration, in order |
| `Cumulative.SomeLimitPostsMeans` | or-tools/examples/contrib/furniture_moving.py:76-79 | Given starts extend to some value of the limit variable that satisfies the posted constraints exactly when their load never exceeds the sum of all demands |
| `Cumulative.BoundLosesNothing` | or-tools/examples/contrib/furniture_moving.py:62-79 | Every choice of starts within its bounds extends to a limit that satisfies the posted constraints if and only if at every time t the active tasks with lo <= t < hi + duration demand at most the sum of all demands |
| `Cumulative.PeakIsReached` | or-tools/examples/contrib/furniture_moving.py:62-74 | Putting each start as near to t as its bounds allow makes all these tasks run at t |
| `Cumulative.LeftOutDecides` | or-tools/examples/contrib/furniture_moving.py:65-79 | Nothing is lost, whatever the bounds of the starts, if and only if the demands of the tasks that were filtered out sum to at least 0 |
| `Cumulative.SumOfDemandsSuffices` | or-tools/examples/contrib/furniture_moving.py:76-79 | If they do, the sum of all demands is a limit for any starts at all |
| `Cumulative.NegativeDemandLosesAll` | or-tools/examples/contrib/furniture_moving.py:76-79 | An instance with a negative demand in which no value of the limit satisfies the posted constraints, although the tasks need only 2 units |

## Left out

- The CP, CP-SAT and MIP engines, search phases, objectives, solution collectors, statistics and printing.
- In the shim: Lean object allocation, byte copying, protobuf parsing, thread creation failures, the legacy environment that stop also signals,
  and the blocking calls `cpsat_solve` and `cpsat_solve_interruptible`.
- Two streams at once on one token: a stop reaches only the stream that registered last. `StopReachesExactly` says which one is reached and
  `DropStopsTheWrongSolve` gives a run. So with several streams a drop ends only if the solve it waits for returns, which the stop need not bring about;
  that a drop stops its own solve is claimed for one stream at a time.
- Several simultaneous consumers of one handle: the worker notifies one thread only.
- StreamLiveness.DropEnds: assumes fair scheduling and a mutex that starves nobody; without them the model only says that a drop can always be completed.
- StreamObjects.StreamState.Next: the turns of the other threads while the mutex is released are a parameter; how wake-ups and turns interleave is in the transition system.
- The body of `strongconnect` is divided between four methods, one for the call, one for its start, one for a step of its loop and one for its end; they update the same fields in the same order.
- Component names such as SCC1 are the numbers themselves; labels, Markdown, Mermaid and DOT text and the `bazel cquery` calls are left out.
- The order in which a Python set yields the neighbours in the breadth-first search: any order is allowed.
- Machine integers: the Java and C# arithmetic is on mathematical integers. For m = 30 the shift in `GolombRuler.java` (line 43) overflows
  and the subtraction brings it back to the modelled value.
- GolombRuler.UpTo71Feasible: the model decides feasibility for m up to 71 and from 142 on; in between lie lengths for which the existence of short enough rulers is a matter of number theory and search.
- Shortest rulers, smallest largest weights and fewest resources: the objectives are left to the solver.
- `debruijn_binary.py`, whose window loops stop one short, and `hidato_table.cs`, whose adjacency loop skips the first pair.
- Fixed puzzles, blending and covering examples, file readers, `check_python_deps.py`, `export_to_ipynb.py` and `cpsat_field_numbers_check.cpp`: finite data or input and output only.
