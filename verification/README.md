# Verified model of DaCe's redundant-copy clean-up, range algebra, loop kernels, substitution and configuration

This project models five parts of the repository and proves what they are for. Each part lives in modules of its
own; code that edits objects in place is modelled by classes and methods, code made of expressions by functions
and lemmas.

**The clean-up pass over dataflow states** (`Graph`, `Rewrites`, `Values`, `Dataflow`, `Opaque`, `Scheduling`,
`State`, `Hazards`, `Cleaner`, `AccessRecords`, `Pass`, `ExitRecords`, `LaterReads`). A state is a graph of
access nodes, tasklets, map entries and map exits, joined by edges that carry a memlet or are empty. Five
patterns contract chains around transient containers; afterwards the pass redraws read-after-write,
write-after-read and write-after-write edges between the tasklets it has recorded, and repeats until nothing
changes. Proved: each rewrite and each redrawn edge respects the topological order captured beforehand, so
states stay acyclic; every counted modification uses up at least one data-carrying edge, so the loop ends, in a
normal form or with an exception that an applicable rewrite does raise; bypassing a scalar, by any of the five
patterns, preserves what every surviving node receives exactly when the bypass is *transparent*; every access
that a contraction brings about, other than into a map exit, is recorded, so tasklets that contractions set in
conflict with each other are ordered; and every schedule of the tracked tasklets that respects the edges computes what the original order computes. An
edge added in place of another one keeps the identity of the one it replaces, which is what lets the number of
data-carrying edges serve as the measure.

**Schedules of whole states** (`Necessity`, `PlainWrites`, `PlainNecessity`, `Connectivity`, `MemletUse`,
`WholeState`, `OneMatch`, `MissedHazard`). All orders of the nodes that respect the edges compute the same, for
all behaviours, exactly when every conflict is ordered by a path. That is about tasklets whose writes may depend
on the value they overwrite (accumulation). For tasklets that overwrite without looking, orders agree exactly
when every read and write of a slot are ordered, the writers before each reader have a last one, and so have all
writers of a slot. Contractions keep the paths between the nodes that stay; so what the paths of a cleaned state
are, and with them whether its schedules agree, can be read off the state before, the matches and what they
record. For a single match the condition is a guard on the state before.

**Strided ranges** (`Ranges`, `RangeObject`, `Contiguity`, `Covers`, `Images`, `RangeText`, `Separators`). Over
integer bounds: composition is composition of coordinate maps, denotes the image of the inner range, and is
associative, squeezing is undone by composing, unsqueezing by popping, the contiguity test is exact for packed
layouts, the cover test is sound for positive steps, and printing followed by parsing gives a range back exactly
under the stated condition.

**Numeric kernels** (`Grid`, `Thomas`, `Jacobi`, `Interchange`), over the reals: the tridiagonal solver returns
the one solution of the original system, one- and two-level tiling of the Jacobi stencil fill the same square,
and two loop orders of a column recurrence leave the same array.

**Two-step substitution** (`Substitution`) through reserved names equals simultaneous substitution, whatever the
order in which single replacements are made.

**The configuration** (`Configuration`): what is saved is the difference from the defaults; filling the defaults
back in restores a configuration exactly when it is restorable.

Where the code does less than its documentation says, the code is modelled, an input that shows it is given, and
the exact condition is proved:

- The patterns do not preserve meaning for every graph they accept. Memlets must name the array side (for
  pattern 3, which makes them name it, the memlet out of the copy must name the copy), an assign tasklet must be
  wired through the connectors that its assignment mentions, and pattern 1, which tests no out-degree, needs a
  scalar and a tasklet without other uses (`Dataflow.PreservesMeaningIffTransparent`; one graph for each
  failure: `OpaqueBypasses.ScalarSideAtEntry`, `ScalarSideAtWrite`, `TargetSideAtCopy`, `MiswiredAssign`,
  `OtherUseOfScalar`).
- Reconstruction orders the recorded tasklets of the matches only. What else those tasklets access, and what
  tasklets outside every match access, is not recorded, so a hazard can stay open: a reader of the copy that
  also writes the array (pattern 3, `MissedHazard.HazardIsMissed`), or a reader outside the match of the element
  that the producer comes to write (pattern 4, `MissedHazard.OutsideReaderIsMissed`). Exact conditions:
  `OneMatch.OneMatchIff` for one match (patterns 1 and 5 open none, 2 and 3 want every writer of the slot joined
  by a path with the copy's readers, 4 every other tasklet on the slot with the producer, which is more than
  tasklets that overwrite without looking need), and `WholeState.ReconstructionSufficesIff` for whole runs.
- Pattern 1 records the slot of the map exit's first outgoing edge, even if the chain feeds another output
  (`ExitRecords.WrongOutputRecorded`; exact condition: `ExitRecords.RecordsReachedIff`).
- A scalar may be replaced although a later state reads it after the array has been overwritten; that state then
  reads another value (`LaterReads.LaterReadChanges`; exact condition: `LaterReads.LaterReadKeptIff`).
- The tokenizer counts parentheses afresh after every colon. It cuts `(a:b,c)` at a comma inside parentheses
  (`Separators.CommaInParenthesesCut`); splitting respects the parentheses of the whole text exactly when its
  colons are harmless (`Separators.RespectsParenthesesIff`), for instance when all stand outside parentheses.
- `covers_precise` says that it answers True when all elements are contained. It compares remainders by two
  different steps, so it misses some covered ranges (`Covers.MissedCover`; exact condition:
  `Covers.DetectsIff`); for negative steps it can say True wrongly (`Covers.WrongYesForNegativeSteps`; exact
  condition: `Covers.YesIsRightIff`); for different ranks it returns an exception object.
- `pop` of the positions that `unsqueeze` reports does not restore a range after an axis past the end, after a
  negative axis, or if the range has no dimension (`RangeObjects.NotRestored`; exact condition:
  `RangeObjects.PopUndoesUnsqueezeIff`).
- Squeezing a range whose step is not one and composing back squares the step (`Ranges.SqueezeLosesSteps`; exact
  condition: `Ranges.SqueezeRoundTripIff`).
- A single point whose step is not one prints like a range, and the empty range prints as empty text; neither
  can be read back (`RangeText.PointWithStepIsMisread`, `RangeText.EmptyRangeIsNotRead`; exact condition:
  `RangeText.PrintParseIff`).
- The two tilings leave different arrays for an 8 by 8 input of ones and tiles of 3 and 2
  (`Jacobi.RunUnevenTiles`). They agree on all inputs exactly when the inner tile divides the outer one, or
  there is nothing to tile (`Jacobi.TilingsAgreeIff`).
- A configuration entry without an applicable default is not saved (`Configuration.FieldWithoutDefaultFails`,
  `Configuration.ListWithoutDefaultIsEmptied`; exact condition: `Configuration.FillUndoesPruneIff`).
- An input that already contains a reserved name is replaced although it is no key
  (`Substitution.ReservedNameReplaced`; exact condition: `Substitution.TwoStepIsSimultaneousIff`). That is for
  mappings in which no fresh name in use is a key or occurs in a value; others can fail on clean inputs
  (`Substitution.MixedMappingFails`).

Preconditions of the kernels (non-empty or regular systems, squares that end inside the array, distinct arrays
for `__restrict__` pointers) are what the C++ needs to have defined behaviour.

## Model

| member | source | states |
|---|---|---|
| StateGraph.DataKeysCountEdges | sample_vectorization.py:75-262 | The termination measure is the number of data-carrying edges: no two of them share an identity |
| Rewrites.MatchMovesOneElement | sample_vectorization.py:75-262 | Every edge of a match is in the state and moves one element; what it bypasses is a transient container with a single edge into it, and a scalar unless pattern 3 copies it from another container |
| Rewrites.MatchJoins | sample_vectorization.py:75-262 | What the ends of a match are, and that a tasklet inside copies its one input to a declared output |
| Rewrites.OneElementIff | dace/subsets.py:390-391 | A box with no empty dimension holds one element exactly when every dimension is a single index |
| Rewrites.LastEdgeReturns | sample_vectorization.py:75-262 | Every edge out of the bypassed chain returns under its identity, from the source of the chain to its own target and connector; in pattern 3 it keeps its other-side subset and names the source at its begins |
| Connectivity.NodesLeft | sample_vectorization.py:75-262 | The nodes that go are those of the chain, and the scope or container it starts from, that are left without an edge; all others stay as they are |
| Rewrites.ApplyKeepsForward | sample_vectorization.py:75-262 | After any of the five contractions every edge still goes forward in the order captured beforehand |
| Rewrites.ApplyKeepsWellFormed | sample_vectorization.py:75-262 | No contraction leaves an edge at a removed node or gives two edges one identity |
| Rewrites.ApplyShrinks | sample_vectorization.py:75-262 | A contraction loses exactly the data-carrying edges of its chain except the re-attached ones, and gains none, so their number strictly drops |
| Rewrites.RunInvariant | sample_vectorization.py:281-285 | Any sequence of contractions keeps all edges forward and never counts more modifications than there were data-carrying edges |
| Values.OriginDecides | sample_vectorization.py:75-262 | What an edge delivers is, under every meaning, the value of the tasklet output or load from which it originally comes |
| Values.OneArrivalIff | sample_vectorization.py:75-262 | All that arrives at a node is of one origin if and only if it is a single arrival under every meaning |
| Dataflow.BypassPreservesInputs | sample_vectorization.py:75-262 | A transparent bypass of a scalar, by any of the five patterns, leaves the set of values arriving at every surviving node unchanged, under every meaning of tasklets and memory |
| Dataflow.PreservesMeaningIffTransparent | sample_vectorization.py:75-262 | A bypass of a scalar (pattern 3 included) preserves what re-attached edges deliver and surviving nodes receive, for every meaning, if and only if it is transparent. For pattern 3: memlets out of the copy name the copy, and the memlet into it names the source and one step-one index, or the source is a scalar with a single arrival of its own |
| Dataflow.RunPreservesInputs | sample_vectorization.py:281-285 | The same for any run of bypasses |
| Dataflow.OrderingEdgesCarryNothing | sample_vectorization.py:287-328 | Empty ordering edges change no value that arrives anywhere |
| Dataflow.CleanUpPreservesInputs | sample_vectorization.py:281-328 | Transparent bypasses followed by reconstruction leave all arriving values unchanged |
| OpaqueBypasses.ScalarSideAtEntry | sample_vectorization.py:116-151 | A graph that pattern 2 accepts and changes: the memlet into the scalar names the scalar |
| OpaqueBypasses.ScalarSideAtWrite | sample_vectorization.py:192-221 | A graph that pattern 4 accepts and changes: the memlet out of the scalar names the scalar |
| OpaqueBypasses.MiswiredAssign | sample_vectorization.py:224-262 | A graph that pattern 5 accepts and changes: the assignment reads a connector that the scalar does not feed |
| OpaqueBypasses.OtherUseOfScalar | sample_vectorization.py:75-112 | A graph that pattern 1 accepts and changes: the scalar has another consumer, which loses its input |
| OpaqueBypasses.TargetSideAtCopy | sample_vectorization.py:154-189 | A graph that pattern 3 accepts and changes: the memlet out of the copy names the target, whose place is lost |
| OpaqueBypasses.OtherSideAtCopy | sample_vectorization.py:178-184 | A graph that pattern 3 keeps: A[0] copied to a scalar and on to B[3] ends as one edge from A[0] to B[3] |
| Scheduling.IndependentCommute | sample_vectorization.py:299-328 | Two tasklets without a conflict may be exchanged: same memory, same values seen |
| Scheduling.ConflictOrderDecides | sample_vectorization.py:299-328 | Two orders of the same tasklets that agree on all conflicting pairs give every tasklet the same values and end in the same memory |
| States.State.RemoveNode | sample_vectorization.py:149-149 | Removing a node removes the edges at it and nothing else, and keeps identities unique and edges forward |
| States.State.AddOrdering | sample_vectorization.py:40-44 | An empty edge is added if and only if no edge already leads from one node to the other; order and identities are kept |
| Hazards.OrderTasklet | sample_vectorization.py:306-328 | One turn of the hazard loop: exactly which edges appear (all on real conflicts), and the new readers and last writer |
| Hazards.OrderSlot | sample_vectorization.py:299-328 | For one slot: every two tasklets in conflict are joined by a path from the earlier to the later, and only forward edges between conflicting tasklets are added |
| Hazards.SortByOrder | sample_vectorization.py:299-300 | The tasklets in the captured order, none lost and none added |
| Hazards.Reconstruct | sample_vectorization.py:287-328 | For all slots: afterwards every conflict is ordered by a path among tracked tasklets, the state is acyclic and nothing but such edges was added |
| Hazards.PathFollowsSchedule | sample_vectorization.py:287-328 | In a schedule that respects every edge the end of a path comes after its start |
| Hazards.ScheduleIndependence | sample_vectorization.py:287-328 | On the recorded accesses, any schedule respecting all edges gives every tracked tasklet the values it read, and every slot the final value it had, in the original order |
| Hazards.OriginalIsSchedule | sample_vectorization.py:273-328 | The original order respects all edges, so reconstruction never rules out every schedule |
| Cleaning.SafeIffOneWriter | sample_vectorization.py:15-37 | The safety check passes a scalar exactly when no two nodes of the state write it and no other state does |
| Cleaning.RecordedIsSo | sample_vectorization.py:115-262 | Patterns 2 to 5 record a tasklet as reader or writer of a slot only if it afterwards has an edge on that slot |
| AccessRecords.NewAccessesAreRecorded | sample_vectorization.py:115-262 | Patterns 2 to 5 add to the records exactly the accesses of tasklets by data edges that are new, under the slots of their memlets |
| AccessRecords.ExitWriterIsRecorded | sample_vectorization.py:100-105 | Pattern 1 adds the producer, and nobody else, as a writer of the slot of the first edge out of the exit, and nothing when there is none; a slot that the chain reaches whenever the records are right |
| AccessRecords.ReplacementIsNoted | sample_vectorization.py:57-63 | The bypassed container and no other is noted as replaced, by the slot that the new edges name |
| AccessRecords.NewEdgesAreRecorded | sample_vectorization.py:281-285 | After any run every data edge that the state did not have is recorded at the tasklets it leaves and enters, unless it enters a map exit |
| AccessRecords.NewConflictsAreOrdered | sample_vectorization.py:273-328 | Two tasklets that come to use one slot by new edges, at least one of them writing, are joined by a path in the cleaned state, in the captured order |
| AccessRecords.ProducersAreOrdered | sample_vectorization.py:192-328 | Two producers that write one element through two scalars: whatever state cleaning leaves after both matches, a path joins them |
| AccessRecords.ProducersAreCleaned | sample_vectorization.py:192-328 | There is such a state: the one with a single edge added between the two producers |
| Cleaning.VerdictFineIff | sample_vectorization.py:57-63 | An attempt goes through exactly when the container is safe, no empty memlet is in the way at a map exit, and recording leaves all earlier replacements as they were; which exception is due otherwise |
| Cleaning.NothingRedundantLeft | sample_vectorization.py:75-262 | In a normal form, which transient containers with one incoming element can be left, and what use must have kept them |
| ExitRecords.RecordsReachedIff | sample_vectorization.py:100-105 | Pattern 1 records a slot that its chain reaches, whichever edge comes first, if and only if every outgoing edge of the exit names such a slot |
| ExitRecords.SingleOutputIsRecorded | sample_vectorization.py:100-105 | In particular for an exit with a single output |
| ExitRecords.WrongOutputRecorded | sample_vectorization.py:100-105 | An exit with two outputs for which the other output is recorded |
| Cleaning.RecordedSnoc | sample_vectorization.py:281-285 | The records after a run are those before its last rewrite plus what that rewrite records |
| Cleaning.Cleaner.Attempt | sample_vectorization.py:75-262 | A match is rewritten exactly when it applies and no exception is due; graph and records become those of the contraction, or stay untouched with the right exception |
| Cleaning.Cleaner.MatchPattern1 | sample_vectorization.py:82-98 | The edge-by-edge walk backwards finds an applicable match of pattern 1 whenever there is one at that edge |
| Cleaning.Cleaner.CleanAtScopes | sample_vectorization.py:75-151 | One scan for pattern 1 or 2: a run of contractions, one per count; with no count the pattern applies nowhere and nothing was touched |
| Cleaning.Cleaner.CleanAtAccesses | sample_vectorization.py:154-262 | The same for patterns 3, 4 and 5 |
| Cleaning.Cleaner.CleanPatterns | sample_vectorization.py:281-285 | All five scans: a run of contractions with the records it implies; with no count the state is in normal form |
| Cleaning.Cleaner.CleanState | sample_vectorization.py:273-328 | One state: contractions, then reconstruction in the order captured before them, for exactly the recorded accesses; no earlier replacement is changed |
| CleaningPass.TopologicalOrder | sample_vectorization.py:275-276 | A numbering of any acyclic state in which all edges go forward |
| CleaningPass.CleanedSchedulesAgree | sample_vectorization.py:273-328 | After cleaning a state, every schedule of the recorded tasklets computes, on the recorded accesses, what the order captured before cleaning computes |
| Necessity.DisagreementShows | sample_vectorization.py:299-328 | Two orders that disagree on a conflicting pair end differently for some behaviour of tasklets that may accumulate |
| Necessity.EarlyOrder | sample_vectorization.py:299-328 | If no path leads from u to v, some order that respects all edges puts v before u |
| Necessity.SchedulesAgreeIff | sample_vectorization.py:287-328 | For tasklets that may accumulate: all orders that respect the edges agree, for all behaviours, if and only if every conflict is ordered by a path |
| PlainWrites.SameSourcesAgree | sample_vectorization.py:299-328 | For tasklets that overwrite without looking: orders in which every reader has the same last writer in front of it, and every slot the same last writer, compute the same |
| PlainNecessity.PlainSchedulesAgreeIff | sample_vectorization.py:287-328 | For such tasklets all orders agree, for all behaviours, if and only if every read and write of a slot are ordered by a path, and the writers before each reader, and all writers of a slot, have a last one |
| PlainNecessity.OverwrittenConflictIsHarmless | sample_vectorization.py:299-328 | Three writers, two of them unordered before the third: a conflict that no such behaviour shows |
| Connectivity.PathsKeptIff | sample_vectorization.py:75-262 | A contraction adds no path between nodes that stay, and keeps all of them if and only if the scalar and the assign tasklet of pattern 1 have no other use |
| Connectivity.RunKeepsPaths | sample_vectorization.py:281-285 | The same for any run of such contractions |
| MemletUse.MemletReads | sample_vectorization.py:115-262 | The accesses of tasklets as their memlets name them |
| MemletUse.AccessesAfterAre | sample_vectorization.py:75-262 | What the tasklets of a rewritten state access, read off the original edges and the matches |
| WholeState.CleanedPathsAre | sample_vectorization.py:273-328 | The paths of a cleaned state are exactly what paths of the state before and recorded conflicts join |
| WholeState.ReconstructionSufficesIff | sample_vectorization.py:273-328 | By the state before, the matches and what they record: all orders of a cleaned state agree if and only if every unrecorded conflict is joined (tasklets that may accumulate), or the joins order the sources (tasklets that overwrite without looking) |
| WholeState.UnrecordedOrderedIff | sample_vectorization.py:273-328 | By the cleaned state, for any run and any accesses of tasklets that may accumulate: all orders agree if and only if every unrecorded conflict is ordered by a path |
| WholeState.CompleteRecordsSuffice | sample_vectorization.py:287-328 | In particular when all accesses to slots that are written are recorded |
| OneMatch.OneMatchIff | sample_vectorization.py:75-328 | If the tasklets of a state are ordered and one match is made, all schedules of the cleaned state agree if and only if a guard held before (for tasklets that may accumulate; for patterns 2 and 3 also for those that overwrite without looking): patterns 2 and 3, every writer of the slot is path-joined with each reader of the copy; pattern 4, every other tasklet on the slot with the producer; patterns 1 and 5, nothing |
| OneMatch.JoinedWithProducer | sample_vectorization.py:224-262 | Whoever is joined by a path with a bypassed assign tasklet is joined with its producer |
| MissedHazard.HazardIsMissed | sample_vectorization.py:174-176 | A state whose orders all agree, and whose cleaned form has orders that differ: pattern 3 does not record that one reader of the copy also writes |
| MissedHazard.OutsideReaderIsMissed | sample_vectorization.py:209-214 | The same for pattern 4, on a bypass whose memlets name the array side: a reader outside the match is not recorded |
| CleaningPass.RenamedHasSameShape | sample_vectorization.py:345-355 | Renaming replaced containers keeps the ends and identities of all edges and which of them carry data |
| CleaningPass.NodesRenamed | sample_vectorization.py:352-355 | Access nodes of replaced containers name the replacing one, all other nodes are unchanged |
| CleaningPass.EdgesRenamed | sample_vectorization.py:346-351 | Edges keep identity, ends and connectors; memlets of replaced containers name the replacing slot and keep their other side, all others are unchanged |
| CleaningPass.ReplacedNamesAreGone | sample_vectorization.py:345-355 | No node and no memlet names a replaced container any more, unless it replaces another one |
| CleaningPass.EndsStillNamed | sample_vectorization.py:345-355 | A memlet that named the container at one of its ends still does |
| CleaningPass.WrittenElsewhereIff | sample_vectorization.py:31-36 | The containers written elsewhere are those that an access node with an incoming edge names in another state |
| CleaningPass.Program.RenameReplaced | sample_vectorization.py:345-355 | In every state every memlet and access node is renamed by the one dictionary; the rows above say what that means |
| LaterReads.LaterReadKeptIff | sample_vectorization.py:31-36 | A later read of a replaced scalar gets the value it got before, for all behaviours and memories, if and only if nothing has written the slot since the copy |
| LaterReads.LaterReadChanges | sample_vectorization.py:345-355 | A program that passes the safety check, and whose later state reads another value under the new name |
| CleaningPass.Program.CleanOne | sample_vectorization.py:271-328 | Cleaning one state of the program: costs at least one data-carrying edge per modification and keeps the program acyclic |
| CleaningPass.Program.ApplyOnce | sample_vectorization.py:264-357 | A pass is renaming apart, cleaning state by state with one shared dictionary, and renaming what was replaced; exceptions end it at the raising state |
| CleaningPass.Program.ApplyPass | sample_vectorization.py:359-365 | The loop ends: all modifications together never exceed the initial number of data-carrying edges; at the end no pattern applies, or an applicable match raises the reported exception; the result is the sum of the counts |
| Ranges.ComposeIsComposition | dace/subsets.py:763-785 | When the data dimensions match, coordinates in the composed range are those of the outer range at the coordinates of the inner one |
| RangeImages.ComposeDenotesImage | dace/subsets.py:763-785 | The elements of the composed range are exactly the coordinates of the outer range at the elements of the inner one, for steps of either sign |
| RangeImages.ComposeKeepsSizes | dace/subsets.py:393-411 | At the non-point dimensions of the outer range, the composed range has the sizes of the inner one |
| RangeImages.TiledSize | dace/subsets.py:393-411 | The size of a dimension is its number of elements times its tile, for steps of either sign |
| RangeImages.CoordinatesWithTiles | dace/subsets.py:443-466 | Coordinates at an index tuple, with the tile indices, which are zero when they are left out; only all of them or none can be given |
| RangeImages.DataDimsCount | dace/subsets.py:486-488 | The data dimensions are those that are not a point and, once more, those that are tiled |
| Ranges.ComposeSameRank | dace/subsets.py:786-796 | When only the ranks match, composition is that of coordinates exactly for the index tuples that the inner range leaves alone at the points of the outer one |
| RangeImages.ComposeSameRankDenotes | dace/subsets.py:786-796 | When only the ranks match: an element is at the begin of every point dimension of the outer range, and elsewhere where the outer dimension puts some element of the inner one; there the sizes are those of the inner range |
| RangeImages.InnerEndDecides | dace/subsets.py:786-796 | [5, 0:9] composed with [0, 2:4] is [5, 2:4] |
| RangeImages.ComposedTiles | dace/subsets.py:763-810 | When composition fails, and which tiles its result has, also for the index zero of another rank |
| Ranges.ComposeAssociative | dace/subsets.py:763-810 | Composition is associative when data dimensions match, also where a dimension collapses to a point part-way |
| Ranges.SqueezeRoundTrip | dace/subsets.py:812-847 | Squeezing with offset and composing back restores every unit-step range, of any rank, with size-1 and empty dimensions |
| Ranges.SqueezeRoundTripIff | dace/subsets.py:812-847 | For all non-zero steps: when exactly composing back restores the range |
| Ranges.SqueezeLosesSteps | dace/subsets.py:812-847 | A family of ranges with larger steps that are not restored |
| RangeObjects.Range.Offset | dace/subsets.py:490-506 | The listed dimensions (or all), and no others, move by the begins of the operand, be it a range, a list or a number, optionally with their ends |
| RangeObjects.ShiftUndone | dace/subsets.py:490-506 | Offsetting forth and back restores every dimension |
| RangeObjects.OffsetMovesElements | dace/subsets.py:490-506 | What is an element moves by the begin of the operand, forwards or backwards, in the listed dimensions and in no other; without the end only the begin moves |
| RangeObjects.Range.Squeeze | dace/subsets.py:812-847 | The object becomes its squeezed value and the kept dimensions are reported in order |
| RangeObjects.SqueezeKeeps | dace/subsets.py:812-847 | Kept, in order and with their tiles, are the ignored dimensions as they are and those without size one, shifted to zero when asked; the element zero when there are none |
| RangeObjects.Range.Unsqueeze | dace/subsets.py:849-876 | Inserts at the sorted axes, negative ones counting from the end, and reports a position for each |
| RangeObjects.InsertedAt | dace/subsets.py:868-870 | An insertion puts the entry at the clamped position, from the end for negative axes, and moves nothing else |
| RangeObjects.Range.Pop | dace/subsets.py:878-889 | Drops the listed dimensions; dropping all leaves the index zero |
| RangeObjects.PopKeepsOthers | dace/subsets.py:878-889 | Exactly the dimensions that are not listed stay, with their tiles and in order; the element zero when all are listed |
| RangeObjects.UnsqueezeReportsPositions | dace/subsets.py:849-876 | The reported positions are strictly increasing and hold the inserted dimensions and tiles, also for repeated axes |
| RangeObjects.PopUndoesUnsqueezeIff | dace/subsets.py:849-889 | Popping the reported positions restores ranges and tiles if and only if there is a dimension, no axis is negative and the k-th sorted axis is at most rank + k |
| RangeObjects.NotRestored | dace/subsets.py:849-889 | An axis past the end, a negative axis and a range without dimensions that are not restored |
| Contiguity.AccumulateStrides | dace/data/core.py:680-704 | The accumulated products are the packed strides |
| Contiguity.FortranExact | dace/subsets.py:976-997 | In a Fortran layout the partial-then-ones rule holds exactly when the offsets of the subset have no gap |
| Contiguity.CExact | dace/subsets.py:976-997 | The same for a C layout, dimensions reversed |
| Contiguity.FullThenOnesFills | dace/subsets.py:984-997 | If the rule holds, the offsets are exactly 0 to the number of elements minus one |
| Contiguity.FullThenOnesIff | dace/subsets.py:984-997 | The rule is: full dimensions, then one of any length, then only dimensions of length one |
| Contiguity.IsContiguousSubset | dace/subsets.py:931-997 | For a packed layout True exactly when the flat addresses form one gap-free interval, for every rank; True is right for all strides; otherwise exactly single stride-one dimensions are recognized. Subsets that leave the array are decided by steps, lengths and layout |
| Covers.CoversPrecise | dace/subsets.py:159-235 | Yes implies containment of every index tuple for positive steps; different ranks give the exception object |
| Covers.CoversIndex | dace/subsets.py:159-200 | The test on an index tuple is exact for positive steps |
| Covers.IndexCovers | dace/subsets.py:159-187 | An index tuple covers by bounding box alone; a Yes is right for positive steps |
| Covers.DetectedIsContained | dace/subsets.py:202-224 | Bounding box and matching steps imply containment, for positive steps |
| Covers.DetectsIff | dace/subsets.py:159-235 | For non-empty ranges with positive steps: the answer is Yes exactly when the range is contained and recognizable |
| Covers.MissedCover | dace/subsets.py:202-224 | A contained range that is answered No |
| Covers.WrongYesForNegativeSteps | dace/subsets.py:159-235 | A range with negative step that is answered Yes without being contained |
| Covers.YesIsRightIff | dace/subsets.py:159-235 | For steps of either sign: when exactly a Yes is right |
| RangeText.Tokenize | dace/subsets.py:604-663 | The tokens are those of the one split at every colon and at the commas before which the parentheses opened since the last separator are closed |
| RangeText.SplitUnique | dace/subsets.py:604-663 | A text has only one split into tokens that obey these separator rules |
| Separators.SeparatingCommas | dace/subsets.py:614-663 | By position in the whole text: every colon separates, and a comma separates exactly when the depth of parentheses there is the depth at the last colon |
| Separators.RespectsParenthesesIff | dace/subsets.py:614-663 | The separating commas are exactly those outside all parentheses if and only if no comma behind a colon at depth d, not 0, stands at depth 0 or d |
| Separators.ColonsOutsideAreHarmless | dace/subsets.py:614-663 | In particular if every colon stands outside parentheses |
| Separators.CommaInParenthesesCut | dace/subsets.py:629-634 | The text (a:b,c) is cut at a comma inside parentheses |
| RangeText.FromString | dace/subsets.py:604-720 | The parsed range is that of the tokens of the one split |
| RangeText.ParseIntIff | dace/subsets.py:604-720 | A token is read as an integer exactly when it is digits with an optional sign, between blanks |
| RangeText.DimensionOfTokens | dace/subsets.py:667-718 | One to four integer tokens make a dimension: a single index, or begin, end (excluded in the direction of the step) and step |
| RangeText.DimensionByDimension | dace/subsets.py:667-720 | A text is read exactly when all its dimensions are, each as its own tokens say |
| RangeText.IntRoundTrip | dace/subsets.py:580-601 | Printed integers, also after a blank, are read back |
| RangeText.PrintedSplits | dace/subsets.py:723-738 | A printed range splits into the tokens that were printed |
| RangeText.PrintParseIff | dace/subsets.py:580-720 | Parsing the printed form gives the range back if and only if it has a dimension and each single point has step one |
| RangeText.PointWithStepIsMisread | dace/subsets.py:580-720 | The point 3 with step 2 prints as 3:2 and is read as an empty range |
| RangeText.EmptyRangeIsNotRead | dace/subsets.py:580-720 | The range without dimensions prints as empty text, which cannot be read |
| RangeText.PrintThenParse | dace/subsets.py:604-738 | The same for printing and the parsing procedure itself |
| Thomas.PivotTimesMinor | tsvc_2_5_core.cpp:807-811 | Each pivot times a leading principal minor of the original system is the next minor |
| Thomas.NextPivot | tsvc_2_5_core.cpp:807-811 | A pivot vanishes exactly when the corresponding leading principal minor does |
| Thomas.EliminatedIsRegular | tsvc_2_5_core.cpp:805-811 | Elimination can be carried to the end only if no leading principal minor vanishes |
| Thomas.DominantIsRegular | tsvc_2_5_core.cpp:802-819 | Strict diagonal dominance rules out zero pivots, for any length |
| Thomas.BackSubstitutionSolves | tsvc_2_5_core.cpp:812-815 | The result satisfies every row of the original system and is its only solution |
| Thomas.ForwardEliminate | tsvc_2_5_core.cpp:805-811 | The overwritten arrays hold the eliminated system; no division by zero for a regular one |
| Thomas.BackSubstitute | tsvc_2_5_core.cpp:812-815 | The result satisfies every eliminated row |
| Thomas.Solve | tsvc_2_5_core.cpp:802-819 | The solver leaves the one and only solution of the original system |
| Jacobi.TiledSide | tsvc_2_5_core.cpp:303-304 | The tiles cover a whole number of tiles, as few as reach the loop limit, and stop short of the last row |
| Jacobi.StencilWeights | tsvc_2_5_core.cpp:309-311 | A cell weighs one fifth in the stencils at itself and its four neighbours and nothing anywhere else |
| Jacobi.TiledJacobi | tsvc_2_5_core.cpp:300-315 | Every cell of the covered square gets the five-point stencil of the input, every other cell is untouched, all accesses are in bounds |
| Jacobi.DoubleTiledJacobi | tsvc_2_5_core.cpp:342-361 | The same for two levels of tiles, whose square may end later |
| Jacobi.SameSquareIff | tsvc_2_5_core.cpp:300-361 | Both cover the same square exactly when the inner tile divides the outer one or nothing is covered |
| Jacobi.TilingsAgreeIff | tsvc_2_5_core.cpp:300-361 | Both kernels leave equal arrays on all inputs if and only if the inner tile divides the outer one or nothing is covered |
| Jacobi.RunUnevenTiles | tsvc_2_5_core.cpp:300-361 | An 8 by 8 input with tiles of 3 and 2 on which the kernels leave different arrays |
| Jacobi.RunBoth | tsvc_2_5_core.cpp:300-361 | Both kernels leave the same array when the inner tile divides the outer one |
| Grid.FilledIsUnique | tsvc2_core.cpp:9-9 | The cells (i, j) name all entries of a flat square array, so equal cells mean equal arrays |
| Interchange.ColumnSumTakesIn | tsvc2_core.cpp:1001-1018 | A prefix sum takes in the start of its column and the additions of its column down to its row, each once, and nothing else |
| Interchange.S231 | tsvc2_core.cpp:1001-1018 | Column-outer: every cell becomes the prefix sum of its column |
| Interchange.S1119 | tsvc2_core.cpp:305-324 | Row-outer: every cell becomes the prefix sum of its column |
| Interchange.RunBoth | tsvc2_core.cpp:305-324 | Both loop orders leave the same array, for every size |
| Substitution.AnyOrderWillDo | dace/symbolic.py:2838-2843 | Single replacements that do not feed each other give the simultaneous substitution in every order |
| Substitution.ThroughFresh | dace/symbolic.py:2830-2843 | To fresh names and from there to the values is the mapping itself |
| Substitution.TwoStepIsSimultaneousIff | dace/symbolic.py:2788-2843 | For mappings in which no fresh name in use is a key or occurs in a value: two-step replacement is simultaneous substitution, whatever the orders, exactly when the expression contains none of the fresh names |
| Substitution.TwoStepIsSimultaneous | dace/symbolic.py:2788-2843 | Without reserved names in the input it always is |
| Substitution.SubstEvaluates | dace/symbolic.py:2788-2795 | Substituting symbols gives each of them the value of what replaces it, all at once, for any meaning of operations |
| Substitution.TwoStepEvaluates | dace/symbolic.py:2788-2843 | So a two-step replacement evaluates every symbol as its replacement, also where replacements mention replaced symbols |
| Substitution.ReservedNameReplaced | dace/symbolic.py:2830-2843 | With N to M, the input __dacesym_N becomes M |
| Substitution.MixedMappingFails | dace/symbolic.py:2830-2843 | With N to __dacesym_M and M to X, the clean input N can become X |
| Substitution.SwapNeedsTwoSteps | dace/symbolic.py:2791-2795 | The documented swap: one pass of single replacements undoes itself |
| Substitution.BuildDictionaries | dace/symbolic.py:2804-2833 | Degenerate entries are dropped, constants go directly, all others through a fresh name and back |
| Substitution.DirectIff | dace/symbolic.py:2811-2829 | The keys replaced directly are those of values that no substitution changes and that apply no operation |
| Substitution.SafeReplace | dace/symbolic.py:2788-2843 | The procedure substitutes simultaneously, including swaps and cycles |
| Substitution.Memlet.Replace | dace/memlet.py:460-484 | Volume and both subsets are replaced in two steps, for all inputs; without reserved names that is simultaneous substitution |
| Substitution.ReplacedIsSimultaneousIff | dace/memlet.py:460-484 | For such mappings, what replacing a part of the memlet yields is the simultaneous substitution exactly when the part contains none of the fresh names |
| Configuration.AddDefaults | dace/config.py:65-94 | Fills missing entries recursively with per-system or plain defaults, and reports a modification exactly when something changed |
| Configuration.Traverse | dace/config.py:307-321 | Collects the entries of schema fields that differ from their default, as the pruned form that the rows below pin down |
| Configuration.NothingSavedIff | dace/config.py:307-321 | When every field has a default, nothing is saved exactly when every entry equals its default, per-system defaults first |
| Configuration.DefaultsSaveNothing | dace/config.py:302-325 | Of a complete configuration nothing is saved exactly when filling an empty one yields it |
| Configuration.SavedIsLeast | dace/config.py:302-325 | What is saved is least: any entries that fill to the configuration contain every saved field with its value |
| Configuration.OnlyOtherValuesSaved | dace/config.py:319-321 | A field at its default is not saved, another value is |
| Configuration.SystemDefaultFirst | dace/config.py:87-93 | A per-system default goes before the plain one, for filling and for saving |
| Configuration.FillUndoesPruneIff | dace/config.py:65-94 | Filling the saved entries restores a configuration if and only if it is complete, has only schema keys and every field is restorable |
| Configuration.FieldWithoutDefaultFails | dace/config.py:65-94 | A field without any default is not saved, and filling it in again fails |
| Configuration.ListWithoutDefaultIsEmptied | dace/config.py:65-94 | A list without a default comes back empty |
| Configuration.SaveLoadRoundTrip | dace/config.py:302-325 | When every field has a default, every complete configuration is restored, with per-system defaults too |
| Configuration.FillIsIdempotent | dace/config.py:65-94 | Filling twice is filling once |
| Configuration.FillKeepsEntries | dace/config.py:65-94 | Filling adds schema entries only, with their defaults, and leaves all that is there, also what the schema does not know |
| Configuration.ConfigData.Load | dace/config.py:161-173 | Loading succeeds exactly when filling does, and yields the filled configuration |
| Configuration.ConfigData.Temporarily | dace/config.py:33-51 | On exit the configuration is back, whatever was changed in between, exactly when it was restorable |

## Left out

- Dataflow.BypassPreservesInputs: pattern 3 also accepts transients that are not scalars; for these it is covered by
  the acyclicity, termination, recording and re-attachment results only, since what another element of the
  transient holds is not part of the state.
- WholeState.ReconstructionSufficesIff: runs in which pattern 1 cuts off another use of its scalar lose paths
  (`Connectivity.PathsKeptIff`) and are covered by WholeState.UnrecordedOrderedIff only; copies between access nodes
  are accesses like any other, but the accesses read off memlets are those of tasklets.
- Necessity.SchedulesAgreeIff: its only-if half is about tasklets that may accumulate into what they write;
  PlainNecessity.PlainSchedulesAgreeIff is about the others.
- Substitution.TwoStepIsSimultaneousIff: mappings that use one of their own fresh names as a key or in a value are
  excluded; their result depends on the order of single replacements.
- Hazards.ScheduleIndependence: it speaks of recorded accesses only, and takes different slots as different
  memory locations, as the pass does; WholeState.ReconstructionSufficesIff is about all accesses.
- CleaningPass.CleanedSchedulesAgree: the same.
- MemletUse.MemletReads: a memlet of more than one element counts as an access to its first element.
- Dataflow.PreservesMeaningIffTransparent: "arrives" means the set of (connector, place, value) triples, so two
  edges that deliver the same value to the same place count once.
- CleaningPass.Program.ApplyPass: nested SDFGs and the textual replacement inside interstate assignments
  (sample_vectorization.py:330-343) are not modelled, and scalar privatization is any renaming of containers.
- CleaningPass.Program.ApplyOnce: the same.
- CleaningPass.TopologicalOrder: any topological order, since the depth-first sort that the pass calls is
  another file's; node and edge iteration orders are arbitrary throughout.
- Cleaning.SafeIffOneWriter: another state "writes" a container if one of its access nodes with incoming edges
  names it; the read and write sets that the pass asks for belong to another file.
- Dataflow.WiredAsWritten: tasklet code is a parsed assignment or something else; the text test for "=" is not modelled.
- Memlets in states have unit tiles, and the number of elements is that of the bounding box of their integer ranges.
- Symbolic bounds, the symbolic simplification fallbacks and approximations (dace/subsets.py:11-16, 97-129): all
  bounds, sizes and strides are integers.
- Contiguity.IsContiguousSubset: strides and shape have the rank of the subset, and tiles are one.
- Covers.CoversPrecise: zero steps are not modelled, nor is the comparison of two index subsets.
- RangeText.FromString: tokens that are not integers, among them symbolic expressions and "|" pairs, make parsing
  give up; the tile size that a fourth token gives is dropped, and only ranges with unit tiles are printed.
- The size for code generation, `size_exact`, `at`, unions, differences and `Indices` objects as receivers of
  anything but the cover test.
- Thomas.Solve: over the reals; floating-point rounding is not modelled, nor are 32-bit index widths and timing
  in any kernel, nor the other kernels and the variants with constant tiles.
- Substitution.SafeReplace: expressions are finite trees without SymPy's simplification, the test for constants is
  by form (names such as "inf" or "nan", which parse as numbers, are not special), and the string mode is left out.
- Configuration.ConfigData.Temporarily: writing and reading the file is exact, and changed values are never sections
  where the schema has fields; a failing fill leaves the configuration partly filled in the code.
- YAML, files, environment variables, thread-local storage, and everything else in the repository.
