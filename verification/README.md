# Verified models of ATACS algorithms

ATACS synthesizes and verifies timed asynchronous circuits. This project models
its most intricate algorithms in Dafny and proves what they are for:

- the branch-and-bound solver for weighted unate covering (`src/bcp.c`),
- the difference-bound matrices of a poset of timed events, and the search for
  the events that can fire next (`src/POSET.cc`, `src/bap.cc`, `src/approx.c`),
- the natural cubic spline of `src/CSpline.cpp`,
- the extraction of excitation regions (`src/bddrsg.c`).

Verify everything with `dafny verify dfyconfig.toml`.

## Files

| file | contents |
|---|---|
| `CoverTable.dfy` | tables, partial solutions, covers, weights; what a reduction has to keep |
| `RowReduction.dfy` | essential columns and dominating rows |
| `ColumnReduction.dfy` | dominated columns: one pass over a table that changes under it |
| `TableReduction.dfy` | `reduce` as a function of the table, and what it keeps |
| `Reducts.dfy` | what every reduced table has in common |
| `CoverBound.dfy` | `Cost`, `mis_quick`, `lower_bound` and why the bound is sound |
| `Compression.dfy` | the smaller table of a branch, and lifting its covers back |
| `SmallTables.dfy` | why free columns do not matter in tables of up to three columns |
| `CoverSearch.dfy` | what `BCP` returns as a function; soundness and exactness |
| `FreeColumns.dfy` | the exact condition on the costs under which `BCP` is exact |
| `CubeTables.dfy` | the tables `find_minimal_prs` builds from cubes, on which it is exact |
| `ClosedTables.dfy` | the all-'0' partial solutions of `src/heursyn.c` |
| `CoverOrder.dfy` | which of several covers is returned: branch order and the early exit |
| `BranchAndBound.dfy` | the methods: `chooseVar`, the branches, `expand_solution`, `BCP`, its call |
| `Sequences.dfy` | lists without repetition, lists with a given end |
| `Dbm.dfy` | bounds, matrices, the timings a matrix allows, one relaxation step |
| `Zones.dfy` | canonical matrices: tight entries, uniqueness, extension, projection |
| `Closure.dfy` | Floyd-Warshall and the incremental pass |
| `Survivors.dfy` | which events `remove_non_causal` keeps, and its size computation |
| `TimedRules.dfy` | the part of the timed event-rule structure the search consults |
| `Posets.dfy` | class `POSET`: adding, bounding, checking and removing events |
| `CausalChoices.dfy` | choices of causes and the events they let fire first |
| `FireFirst.dfy` | `get_fire_first_events` |
| `NeverFirst.dfy` | `can_never_fire_first`, `count_non_fire_first_events` and when they are right |
| `Expiry.dfy` | the same test on timings: which late events are counted |
| `SearchPlan.dfy` | what `combinatorial_search` returns as a function; soundness, completeness |
| `CausalSearch.dfy` | `remove_over_bounded`, `combinatorial_search` |
| `SearchVerdict.dfy` | the search as one loop over all configurations, and when it is over |
| `Runs.dfy` | runs of fired and enabled events, and the loose runs the search knows of |
| `FireableEvents.dfy` | which of these the search finds; `get_fireable_set` |
| `LostBounds.dfy` | when `add` keeps all lower bounds, and what is returned when it does not |
| `EnabledCauses.dfy` | causes that are enabled again: events that the early exit loses |
| `Clocks.dfy` | `approx_recanon_restrict` |
| `Subsumption.dfy` | the superset test of a stack frame against the current zone |
| `ZoneInclusion.dfy` | that test is exact for canonical zones |
| `WorkStacks.dfy` | `approx_clean_stack` |
| `Tridiagonal.dfy` | elimination and back substitution under diagonal dominance |
| `Spline.dfy` | the spline, its derivatives, `makeSpline` and `f` |
| `Regions.dfy` | `FindER` |

## Main results

- **Covering.** `BCP` returns what the function `CoverSearch.Search` says.
  Whatever the costs, an answer is a cover below the bound at the reported
  total; it keeps every decision of the reduct and, once there was a branch,
  decides every column (`CoverSearch.SearchDecides`).
  `FreeColumns.ExactIffPriced`: for a cost vector of any length, `BCP` is exact
  on all tables and bounds (nothing is below the bound it leaves) if and only if
  every cost is at least 1, or no cost is negative and there are at most two
  columns, or three of which at most one is free.
  `FreeColumns.BoundHoldsIffPriced` says the same of `lower_bound` on the tables
  that `reduce` leaves, where the bound of `src/bcp.c:339-342` counts rows
  instead of costs.
- **The callers of the cover search.** In the tables that `find_minimal_prs`
  (`src/storeprs.c:324-408`) builds, a column of cost 0 is a cube without
  literals, which covers every state or, if marked E, none; on these tables
  `BCP` is exact (`CubeTables.CubeTableIsExact`), so `CheapestCover` returns a
  cheapest cover whenever there is a cover. The callers of `src/heursyn.c` start
  from an all-'0' partial solution, which leaves no column to branch on:
  `ClosedTables.ClosedSearch` says exactly when they get an answer; with their
  unit costs an answer is a cheapest cover (`ClosedIsCheapest`), but
  `ClosedTriangle` is a coverable table on which they get none.
- **Zones.** One incremental pass refines full Floyd-Warshall, on the whole
  matrix and on the block of events it is called for; `is_consistent` decides
  consistency; `remove_non_causal` is exact projection, with the exact condition
  under which the size it computes is right.
- **Search.** A run gives firing times to the fired and the enabled events such
  that the bounds of the poset, all lower bounds of rules whose cause has fired
  and the upper bounds of one chosen cause for each event hold, and no enabled
  event comes before a fired one. `POSET::add` skips rules whose cause is itself
  enabled again; a loose run need not keep the lower bounds of these.
  - With the early exit of `src/bap.cc:693-698` off, the search finds exactly the
    events that begin a loose run (`FireableEvents.FullSearchIsExact`). With it
    on, `get_fireable_set` adds only such events, and all of them where the exit
    is safe: no fired cause of an enabled event is enabled again, or each event
    has one cause to explore, or no event that begins a loose run is counted as
    one that can never fire first.
  - If no skipped rule has a lower bound above 0, loose runs begin with the same
    events as runs. That is the exact condition for `add` to keep all lower
    bounds, whatever the past (`LostBounds.AddKeepsLowersIff`); where it fails,
    an event that begins no run may be returned (`LostBoundIsReturned`).
  - The exit can lose events. If all late events of the first configuration are
    counted, the search stops there and is complete if and only if none of them
    begins a loose run (`EnabledCauses.CountedFirstIsCompleteIff`). An event
    that is enabled again while all rules of some enabled event wait for it is
    counted whenever it begins a loose run, so it is never found if it is the
    only late one (`SkippedIsMissed`, with an example in `EnabledCauseIsMissed`).
  - Pruning over-bounded rules loses nothing.
  - The recursion is one loop over the configurations of all explored causes
    (`SearchVerdict.SearchIsLoop`); it reports that it is over if and only if
    one of them is consistent and leaves no event late, or as many as the count
    known there (`VerdictIff`, `KnownVerdictIff`).
  - What `count_non_fire_first_events` counts is characterised on timings
    (`Expiry.NeverFirstIff`, `CountedIff`); the consistency test it makes first
    never fails (`WithFirstIsConsistent`).
- **Stack cleaning.** For canonical zones with a clock per rule, the superset test
  holds if and only if every timing of the frame is one of the current zone
  (`ZoneInclusion.SubsumedIffInside`).
- **Spline.** Every pivot stays above the width of its interval, the solution
  is the natural spline and there is no other; solving the system is the same
  as a continuous slope.
- **Regions.** `FindER` splits its input into regions that no transition joins,
  each grown from the cube picked of the states that were left. If every such
  cube lies in one component, the list is exactly the components.
  A region is a single connected component exactly when the cube that seeds it
  lies in one; `WideSeedMergesComponents` gives a cube for which it is not.

Where the comments in the source differ from its code, the model follows the
code. The comment at `src/bap.cc:502-504` calls an event not fireable when the
bound of another against it is at most 0; the code asks for less than 0, and
`Zones.FirstIsJoint` shows that this is the right test. The comment at
`src/bap.cc:638-646` calls the search complete, which it is with the exit above
off. The note at
`src/POSET.cc:337-341` asks for the first copy of a duplicated event to go; an
event that occurs three times is therefore kept twice (`Survivors.NewestIsKept`).

## Model

| member | source | states |
|---|---|---|
| RowReduction.IsSolved | src/bcp.c:27-33 | true exactly when the row has a '1' in a column the partial solution takes |
| RowReduction.FindEssential | src/bcp.c:35-71 | in a new table, exactly the columns that are the only '1' of some row become '1', and the rows these solve go; changed exactly if there was such a column |
| RowReduction.SoleColumn | src/bcp.c:47-55 | the only '1' of a row, or -1 if the row has none or several |
| RowReduction.EssentialKeepsCompletions | src/bcp.c:46-68 | essential columns are in every cover: the covers that respect the partial solution are the same before and after |
| RowReduction.IsDominating | src/bcp.c:85-96 | finds whether another row lies inside this one, an equal row counting only if it comes later |
| RowReduction.SuperfluousIff | src/bcp.c:85-96 | a row goes exactly if some row has a '1' in fewer of its columns and nowhere else, or an equal row comes later |
| RowReduction.RmDominatingRows | src/bcp.c:73-108 | keeps exactly the rows that are not superfluous, in reverse order, and reports whether any went |
| RowReduction.SurvivorInside | src/bcp.c:84-105 | every row, deleted or not, contains a surviving row, also along chains of dominance and among equal rows |
| RowReduction.DominanceKeepsCompletions | src/bcp.c:73-108 | deleting dominating rows leaves the set of covers the same |
| ColumnReduction.Dom | src/bcp.c:110-120 | column i has a '1' wherever column j has one, and column j is not empty |
| ColumnReduction.EmptyColumnStays | src/bcp.c:115-119 | a column without a '1' is never given up |
| ColumnReduction.RmCol | src/bcp.c:122-125 | clears one column in every row and nothing else |
| ColumnReduction.ClearingKeepsOptimum | src/bcp.c:140-150 | giving a dominated column of no smaller cost up keeps a cheapest cover |
| ColumnReduction.RmDominatedCols | src/bcp.c:127-154 | runs column by column on the table it changes, as ColumnPass defines, and reports whether a column went |
| ColumnReduction.ColumnPassKeepsOptimum | src/bcp.c:127-154 | the columns given up are exactly the cleared ones, each has a dominator that stays, no pair left can be reduced further, and if no cost is negative a cheapest cover is kept, although later tests read the changed table |
| ColumnReduction.SettleColumn | src/bcp.c:136-152 | the inner loop: column i against every later column, until i itself goes |
| ColumnReduction.CompareColumns | src/bcp.c:138-151 | one round: j goes if i dominates it at no higher cost, else i goes in the reverse case |
| ColumnReduction.TwinColumns | src/bcp.c:138-151 | of two equal columns of the same cost the first stays |
| ColumnReduction.GivenUpKeepsOnes | src/bcp.c:127-154 | column dominance never empties a row |
| ColumnReduction.GivenUpAdmitsNothing | src/bcp.c:127-154 | column dominance admits no new cover, whatever the costs |
| TableReduction.SurvivorsAreIncomparable | src/bcp.c:84-105 | after row dominance no row lies inside another |
| TableReduction.PassesReverseTwice | src/bcp.c:61-68 | on a table without superfluous rows the two row passes restore the row order |
| TableReduction.ReduceOnce | src/bcp.c:161-178 | one round: the row passes, and the column pass in the first round only; reports whether anything changed |
| TableReduction.Reduce | src/bcp.c:156-180 | terminates with the function Reduced of the table, without changing the table it is given |
| TableReduction.ReducedKeepsOptimum | src/bcp.c:156-180 | no completion is added, no row left has a single '1' or lies inside another, and if no cost is negative a cheapest completion is kept |
| TableReduction.ReducedIsLeftAlone | src/bcp.c:156-180 | a table without essential columns, comparable rows or yielding columns is its own reduct |
| Reducts.ReducedNoNewOnes | src/bcp.c:156-180 | reducing never puts a '1' where no row of the table had one |
| Reducts.ReducedSolvesNone | src/bcp.c:156-180 | no row of the reduct is solved by the columns taken |
| CoverBound.Cost | src/bcp.c:191-198 | start cost plus the weight of the taken columns |
| CoverBound.FindShortest | src/bcp.c:311-318 | the first of the cheapest rows that are still available |
| CoverBound.MarkNeighbours | src/bcp.c:320-326 | flags exactly the rows that share a column with a picked row |
| CoverBound.MisQuick | src/bcp.c:295-337 | terminates with the number of rows of the greedy choice, to which no row can be added |
| CoverBound.GreedyRowsAreApart | src/bcp.c:310-329 | no two picked rows share a column |
| CoverBound.GreedyPicksCheapest | src/bcp.c:310-319 | every pick has the least cost of all its columns among the rows that share none with earlier picks, and is the first of several |
| CoverBound.ApartRowsCost | src/bcp.c:330-342 | a selection that hits rows without common columns pays at least 1 for each, besides what is already taken |
| CoverBound.LowerBound | src/bcp.c:339-342 | paid cost plus the number of greedily picked rows |
| CoverBound.LowerBoundIsSound | src/bcp.c:386-390 | if every column with a '1' costs at least 1, no cover that respects the partial solution is below the bound, which justifies the prune |
| SmallTables.SmallBound | src/bcp.c:386-390 | in tables of up to three columns the bound of a reduct is right although columns are free |
| BranchAndBound.ChooseVar | src/bcp.c:200-216 | the first column from 1 on with the most '1's, or -1 if none of these has any |
| CoverSearch.NoColumnMeansNoCover | src/bcp.c:391-395 | on a reduced non-empty table the answer -1 means that there is no cover |
| BranchAndBound.SelectCol | src/bcp.c:218-255 | takes column x and builds the table of unsolved rows over the open columns, with the cost so far |
| BranchAndBound.RemoveCol | src/bcp.c:257-293 | gives column x up and builds the table of all rows over the open columns, with the cost so far; these are the unsolved rows if no row is solved |
| Compression.ChildCovers | src/bcp.c:238-252 | covers of the child table are exactly the covers of the parent with the column decided that way |
| Compression.ExpandCompress | src/bcp.c:344-368 | compressing to the open columns and expanding again gives back every selection that keeps the decisions |
| Compression.ExpandWeight | src/bcp.c:344-368 | an expanded selection costs what the child pays plus the decided columns |
| Compression.LiftDecides | src/bcp.c:349-362 | the lifted partial solution keeps what the parent has decided and leaves no column open: those the child leaves open are given up |
| BranchAndBound.ExpandSolution | src/bcp.c:344-368 | lifts the child's solution: takes exactly the expanded selection, keeps the parent's decisions, decides every column, and restores the parent's base cost |
| BranchAndBound.SolveBranch | src/bcp.c:397-409 | the lifted answer of a branch and the bound it leaves, as SearchChild defines |
| CoverSearch.BothBranches | src/bcp.c:397-427 | what both branches bound, the split table bounds |
| BranchAndBound.Branches | src/bcp.c:397-444 | the early exit at the lower bound, the second branch under the bound the first one left, and the choice, as SearchBoth defines |
| BranchAndBound.BetterOf | src/bcp.c:430-444 | the cheaper of the two answers, the second on a tie |
| BranchAndBound.BCP | src/bcp.c:370-445 | terminates with the answer of Search for every partial solution; an answer is a cover strictly below the old bound at exactly the new one, with the base cost unchanged; it keeps the decisions of the reduct, and decides every column if rows were left; where CountsRows holds there is one if and only if some cover is below the bound, and none is below the new bound |
| CoverSearch.SearchIsSound | src/bcp.c:370-445 | whatever the costs, an answer completes the partial solution to a cover at its total |
| CoverSearch.SearchDecides | src/bcp.c:344-445 | an answer is a partial solution that keeps every decision of the reduct; without a branch it is the reduct's, after a branch no column is open |
| CoverSearch.SearchIsExact | src/bcp.c:370-445 | if no cost is negative and columns with a '1' cost at least 1, or the table is small, no completion is below the bound left |
| FreeColumns.ExactIffPriced | src/bcp.c:370-445 | for any cost vector the search is exact on all tables, base costs and bounds if and only if IsPriced holds of it |
| FreeColumns.BoundHoldsIffPriced | src/bcp.c:339-342 | if no cost is negative, lower_bound is right on every table that reduce leaves if and only if IsPriced holds |
| FreeColumns.NegativeMisses | src/bcp.c:376-384 | with a negative cost the answer for the empty table is not cheapest |
| FreeColumns.TwoFreeBreak | src/bcp.c:386-390 | any two free columns and a third have a reduced table whose bound is too high |
| FreeColumns.OneFreeBreaks | src/bcp.c:376-390 | so have one free column and three others: the column pass makes one essential, and the row left is counted as 1 |
| CoverOrder.EarlyExit | src/bcp.c:397-415 | a table on which the first branch meets the lower bound and is returned although a cheaper cover exists |
| BranchAndBound.CheapestCover | src/storeprs.c:341-408 | if every column costs something or the free ones cover all rows or none: a cheapest cover, and none only if the table has no cover |
| CubeTables.Includes | src/storeprs.c:91-104 | a cube includes a state if no position of it is E and every literal agrees with the value or its excitation |
| CubeTables.IncludesIffAgrees | src/storeprs.c:91-104 | a cube includes a state if and only if no position is E and the state has the level of every literal, 0 and R being low, 1 and F high |
| CubeTables.LiteralsCounts | src/storeprs.c:350-369 | the cost of a cube is the number of its literal positions |
| CubeTables.LiteralFreeCube | src/storeprs.c:91-104 | a cube without literals includes every state, or none if it has an E |
| CubeTables.FullColumnIsTaken | src/bcp.c:156-180 | a free column that covers all rows is all that reduce takes |
| CubeTables.TrivialFreeIsExact | src/bcp.c:370-445 | the search is exact if each free column covers all rows or none |
| CubeTables.CubeTableIsExact | src/storeprs.c:350-394 | so it is exact on every table that find_minimal_prs builds of states, cubes and literal counts |
| ClosedTables.ClosedSearch | src/heursyn.c:5096-5097 | from an all-'0' partial solution the answer is what reduce takes, and if rows are left also the branching column, if the bound allows and it covers them all; else there is none |
| ClosedTables.ClosedIsSound | src/heursyn.c:5432-5433 | whatever the costs, such an answer is a cover at its total |
| ClosedTables.ClosedIsCheapest | src/heursyn.c:5094-5102 | with unit costs such an answer is a cheapest cover |
| ClosedTables.ClosedTriangle | src/heursyn.c:5096-5097 | a table of unit costs that two columns cover gets no answer at any bound and base cost |
| BranchAndBound.TriangleIsPruned | src/bcp.c:386-390 | a table of free columns that is pruned although a cover below the bound exists |
| BranchAndBound.FreeColumnsMissCover | src/bcp.c:370-390 | on that table the search returns nothing |
| Dbm.RelaxEntry | src/POSET.cc:31-34 | one comparison with the path through k: the entry becomes the smaller, everything else and the set of timings stay |
| Dbm.SatisfiableKeepsDiagonal | src/POSET.cc:612-618 | a satisfiable matrix never gets a negative diagonal from tightening |
| Zones.LatestTiming | src/POSET.cc:562-568 | every bound against an event of a canonical matrix is met exactly, by one timing for all of them |
| Zones.CanonicalIsUnique | src/POSET.cc:25-38 | the timings determine the canonical matrix |
| Zones.NegativeMeansBefore | src/POSET.cc:619-631 | in a canonical matrix a negative entry says exactly that one event always precedes the other |
| Zones.FirstIsJoint | src/bap.cc:502-510 | no event is forced before r exactly when one single timing puts r no later than all of them |
| Zones.NextIsOneTiming | src/bap.cc:502-510 | the pairwise tests, against older and against other added events, hold exactly when one single timing has the event after all older ones and before all others |
| Zones.ExtendTiming | src/POSET.cc:664-693 | a timing of some events that respects a canonical matrix extends to all |
| Zones.ShrinkIsProjection | src/POSET.cc:82-117 | dropping rows and columns of a canonical matrix leaves exactly the restrictions of its timings |
| Zones.ShrinkStaysCanonical | src/POSET.cc:82-117 | the shrunk matrix is canonical again |
| Closure.FloydPhase | src/POSET.cc:28-36 | one outer round in place equals the simultaneous update through k, as long as the diagonal entry is 0 |
| Closure.Floyds | src/POSET.cc:25-38 | never changes the timings; the diagonal stays 0 if and only if the matrix is satisfiable, and then the result is the full closure and canonical |
| Closure.ClosureIsCanonical | src/POSET.cc:25-38 | full closure of a satisfiable matrix is canonical |
| Closure.PassThrough | src/POSET.cc:47-62 | one round of the incremental pass closes the new column and row under one more event |
| Closure.SweepCloses | src/POSET.cc:63-71 | after the rounds one sweep through the new event makes all events canonical |
| Closure.IncrementalFloyds | src/POSET.cc:44-72 | never changes the timings or anything outside its range; if the older events were canonical and the diagonal stays 0, all events are canonical; if the bounds between the events of the range are satisfiable, these become their full closure |
| Closure.PassOutcome | src/approx.c:1384-1414 | the same for the events 1 to num_clocks, the range of approx_recanon_process: entries of event 0 stay, the others become canonical, and their block becomes the full closure of the block |
| Closure.BlockOfCanonical | src/POSET.cc:44-72 | a block is canonical exactly if the matrix is on its events |
| Closure.OnePassIsFullClosure | src/POSET.cc:40-72 | the incremental pass refines full Floyd-Warshall |
| Posets.Poset.Initial | src/POSET.cc:385-404 | the poset of the reset state is canonical and allows exactly the timings in which all events coincide |
| Posets.Poset.Copy | src/POSET.cc:407-414 | a copy with a matrix of its own |
| Posets.Poset.IsInPoset | src/POSET.cc:754-760 | whether an event is among those before the added ones |
| Posets.Poset.GetCausalIndexes | src/POSET.cc:248-276 | oldest index of i and newest other index of j; fails exactly if there is no such pair |
| Posets.CausalIndexesIff | src/POSET.cc:240-247 | there is such a pair exactly if i occurs, and j occurs besides the oldest i |
| Posets.Poset.GetSeparationIndexes | src/POSET.cc:284-309 | newest indices of two different events; fails exactly if one is missing or they are the same |
| Posets.Poset.GetSeparation | src/POSET.cc:570-576 | the bound between the newest copies, unbounded if there is none |
| Posets.Poset.SetMaxSeparation | src/POSET.cc:540-551 | bounds the newest f by v after the oldest e, and changes nothing else |
| Posets.Poset.SetMinSeparation | src/POSET.cc:527-538 | bounds the newest f to be at least v after the oldest e; an infinite v becomes a finite number |
| Posets.Poset.GetCausalSeparation | src/POSET.cc:562-568 | the bound of the oldest e against the newest f, unbounded if there is no such pair |
| Posets.Poset.ClearSeparationsOnRows | src/POSET.cc:695-704 | takes exactly the upper bounds off the added events |
| Posets.CopyExpandDbm | src/POSET.cc:119-147 | old bounds kept, new events unconstrained |
| Posets.Poset.Add | src/POSET.cc:475-496 | appends the enabled events; the new bounds are exactly the lower bounds of rules whose enabling event is not itself enabled |
| Posets.Poset.ConstrainLowerBounds | src/POSET.cc:454-473 | one lower bound for each such rule of the event just added |
| Posets.Poset.IsConsistent | src/POSET.cc:602-633 | from a canonical prefix and any number of added events the diagonal stays 0 exactly if the bounds are satisfiable; true exactly if also no added event is forced before an older one; on true the matrix is canonical and the full closure of the old one; the timings never change |
| Posets.ConsistencyDecided | src/POSET.cc:612-632 | why the two tests on the closed matrix decide consistency of the original one |
| Posets.Poset.BuildNotInSet | src/POSET.cc:217-226 | the events outside E |
| Posets.Poset.BuildDuplicateSet | src/POSET.cc:228-237 | the events with a later copy |
| Posets.Poset.UpdateAndMarkDbm | src/POSET.cc:342-363 | marks exactly the indices that go and lists the others in order |
| Posets.CopyShrinkDbm | src/POSET.cc:82-117 | copies exactly the unmarked rows and columns |
| Posets.Poset.RemoveNonCausal | src/POSET.cc:664-693 | keeps exactly the surviving events with their bounds; from a canonical matrix the result is canonical and allows exactly the restrictions of the timings, if no event outside E occurs three times |
| Survivors.SizeIsExact | src/POSET.cc:672-673 | the computed size is never too small, and is the number of survivors if and only if no event outside E occurs three times |
| Survivors.NewestIsKept | src/POSET.cc:352-361 | the newest copy of every event in E is kept, and is the only one kept if and only if no event in E occurs three times |
| Survivors.NothingGoes | src/POSET.cc:675 | when the computed size is the old one, every event survives |
| CausalSearch.RemoveOverBounded | src/bap.cc:558-576 | the first unbounded rule whose enabling event has fired changes places with the first rule, and the end is 1; if there is none the rules stay as they are and the end is their number |
| CausalChoices.UnboundedRuleSuffices | src/bap.cc:656-673 | exploring only such a rule finds the same events as exploring all rules of the event |
| CausalChoices.CanFireIsMonotone | src/bap.cc:656-673 | fewer bounds never lose an event, through any further choices, the closure and both consistency tests |
| FireFirst.GetFireFirstEvents | src/bap.cc:487-518 | splits the enabled events into those that no other is bound to precede strictly and the rest |
| FireFirst.FireableMeansFiresFirst | src/bap.cc:497-517 | on the canonical form of a consistent matrix this is the same as one timing in which the event comes after all fired and before all other enabled ones |
| NeverFirst.CanNeverFireFirst | src/bap.cc:580-603 | true exactly if some enabled event has all its rules out of time, not counting those that wait for the given event or for one not in the poset |
| NeverFirst.CountNonFireFirstEvents | src/bap.cc:607-635 | counts the late events that, put first with no cause chosen, are consistent and pass that test |
| NeverFirst.NextMeetsBounds | src/bap.cc:621-626 | a timing that has an event next meets the bounds that put it first |
| Expiry.FirstTimings | src/bap.cc:607-626 | the bounds with an event put first allow exactly the firing times that keep the past and the lower bounds, with its oldest copy no later than any enabled event |
| Expiry.InTimeIff | src/bap.cc:593 | on the closed matrix a rule is out of time exactly if some timing has the cause later than the event by more than the upper bound, or every timing has the event later by more than that |
| Expiry.WithFirstIsConsistent | src/bap.cc:627-629 | the consistency test of an event put first never fails |
| Expiry.NeverFirstIff | src/bap.cc:607-635 | an event is counted exactly if, with it put first, some enabled event has all its rules out of time that do not wait for it |
| Expiry.CountedIff | src/bap.cc:607-635 | where causes are over: exactly if some enabled event has no rule whose upper bound a timing with the event first keeps |
| NeverFirst.NeverFirstCannotFire | src/bap.cc:628-632 | if no enabled event is a fired cause and no lower bound is negative, an event so counted comes first under no choice of causes |
| CausalSearch.CheckConfiguration | src/bap.cc:675-699 | with all causes chosen, adds exactly the events that the configuration lets fire first, if it is consistent, and stops if none is late or as many as can never fire first |
| CausalSearch.TryCause | src/bap.cc:659-672 | one cause: searches on with its bound set, and takes it back unless the search is over |
| SearchPlan.PlanSuffices | src/bap.cc:656-658 | the explored causes together find what all causes allow |
| CausalSearch.CombinatorialSearch | src/bap.cc:647-712 | terminates with the events, the verdict and the count of SearchCauses; each list of rules stays as it was or has its first sufficient rule moved to the front; a false return leaves the matrix as it was |
| SearchPlan.SearchFinds | src/bap.cc:647-712 | it finds only events that some choice of causes lets fire first, and all of them unless it stops early |
| SearchPlan.SearchStopsRight | src/bap.cc:693-698 | a known count is kept; if the count covers no event that can fire first, nothing is missing where the search stops |
| SearchPlan.SearchIsComplete | src/bap.cc:638-646 | the search finds exactly the events that some choice of causes lets fire first, unless it counts one of them |
| SearchPlan.FullSearchIsComplete | src/bap.cc:638-646 | with the exit off it finds exactly these, without any condition |
| SearchPlan.SearchIsCompleteWhenOver | src/bap.cc:693-698 | the exit loses nothing if no fired cause of an enabled event is enabled again and no lower bound is negative |
| SearchPlan.SingleCausesAreComplete | src/bap.cc:656-673 | nor if each event has at most one cause to explore |
| SearchVerdict.SearchIsLoop | src/bap.cc:647-712 | the recursion is one loop over the configurations of all explored causes, in order, until it is over |
| SearchVerdict.ListedIsChoice | src/bap.cc:655-674 | each configuration is that of a whole choice of explored causes |
| SearchVerdict.ChoiceIsListed | src/bap.cc:655-674 | every whole choice of explored causes has its configuration |
| SearchVerdict.VerdictIff | src/bap.cc:689-698 | the search is over if and only if some configuration is consistent and lets every enabled event come first in some timing, or has as many late events as the count known there |
| SearchVerdict.KnownVerdictIff | src/bap.cc:689-698 | with a known count: if and only if some explored choice of causes does so |
| SearchVerdict.NoneLateEnds | src/bap.cc:696 | whatever the count, a consistent choice that leaves no event late ends the search |
| EnabledCauses.NoneLateFindsAll | src/bap.cc:689-698 | if the first configuration is such a one, the search is over at once with all enabled events |
| Runs.ChoiceOfCauses | src/bap.cc:655-674 | an event that the recursion finds fires first under one whole assignment of causes |
| Runs.ChoiceIsFound | src/bap.cc:655-674 | an event that fires first under some assignment of causes is found by the recursion |
| Runs.ExtensionTimings | src/POSET.cc:475-496 | adding the enabled events constrains the timings by exactly the lower bounds of the rules that are not skipped |
| Runs.RunsAreTimings | src/bap.cc:667 | the timings of a configuration are the firing times that keep the upper bounds of the chosen causes and the lower bounds of the rules that are not skipped |
| Runs.FiringIsRunning | src/bap.cc:655-674 | an event can fire first under some choice of causes if and only if it begins a loose run |
| Runs.RunsAreLoose | src/POSET.cc:464-469 | an event that begins a run begins a loose run, and the other way round if no skipped rule has a lower bound above 0 |
| LostBounds.AddKeepsLowersIff | src/POSET.cc:454-473 | for every past, all timings of the extended poset in which no enabled event comes before a fired one keep all lower bounds, if and only if no skipped rule has a lower bound above 0 |
| LostBounds.LostBoundIsReturned | src/POSET.cc:464-469 | two fired and two enabled events for which get_fireable_set returns an event that begins no run |
| LostBounds.LostExample | src/POSET.cc:464-469 | such events, bounds and rules exist |
| FireableEvents.FullSearchIsExact | src/bap.cc:638-646 | with the exit off, the search finds exactly the events that begin a loose run, and exactly those that begin a run if no bound is lost |
| FireableEvents.SearchMeetsRuns | src/bap.cc:647-712 | with the exit on, it finds only events that begin a loose run, and all of them if the exit is safe |
| FireableEvents.SafeExitIsComplete | src/bap.cc:693-698 | the exit loses nothing if causes are over, if each event has at most one cause to explore, or if no event that begins a loose run is counted |
| FireableEvents.GetFireableSet | src/bap.cc:716-733 | from a canonical poset, gains what the search returns: only events that begin a loose run, so a run if no bound is lost, and all of them if the exit is safe |
| EnabledCauses.SkippedIsExpired | src/bap.cc:590-600 | if all rules of an enabled event wait for an event that comes next in some timing, that event is counted as one that can never fire first |
| EnabledCauses.CountedFirstIsCompleteIff | src/bap.cc:693-698 | if all late events of the first configuration are counted, the search misses nothing if and only if none of them begins a loose run |
| EnabledCauses.SkippedIsMissed | src/bap.cc:693-698 | if the event of SkippedIsExpired is the only late one of the first configuration, the search stops there and never finds it |
| EnabledCauses.EnabledCauseIsMissed | src/bap.cc:693-698 | three fired and three enabled events for which get_fireable_set misses an event that begins a run |
| EnabledCauses.LateExample | src/bap.cc:693-698 | such events, bounds and rules exist |
| Clocks.RestrictRow | src/approx.c:892-905 | one row: unchanged, or compared with the path through the restricted clock and the reference |
| Clocks.ThroughRestrictionIsCanonical | src/approx.c:881-907 | the closed form, each entry against the one path that uses the new bound, is canonical |
| Clocks.RecanonRestrict | src/approx.c:885-907 | after one bound of a canonical matrix was lowered, the quadratic loops keep the diagonal 0 if and only if the clocks can still meet it, and then give that closed form, which is the full closure |
| Clocks.FeasibleIff | src/approx.c:881-907 | they can exactly if the bound the other way does not contradict it |
| Subsumption.SubsumedIsContained | src/approx.c:637-665 | every timing of a subsumed frame is, clock by clock, one of the current zone |
| ZoneInclusion.SubsumedIffInside | src/approx.c:637-665 | for a canonical zone with distinct keys the test holds if and only if state, marking and keys agree and every timing of the frame is one of the current zone |
| ZoneInclusion.SubsumedByItself | src/approx.c:637-665 | a frame identical to the current one is subsumed |
| Subsumption.PartnersDiffer | src/approx.c:644-653 | different keys are matched to different clocks |
| Subsumption.IsSuperset | src/approx.c:631-665 | the test holds exactly for frames of the same state and marking whose clocks all have a partner and whose zone is nowhere wider |
| Subsumption.CompareZones | src/approx.c:655-665 | compares all entries under the matching |
| WorkStacks.Unlink | src/approx.c:666-679 | redirects one pointer and takes exactly one frame out of the list |
| WorkStacks.Advance | src/approx.c:666-705 | the two pointers stay neighbours whether or not the frame goes |
| WorkStacks.Scan | src/approx.c:630-706 | the frames left are, in order, exactly those not subsumed |
| WorkStacks.CleanStack | src/approx.c:601-709 | the list left is the old one without the frames that are subsumed, except that a frame just pushed stays, and the count returned is theirs |
| Tridiagonal.NextPivot | src/CSpline.cpp:62-65 | a pivot above the width of its interval leaves the next pivot above the width of the next one |
| Tridiagonal.Pivot | src/CSpline.cpp:62-65 | every pivot is above the width of its interval, so no division by zero occurs |
| Tridiagonal.RowsAgree | src/CSpline.cpp:62-65 | below a solved row, an eliminated row holds exactly if the original one does |
| Tridiagonal.SolutionIsUnique | src/CSpline.cpp:52-68 | the system has at most one solution with both ends zero |
| Tridiagonal.ShortRowsSuffice | src/CSpline.cpp:66-67 | back substitution solves the original rows |
| Spline.CSpline.Eliminate | src/CSpline.cpp:62-65 | the arrays end up holding the pivots and right-hand sides of the eliminated rows |
| Spline.CSpline.SubstituteBack | src/CSpline.cpp:66-67 | the result solves the original system |
| Spline.CSpline.MakeSpline | src/CSpline.cpp:52-68 | leaves the second derivatives of the natural spline: zero at both ends and every interior row of the original system satisfied |
| Spline.FittedIsKnotted | src/CSpline.cpp:110-114 | after sorting and dropping repeated points no interval has width 0, and x strictly increases, exactly if no two of the points lie above each other |
| Spline.NaturalSplineIsUnique | src/CSpline.cpp:52-68 | there is no other natural spline through the points |
| Spline.PieceIsCubic | src/CSpline.cpp:70-82 | each piece is a cubic; its derivatives are those that the slope and bend lemmas speak of (exact Taylor sum) |
| Spline.PieceMeetsKnots | src/CSpline.cpp:78-81 | every piece passes through the knots at its ends |
| Spline.KnotIsSmoothIffInBalance | src/CSpline.cpp:58-59 | a row of the system holds if and only if the slopes on both sides of its knot agree; the second derivatives agree in any case |
| Spline.NaturalMeansSmooth | src/CSpline.cpp:52-68 | solving the system is the same as a continuous slope with no bend at the ends |
| Spline.CSpline.F | src/CSpline.cpp:74-82 | zero outside the knots, and elsewhere the value of every piece that covers the point |
| Regions.StepStaysInside | src/bddrsg.c:359-382 | one step adds only states that every closed set around u has, and none exactly if u is closed |
| Regions.GrowRegion | src/bddrsg.c:357-383 | terminates with the least set around the seed that no transition leaves or enters within t |
| Regions.FindER | src/bddrsg.c:347-396 | terminates; the regions are disjoint, their union is the given set, each is the least closed set around what satisfy picks of the states left when it was found, and no transition joins two of them; the components, if every pick lies in one |
| Regions.RegionsAreComponents | src/bddrsg.c:347-396 | if the states of every cube picked are linked, the list holds every component of the set once and nothing else |
| Regions.RegionIsUnionOfComponents | src/bddrsg.c:357-383 | a region is the union of the components its seed touches |
| Regions.RegionIsConnectedIffSeedIs | src/bddrsg.c:357-383 | a region is one component if and only if the states of its seed already lie in one |
| Regions.WideSeedMergesComponents | src/bddrsg.c:357 | a seed of two unrelated states gives one region of two components |

## Left out

- Tables and rows: a row is a string in a sequence, so sharing of row buffers
  between tables is not modelled (the source always copies rows); freeing,
  printing and the `depth` argument are dropped, and `*U` and `*changed` are
  in- and out-parameters.
- `src/bcp.c:302-303`: the flag arrays of `mis_quick` are allocated with one
  element per column but indexed by row; the model gives them one per row.
- `src/bcp.c:213`: with no column chosen yet, the second operand reads
  `counts[-1]`; the model takes that comparison as false.
- The construction of tables and costs in `src/heursyn.c`, where `Sol->cost` is
  left unset (`src/heursyn.c:5094-5099`, `5430-5435`), so that the results of
  `ClosedTables.dfy` hold for any base cost; and in `find_minimal_prs` the lists
  of regions and covers, where what a table entry and a cost are is modelled.
- `find_multicube_prs` (`src/storeprs.c:105-220`), whose only call is commented
  out: in its tables a column of cost 0 covers the rows of its own signal only.
- Posets.Poset.SetMinSeparation: for an infinite lower bound the source stores
  the finite number -(INT_MAX - 1), and so does the model.
- Bounds are integers without overflow, and `_UNBOUNDED_` and `_MARKED_` are
  values of their own; the source keeps them in an `int`.
- Posets.CopyShrinkDbm: the size errors of the source cannot occur from its
  callers and are preconditions; entries beyond the survivors are arbitrary, as
  in the source.
- `copy_expand_dbm2` (compiled only with `__TOTAL__`), the single-rule-set
  `add`, `remove_duplicates`, and the order relations of `src/POSET.cc` after
  line 704.
- FireableEvents.GetFireableSet: level rules are not modelled, and with them the
  call of `set_causal_orders` (`src/bap.cc:726`), which only orders the causes of
  level rules (`src/level_expand.cc:70-89`) and changes nothing without.
- FireableEvents.SafeExitIsComplete: the condition is sufficient and, for the
  first configuration, `CountedFirstIsCompleteIff` is exact; there is no
  condition on the events and rules that is both in general, because the exit
  compares numbers: a later configuration stops the search as soon as it has as
  many late events as the first one had counted, whichever these are, so the
  outcome depends on the late events of every configuration in the order
  explored.
- CausalSearch.ExploreCauses: requires that the rule sets of a call belong to
  different enabled events and share no mixture of them, as
  `get_enabled_events` builds them.
- The state-space loops of `src/bap.cc` and `src/approx.c`, level expressions
  and markings.
- Clocks.RecanonRestrict: when the lowered bound makes the system infeasible, only
  preservation of the timings and a negative diagonal entry are stated.
- WorkStacks.CleanStack: the depth passed in is taken to be the length of the
  list, and the freeing of unlinked frames is dropped; a frame's contents are
  constant.
- Spline.CSpline.MakeSpline: works on exact reals, so rounding is not modelled,
  and requires two points or more and strictly increasing x. `fit` does not see
  to either: it drops equal points only, and for two points above each other
  the source divides by 0 (`Spline.FittedIsKnotted`). Plotting is left out.
- Regions.FindER: a BDD is the set of states it holds of and `bdd_satisfy` is
  any function to a non-empty part; the list of regions is a sequence.
- `src/MY_BAP.cc`, rule redundancy removal and logic simplification in
  `src/auxilary.c`, probability distributions, user interface and input/output.
