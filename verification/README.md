# systeml: dependency transactions, calendar timers and unit files

A Dafny model of the decision logic of systeml, a systemd-style service manager, with proofs of what
that logic promises. Three clusters and two small state machines are covered:

* **Dependency graph and transactions** (`crates/systeml-deps`). The typed multigraph, the restricted
  topological sort, and the builder that expands a root request into one job per unit, merges the kinds
  requested for a unit, isolates, resolves against queued jobs and gives out ids.
* **Calendar timers** (`crates/systeml-unit/src/schedule.rs`, `calendar.rs`, `crates/systeml-runtime/src/timer`).
  Field parsing, the skip-ahead search for the next firing instant, the bounded walk back to the previous one,
  the deadline of a timer, and whole runs of the scheduler loop.
* **Unit files** (`ini.rs`, `load.rs`). The line parser, the printer, and loading with drop-ins.
* **Command-line splitting** (`exec.rs`) and the **trigger rate limiter** (`path/mod.rs`).

`dafny verify dfyconfig.toml` checks everything.

## How it is organised

| file | contents |
|---|---|
| `Wrappers.dfy`, `UnitNames.dfy`, `Strings.dfy` | result shapes; abstract unit names and insertion-ordered sets; Rust's `trim`, `split`, `split_once` |
| `Graph.dfy` | `GraphView`, an immutable reading of a graph, and the class `DepGraph` whose methods grow it |
| `TopoSort.dfy`, `Repeats.dfy` | Kahn's algorithm, cycles, and what "stuck" means; inputs that repeat names |
| `Jobs.dfy`, `Merging.dfy` | job kinds, modes and ids; merging kinds, and when the order of requests matters |
| `Expansion.dfy`, `ExpansionTheorems.dfy`, `RunTheorems.dfy` | expansion as a function on request logs; the rules it follows; what whole expansions end with |
| `FailureTheorems.dfy`, `IsolateTheorems.dfy` | exactly when a start fails; exactly which units isolate stops reach, and when they enter the closure |
| `Transaction.dfy`, `TransactionTheorems.dfy` | the imperative builder, proved to produce those logs; what a built transaction guarantees, and counterexamples |
| `Civil.dfy`, `FieldSets.dfy`, `FieldParsing.dfy`, `FieldTexts.dfy` | the Gregorian calendar from first principles; value sets; field parsing; what written fields say |
| `Schedule.dfy`, `CalendarLaws.dfy`, `ScheduleLiveness.dfy`, `Horizon.dfy` | the search and its agreement with the naive one; what it returns for common schedules; when a schedule fires, and when the search horizon means "never" |
| `Timers.dfy`, `TimerRuns.dfy`, `Stamps.dfy` | deadlines and the scheduler loop; what whole runs guarantee; what the stamps on disk do |
| `Ini.dfy`, `Continuations.dfy`, `LineForms.dfy`, `Layering.dfy`, `Rendering.dfy`, `Loading.dfy` | parsing; continued lines; what each form of line does; merging is concatenation; printing and reading back; loading with drop-in directories |
| `ShellSplit.dfy`, `TriggerLimiter.dfy` | the quoting machine; the rate limiter |

Code that changes fields is a class or a method with loops, proved against a specification function or
predicate; the theorems are then stated on that specification. The state of an expansion is its *log*: every
request for a loaded unit, in order. The builder's job map is a function of the log (`TxBuilder.Valid`), and
`Add`/`AddAll` say which log a request leads to. Only the first request for a unit is expanded (`First`).

Instants are whole seconds on the proleptic Gregorian calendar at a fixed offset. Input and output, the clock
and the service manager appear as parameters: the view of loaded and active units, the texts of the drop-in
files, the clock reading of each round, whether a started service came up and whether a stamp was written.

## Where the code is weaker than its comments or than one would expect

The model follows the code. Each point names the input that shows it and the exact condition:

* A failed soft pull is swallowed but leaves its jobs behind, and a unit first verified or stopped is not expanded,
  so a later hard pull of the same unit succeeds although a hard dependency is missing (`SwallowedFailure`). Where the
  rules ask nothing but hard starts of units that head a broken chain, a start fails if and only if its root heads one
  (`FailsExactlyOnBrokenChain`, with `EdgesSuffice` and `PlainGraphsFailExactly` for conditions on edges). Every loaded
  unit can be started if and only if the hard targets of loaded units are loaded (`StartableExactly`).
* A merged revisit is not expanded: a unit first stopped by a conflict and then required ends as a restart whose own
  requirements nobody starts (`RevisitIsNotExpanded`). It takes a request other than a start: a unit of which no
  requested unit asks anything but a start has all its start targets activated (`FinalStartsAreClosed`, with
  `EdgesKeepStarts` and `EdgesActivate` for conditions on edges), and where nothing the root starts conflicts or demands
  a requisite, starting is exact (`StartIsExact`).
* Isolate stops do cascade (comment at `transaction.rs:385`), and can turn a start inside the closure into a restart
  (`IsolateStopsCascade`). The units they add are the least set that holds the isolate targets and is closed under
  stop propagation, stopping short at units the root's expansion requested (`IsolateStopsExactly`); they enter the
  closure exactly when a unit of that set propagates its stop into it (`IsolateCascadesExactly`).
* The merged kind depends on the order of requests for some multisets of requests, over all eight kinds, and exactly
  for those (`OrderMattersExactly`). A reload can take activation away: start, reload, stop merges to stop
  (`ReloadLosesActivation`, `ActivationSurvivesExactly`).
* The unit named by a cycle error may be merely downstream of the cycle (doc at `graph.rs:258-259`;
  `ErrorMayBeDownstream`).
* With repeated names, which its only caller never passes, the sort stops on every acyclic input (`AcyclicStops`) but
  may run forever on a cyclic one (`DuplicatesDiverge`), and what it emits rearranges an acyclic input exactly when
  surplus copies flow along the ordering edges (`RepeatsHarmlessExactly`).
* Ordering edges are stored as declared only; no matching edge is added on the other side (comment at
  `graph.rs:106-108`; `DepGraph.Build` proves the edges are exactly the declared ones).
* Job ids increase within a transaction exactly when the 32-bit counter does not wrap (`IdsIncreaseExactly`).
* The ten-year search horizon is not "never" (doc at `schedule.rs:8-9`): `2040-01-01` from 2024, and `Fri *-01-15` from
  15 January 2027, are reported as never firing (`HorizonMissesNewYear2040`, `HorizonMissesFriday15January`). It means
  "never" exactly for schedules that never fire, and for those with wildcard year of which no two successive firings of
  one 400-year cycle are ten years or more apart (`HorizonIsNeverExactly`); with wildcard weekdays, exactly when the
  year is a wildcard or the schedule never fires (`HorizonIsNeverForDates`).
* `prev_fire` finds the latest instant exactly when its window holds at most 200,000 of them
  (`PrevFireIsLatestExactly`).
* `next_overall` may return `now` itself, not only later instants (doc at `timer/mod.rs:47-48`): exactly on
  catch-up (`NowMeansCatchUp`).
* Of the timers that share a deadline, one that is not persistent is served for it exactly when it is the first listed
  and its start succeeds; the others lose the instant (`SharedInstantServedExactly`).
* A persistent timer that is owed a fire can starve behind timers listed before it: behind one whose start keeps failing
  (`OwedTimerStarves`, `StarvationHappens`), and behind one that is served every time but whose instants keep arriving
  (`BusyNeighbour`, a year of midnights). Otherwise it is served: within as many rounds as there are, at or before it,
  fires owed at the start and instants arriving meanwhile, interrupted rounds and failed starts not counted
  (`OwedTimerIsServed`). This is for calendars with at most 200,000 instants in a lookback window; beyond that the walk
  back loses sight of the latest one.
* A fire whose stamp could not be written is forgotten at the next restart, and its instant is served again; one whose
  stamp was written is not (`RestartRemembers`).
* Continued lines read as one line with a space between each two, but a line that holds nothing but its backslash still
  adds its own, so that two stand in a row (`ContinuedLinesJoin`).
* An unterminated quote is not an error (doc at `exec.rs:51`) but reads as if closed at the end of the line; splitting
  fails exactly on lines that end in a dangling escape (`SplittingFailsExactly`).
* The bound on accepted triggers is one below twice the burst, and that is attained (`SpanBound`,
  `SpanBoundAttained`).

## Model

| member | source | states |
|---|---|---|
| DepGraphs.GraphView.WithEdgeValid | crates/systeml-deps/src/graph.rs:60-73 | adding an edge keeps the reverse lists an exact mirror of the forward lists, without repetitions and with every endpoint a node, and adds exactly that edge |
| DepGraphs.DepGraph.constructor | crates/systeml-deps/src/graph.rs:76-80 | a new graph is empty and well-formed |
| DepGraphs.DepGraph.AddEdge | crates/systeml-deps/src/graph.rs:204-216 | idempotent insertion: each side appends its entry unless it has it, and both ends become nodes |
| DepGraphs.DepGraph.AddUnitEdges | crates/systeml-deps/src/graph.rs:106-152 | every listed directive, ordering included, is inserted as one forward edge in the declared direction, directive after directive, and nothing else |
| DepGraphs.DepGraph.AddInstallReverseEdges | crates/systeml-deps/src/graph.rs:154-171 | install directives are inserted as reversed edges exactly when default dependencies are on |
| DepGraphs.DepGraph.AddImplicitEdges | crates/systeml-deps/src/graph.rs:173-202 | a timer, path or socket that names a unit wants it and precedes it; other units add nothing |
| DepGraphs.DepGraph.AddUnit | crates/systeml-deps/src/graph.rs:94-101 | one unit of the snapshot inserts its directives, its install edges and its implicit edges, and sets its isolate opt-out |
| DepGraphs.DepGraph.Build | crates/systeml-deps/src/graph.rs:82-104 | the built graph is well-formed; its edges are exactly those some unit of the snapshot declares, its nodes exactly the units, first, and the ends of those edges; the link lists of every unit stand in order of declaration, and the opt-out set is exact |
| DepGraphs.DirectivesBecomeLinks | crates/systeml-deps/src/graph.rs:106-152 | a unit that names one unit under each directive has the thirteen links in this order, pulls before conflicts, ordering last |
| DepGraphs.DeclaredPulls | crates/systeml-deps/src/graph.rs:154-202 | which of its edges a unit declares itself, which its install directives reverse, and which its type implies |
| DepGraphs.DeclaredOthers | crates/systeml-deps/src/graph.rs:106-152 | every other edge kind comes from the directive of its own name alone |
| TopoSort.Predecessors | crates/systeml-deps/src/graph.rs:265-287 | the restricted predecessor map is exactly the After/Before relation among the given units |
| TopoSort.Successors | crates/systeml-deps/src/graph.rs:292-298 | the successor lists are exactly that relation turned round, without repetitions |
| TopoSort.Initial | crates/systeml-deps/src/graph.rs:289-303 | every count is the number of predecessors, and exactly the units with none are queued |
| TopoSort.Decrement | crates/systeml-deps/src/graph.rs:309-316 | the count of a successor not yet told is positive, so the saturating subtraction never saturates, and counts stay the number of unemitted predecessors |
| TopoSort.Notify | crates/systeml-deps/src/graph.rs:308-317 | telling the successors of the emitted unit restores exact counts and queues exactly those that reached zero |
| TopoSort.Drain | crates/systeml-deps/src/graph.rs:304-318 | when the queue runs dry every emitted unit came after all its predecessors, and counts are exact |
| TopoSort.WalkDescends | crates/systeml-deps/src/graph.rs:304-318 | walking ordering edges backwards from an emitted unit stays among the units emitted before it |
| TopoSort.EmittedIsNotStuck | crates/systeml-deps/src/graph.rs:319-328 | no emitted unit is on or downstream of a cycle |
| TopoSort.PredecessorClosedIsStuck | crates/systeml-deps/src/graph.rs:319-326 | pigeonhole: units that all wait for one another lie on or downstream of real cycles |
| TopoSort.DryQueue | crates/systeml-deps/src/graph.rs:319-326 | after the loop a unit has a positive count exactly when it is on or downstream of a cycle |
| TopoSort.FirstWaiting | crates/systeml-deps/src/graph.rs:319-327 | the unit reported is the first of the input, in input order, that is on or downstream of a cycle |
| TopoSort.StuckMeansCycle | crates/systeml-deps/src/graph.rs:319-327 | a cycle exists exactly when some unit is on or downstream of one |
| TopoSort.TopoOrder | crates/systeml-deps/src/graph.rs:252-329 | success exactly when the restricted relation is acyclic; the order is a permutation of the input respecting every ordering edge; an error names the first unit on or downstream of a cycle |
| TopoSort.StartOrderMeans | crates/systeml-deps/src/graph.rs:265-287 | a start order puts every unit before those it is declared Before, and after those it is declared After |
| TopoSort.CycleMeans | crates/systeml-deps/src/graph.rs:265-287 | a cycle is a closed chain of such declarations, whichever side made them |
| TopoSort.StartOrderMembers | crates/systeml-deps/src/graph.rs:257-260 | a start order has exactly the given units, each once |
| TopoSort.ErrorMayBeDownstream | crates/systeml-deps/src/graph.rs:258-259 | the reported unit need not be on any cycle |
| Repeats.AcyclicStops | crates/systeml-deps/src/graph.rs:299-318 | on any input without ordering cycles, repeated names included, the queue runs empty |
| Repeats.TurnsTally | crates/systeml-deps/src/graph.rs:305-318 | at every turn, on any input, each count and the number of times a unit was queued are what the emissions of its predecessors so far determine |
| Repeats.RepeatsHarmlessExactly | crates/systeml-deps/src/graph.rs:289-319 | on an acyclic input the emission rearranges the input if and only if every unit with predecessors has as many surplus copies as they have together |
| Repeats.DuplicatesDiverge | crates/systeml-deps/src/graph.rs:265-318 | on a graph with a two-unit cycle behind a unit that the input repeats, the loop, started as the code starts it, never stops |
| Jobs.JobIdAlloc.constructor | crates/systeml-deps/src/job.rs:36-43 | a new allocator starts after the sentinel |
| Jobs.JobIdAlloc.StartingAt | crates/systeml-deps/src/job.rs:45-52 | resuming never starts at the sentinel |
| Jobs.JobIdAlloc.Alloc | crates/systeml-deps/src/job.rs:54-57 | returns the counter and advances it, wrapping at 32 bits |
| Merging.RestartAbsorbs | crates/systeml-deps/src/transaction.rs:476-477 | once a restart was requested the merged kind is restart, whatever else was |
| Merging.MergeTable | crates/systeml-deps/src/transaction.rs:465-489 | the merge of every pair of kinds |
| Merging.OrderInsensitiveSettles | crates/systeml-deps/src/transaction.rs:465-489 | requests that are not order-sensitive merge to a kind read off the set of their kinds, over all eight kinds |
| Merging.OrderMattersExactly | crates/systeml-deps/src/transaction.rs:465-489 | over all eight kinds, the merged kind is the same for every order of the same requests if and only if the stated, checkable condition on the multiset fails |
| Merging.ActivationSurvivesExactly | crates/systeml-deps/src/transaction.rs:465-489 | a start or restart among the requests survives every order of them if and only if there is a restart, or no reload, or a try-restart and no stop |
| Merging.ActivationSurvives | crates/systeml-deps/src/transaction.rs:465-489 | in those cases no later merge takes activation away |
| Merging.ReloadLosesActivation | crates/systeml-deps/src/transaction.rs:465-489 | outside them it can: start, reload, stop merges to stop |
| Merging.Unanimous | crates/systeml-deps/src/transaction.rs:472-473 | requests that all agree keep their kind |
| Expansion.RemainingShrinks | crates/systeml-deps/src/transaction.rs:207-257 | the number of loaded units not yet in the job map never grows and shrinks with each new unit: the measure that makes the mutual recursion terminate on every graph |
| ExpansionTheorems.PullsAreRules | crates/systeml-deps/src/transaction.rs:229-357 | what the first request for a unit goes on to request is exactly what the declared edges say under the start, stop, restart and reload rules, using that reverse lists mirror forward ones |
| ExpansionTheorems.AddJustified | crates/systeml-deps/src/transaction.rs:205-257 | everything a request adds is that request or was pulled by an earlier first request |
| ExpansionTheorems.AddAllJustified | crates/systeml-deps/src/transaction.rs:259-357 | the same for a list of pulls |
| ExpansionTheorems.MissingTarget | crates/systeml-deps/src/transaction.rs:268-297 | a pull of a unit that is not loaded requests nothing; a hard one ends the expansion there, a soft one is passed over |
| ExpansionTheorems.FirstUnitsInOrder | crates/systeml-deps/src/transaction.rs:191-203 | units stand in the job map in the order of their first requests |
| ExpansionTheorems.SafeAdds | crates/systeml-deps/src/transaction.rs:205-257 | a request from which everything reachable by the rules is loaded fails on no log |
| ExpansionTheorems.HardTargetsSuffice | crates/systeml-deps/src/transaction.rs:268-276 | everything reachable is loaded when hard targets of loaded units are |
| ExpansionTheorems.AddCloses | crates/systeml-deps/src/transaction.rs:205-257 | if no soft pull in reach can fail, a request that succeeds carries out, afterwards, every pull of every unit it visits first |
| ExpansionTheorems.AddAllCloses | crates/systeml-deps/src/transaction.rs:259-357 | the same for a list of pulls |
| ExpansionTheorems.SafeCloses | crates/systeml-deps/src/transaction.rs:205-257 | where everything reachable is loaded a request succeeds and is carried out completely |
| ExpansionTheorems.SoftNeverFails | crates/systeml-deps/src/transaction.rs:297-357 | soft pulls never fail and every loaded unit among them is requested |
| ExpansionTheorems.SoftKindsNeverFail | crates/systeml-deps/src/transaction.rs:237-253 | stop, reload and verify requests for loaded units never fail, on any graph |
| ExpansionTheorems.AddFailure | crates/systeml-deps/src/transaction.rs:213-218 | a failure exhibits a chain of hard dependencies from the requested unit to the unloaded unit it names |
| ExpansionTheorems.AddAllFailure | crates/systeml-deps/src/transaction.rs:268-295 | a failing list of pulls fails on a hard one, with such a chain from it |
| RunTheorems.ExpansionIsJustified | crates/systeml-deps/src/transaction.rs:205-357 | every request of an expansion from the root follows by a documented rule from an earlier first visit |
| RunTheorems.FinalLogPhases | crates/systeml-deps/src/transaction.rs:117-122 | in every mode the final requests are the expansion of the root followed by stops |
| RunTheorems.StartTargetsActivated | crates/systeml-deps/src/transaction.rs:259-295 | in every mode that expands, isolate included: with everything reachable loaded and a root that is not a reload, every required or bound target and every loaded wanted or upheld target of a unit first visited as a start ends as start or restart |
| RunTheorems.FinalStartsAreClosed | crates/systeml-deps/src/transaction.rs:219-223 | the same for every unit requested by the expansion of which no requested unit asks anything but a start |
| RunTheorems.EdgesKeepStarts | crates/systeml-deps/src/transaction.rs:259-357 | in every mode, a unit that conflicts and isolate targets cannot stop, and that no loaded unit demands as a requisite, is asked for nothing but starts under a start root |
| RunTheorems.EdgesActivate | crates/systeml-deps/src/transaction.rs:259-357 | so with hard targets loaded, everything such a unit starts ends as a start or restart |
| RunTheorems.FinalKindIgnoresOrder | crates/systeml-deps/src/transaction.rs:182-203 | in every mode, with a start root and no requisites among the requested units, the final kind of a unit is start, stop or restart according to which of start and stop it was asked for, in whatever order |
| RunTheorems.TryRestartsOfInactiveVanish | crates/systeml-deps/src/transaction.rs:181-203 | the job of a unit is the merge of what was asked of it, in order, leaving out try-restarts if the unit is inactive |
| RunTheorems.OnlyTryRestarted | crates/systeml-deps/src/transaction.rs:183-189 | of a unit asked for try-restarts alone the job is a try-restart if it is active and nothing at all if it is not |
| RunTheorems.TryRestartOfInactive | crates/systeml-deps/src/transaction.rs:239-246 | the try-restart of an inactive unit succeeds, requests no other unit and does nothing |
| RunTheorems.StopIsExact | crates/systeml-deps/src/transaction.rs:297-328 | a stop never fails, every job is a stop, and the job set is the least set of loaded units holding the root and closed under reverse BindsTo/PartOf and forward PropagatesStopTo |
| RunTheorems.ReloadIsExact | crates/systeml-deps/src/transaction.rs:345-357 | the same for reloads along PropagatesReloadTo |
| RunTheorems.StartIsExact | crates/systeml-deps/src/transaction.rs:259-295 | where nothing the root starts is missing, conflicts or demands a requisite, every job is a start and the job set is the least set closed under hard and loaded soft pulls |
| RunTheorems.FailureIsHard | crates/systeml-deps/src/transaction.rs:207-295 | an expansion that fails names an unloaded unit reached from the root by hard edges only |
| FailureTheorems.FailsExactlyOnBrokenChain | crates/systeml-deps/src/transaction.rs:268-295 | where whatever the root can reach asks nothing but hard starts of units that head a broken hard chain, a start fails if and only if its root heads one |
| FailureTheorems.EdgesSuffice | crates/systeml-deps/src/transaction.rs:268-295 | that holds where no loaded unit heading a broken chain is wanted, upheld or verified by a loaded unit or could be stopped by a conflict |
| FailureTheorems.PlainGraphsFailExactly | crates/systeml-deps/src/transaction.rs:268-276 | in particular where loaded units only require, bind to and order |
| RunTheorems.IsolateIsJustified | crates/systeml-deps/src/transaction.rs:359-391 | every request under isolate follows by the rules from the root or from one of the isolate stops |
| RunTheorems.OutsideOnlyStops | crates/systeml-deps/src/transaction.rs:359-391 | under isolate to a start root nothing but stops is requested outside the closure |
| RunTheorems.IsolateStopsTheRest | crates/systeml-deps/src/transaction.rs:359-391 | every loaded, active node outside the closure that does not opt out ends as a stop, every job outside the closure is a stop, and the root ends as start or restart |
| IsolateTheorems.ClosureFollows | crates/systeml-deps/src/transaction.rs:393-415 | the closure follows Wants, Requires, BindsTo, Upholds, Requisite, PartOf, After and Before |
| IsolateTheorems.ClosureExactly | crates/systeml-deps/src/transaction.rs:393-415 | its members are exactly the units reached from the root along edges of those eight kinds |
| IsolateTheorems.TargetsExactly | crates/systeml-deps/src/transaction.rs:366-383 | isolating stops, on its own account, exactly the loaded, active nodes that do not opt out and are not reached that way |
| IsolateTheorems.IsolateStopsExactly | crates/systeml-deps/src/transaction.rs:362-391 | the units an isolate request adds to those of the root's expansion all stop, and are exactly the least set that holds the other isolate targets and, with a unit, every loaded unit outside the expansion that stops with it |
| IsolateTheorems.CascadeExactly | crates/systeml-deps/src/transaction.rs:384-391 | that set, unit by unit: what chains of stop propagation reach from the units stopped outright, past no unit of the expansion |
| IsolateTheorems.IsolateCascadesExactly | crates/systeml-deps/src/transaction.rs:362-391 | isolate stops reach into the closure of the root if and only if a unit of that cascade lying outside propagates its stop to a loaded unit inside: a condition on the graph, the targets and the units of the root's expansion |
| IsolateTheorems.IsolateKeepsTheClosure | crates/systeml-deps/src/transaction.rs:384-390 | where no loaded unit outside propagates its stop into the closure, isolate stops leave every unit of the closure as the root's expansion left it |
| Transactions.TxBuilder.constructor | crates/systeml-deps/src/transaction.rs:171-179 | a new builder has no jobs |
| Transactions.TxBuilder.InsertJob | crates/systeml-deps/src/transaction.rs:181-203 | records the request, merges it into the job of its unit, and says whether the unit is new |
| Transactions.TxBuilder.AddJobAndDeps | crates/systeml-deps/src/transaction.rs:205-257 | leaves exactly the log and outcome that the expansion relation gives for the request, and terminates on every graph |
| Transactions.TxBuilder.ExpandRestart | crates/systeml-deps/src/transaction.rs:233-247 | a restart follows the start pulls and then try-restarts, stopping at the first hard failure |
| Transactions.TxBuilder.ExpandStart | crates/systeml-deps/src/transaction.rs:259-295 | follows the outgoing links in order, propagating hard failures and swallowing soft ones |
| Transactions.TxBuilder.FollowStartLink | crates/systeml-deps/src/transaction.rs:268-293 | one outgoing link of a starting unit is pulled as its edge kind and target demand |
| Transactions.TxBuilder.ExpandStop | crates/systeml-deps/src/transaction.rs:297-328 | follows the reverse links, then the forward ones, and cannot fail |
| Transactions.TxBuilder.ExpandStopPropagation | crates/systeml-deps/src/transaction.rs:330-343 | try-restarts what is part of the unit, and cannot fail |
| Transactions.TxBuilder.ExpandReload | crates/systeml-deps/src/transaction.rs:345-357 | reloads what the unit propagates reloads to, and cannot fail |
| Transactions.TxBuilder.PullAlong | crates/systeml-deps/src/transaction.rs:309-315 | the shared loop follows every matching link to a loaded unit softly |
| Transactions.TxBuilder.DepClosure | crates/systeml-deps/src/transaction.rs:393-418 | the worklist computes exactly reachability over its edge kinds: the least closed set holding the root |
| Transactions.TxBuilder.CollectTargets | crates/systeml-deps/src/transaction.rs:366-383 | the units to stop are the loaded, active graph nodes outside the closure that do not opt out, in node order |
| Transactions.TxBuilder.AddIsolateStops | crates/systeml-deps/src/transaction.rs:359-391 | appends the expansion of a stop for each target outside the exact closure of the root |
| Transactions.TxBuilder.ApplyMode | crates/systeml-deps/src/transaction.rs:420-462 | each mode cancels or refuses as documented against the existing jobs |
| Transactions.Build | crates/systeml-deps/src/transaction.rs:87-147 | which requests are refused and why, in order; otherwise the transaction delivers the jobs of the expansion, ordered and numbered, and ids are taken only on success |
| Transactions.Finish | crates/systeml-deps/src/transaction.rs:124-146 | orders the jobs unless told not to, gives them consecutive ids, or reports a cycle without taking ids |
| Transactions.AssignIds | crates/systeml-deps/src/transaction.rs:137-144 | each ordered unit contributes its job once, with the next id and the mode of the transaction |
| TransactionTheorems.TransactionIsOrdered | crates/systeml-deps/src/transaction.rs:127-135 | outside IgnoreRequirements no job comes before one it is declared After, or that is declared Before it |
| TransactionTheorems.RequirementsIgnored | crates/systeml-deps/src/transaction.rs:127-135 | under IgnoreRequirements cycles are no error and the jobs stand in the order of first request |
| TransactionTheorems.DependenciesIgnored | crates/systeml-deps/src/transaction.rs:225-227 | under IgnoreDependencies the job of the root stands alone |
| TransactionTheorems.OneJobPerUnit | crates/systeml-deps/src/transaction.rs:165-169 | exactly one job per requested unit, of the merged kind |
| TransactionTheorems.IdsIncreaseExactly | crates/systeml-deps/src/job.rs:54-57 | ids increase strictly if and only if the counter does not wrap within the transaction, and then none is the sentinel |
| TransactionTheorems.SurvivorsAgree | crates/systeml-deps/src/transaction.rs:420-462 | outside Flush, existing jobs left standing agree in kind with the new job of their unit; outside Flush and Fail exactly the disagreeing ones are cancelled; Flush cancels all |
| TransactionTheorems.CancelsInOrder | crates/systeml-deps/src/transaction.rs:424-461 | jobs are cancelled in the order in which they are queued |
| TransactionTheorems.FailRefusesExactly | crates/systeml-deps/src/transaction.rs:431-439 | Fail is refused if and only if some existing job disagrees with the new one |
| TransactionTheorems.IsolateTransaction | crates/systeml-deps/src/transaction.rs:118-146 | the isolate guarantees, on the jobs of the finished transaction |
| TransactionTheorems.IsolateTransactionExactly | crates/systeml-deps/src/transaction.rs:113-137 | beyond the units of the root's expansion an isolate transaction has a job, a stop, for exactly the units such chains reach |
| TransactionTheorems.IsolateSparesNeighbours | crates/systeml-deps/src/transaction.rs:366-415 | a unit that the root, or anything kept for it, pulls in or orders itself before or after gets no job unless a stop propagates to it |
| TransactionTheorems.StartableExactly | crates/systeml-deps/src/transaction.rs:268-293 | every loaded unit can be started if and only if hard dependencies of loaded units are loaded |
| TransactionTheorems.PullOrder | crates/systeml-deps/src/transaction.rs:259-345 | pulls follow the links in order; a stop takes incoming links first, a restart outgoing ones |
| TransactionTheorems.SwallowedFailure | crates/systeml-deps/src/transaction.rs:268-293 | for a root that wants, upholds, verifies or conflicts with a unit before it requires it, the start succeeds although a chain of hard dependencies from the root is broken |
| TransactionTheorems.RevisitIsNotExpanded | crates/systeml-deps/src/transaction.rs:220-223 | a unit can end as a restart while what it requires is not requested at all |
| TransactionTheorems.IsolateStopsCascade | crates/systeml-deps/src/transaction.rs:384-390 | an isolate stop propagates into the closure and turns a start there into a restart |
| Civil.YearStep | crates/systeml-unit/src/schedule.rs:260-274 | the closed form for days before a year steps by the leap rule |
| Civil.MonthStarts | crates/systeml-unit/src/schedule.rs:260-274 | the days before each month of the year, in numbers |
| Civil.MonthsFillYear | crates/systeml-unit/src/schedule.rs:260-274 | the twelve month lengths add up to the year |
| Civil.DayNumberMonotone | crates/systeml-unit/src/schedule.rs:276-280 | day numbers order dates exactly as the calendar does |
| Civil.DateRoundTrip | crates/systeml-unit/src/schedule.rs:276-280 | the date read back from a day number is the date it was made from |
| FieldSets.BinarySearchFinds | crates/systeml-unit/src/calendar.rs:30-37 | the binary search finds a value if and only if it is listed |
| FieldSets.MatchesIsAdmits | crates/systeml-unit/src/calendar.rs:30-37 | on the lists the parser leaves, matching is membership |
| FieldSets.NextInSet | crates/systeml-unit/src/schedule.rs:246-258 | the least listed value in range that is at least `after`, none exactly when there is none |
| Schedule.FirstFireMeans | crates/systeml-unit/src/schedule.rs:7-9 | the naive search returns the least matching instant before the horizon, and none exactly when there is none |
| Schedule.DaysInMonthIsMonthLength | crates/systeml-unit/src/schedule.rs:260-274 | the difference of two firsts of month is the calendar's month length, the out-of-range fallback included |
| Schedule.SkipYear | crates/systeml-unit/src/schedule.rs:32-43 | the jump to an allowed year passes over non-matching instants only and advances |
| Schedule.SkipMonth | crates/systeml-unit/src/schedule.rs:44-70 | the same for months, with the wrap into the next year |
| Schedule.SkipDay | crates/systeml-unit/src/schedule.rs:71-106 | the same for days, with the bump to the next month |
| Schedule.SkipWeekday | crates/systeml-unit/src/schedule.rs:107-137 | the same for weekdays, a day at a time |
| Schedule.SkipHour | crates/systeml-unit/src/schedule.rs:138-158 | the same for hours, with the bump to the next midnight |
| Schedule.SkipMinute | crates/systeml-unit/src/schedule.rs:159-181 | the same for minutes |
| Schedule.SkipSecond | crates/systeml-unit/src/schedule.rs:182-204 | the same for seconds |
| Schedule.CastIsHarmless | crates/systeml-unit/src/schedule.rs:33 | casting a negative year to 32 unsigned bits never makes it match a listed year |
| Schedule.Step | crates/systeml-unit/src/schedule.rs:31-210 | a round either finds that all seven fields match or skips soundly |
| Schedule.NextFire | crates/systeml-unit/src/schedule.rs:7-212 | the field-by-field search returns exactly what the naive search over (baseline, baseline + 3660 days) returns, and terminates |
| CalendarLaws.NextFireMeans | crates/systeml-unit/src/schedule.rs:7-34 | the result is the first firing instant after both now and the last fire, if it comes within 3,660 days of the later of the two |
| CalendarLaws.DailyAt | crates/systeml-unit/src/schedule.rs:138-204 | a schedule for one time of every day next fires at the next such second of a day |
| CalendarLaws.WeeklyAt | crates/systeml-unit/src/schedule.rs:107-137 | a schedule for midnight of one weekday next fires at the next such midnight, Mondays counted from 1 January of year 1 |
| CalendarLaws.MonthlyStep | crates/systeml-unit/src/schedule.rs:71-106 | the monthly schedule fires on the first of every month, 31, 28 or 29, 31, 30 and so on days after the first of the month before |
| CalendarLaws.UnixEpoch | crates/systeml-unit/src/schedule.rs:5-5 | 1 January 1970 is a Thursday, 719,162 days after 1 January of year 1 |
| Schedule.FiringTimesMean | crates/systeml-unit/src/schedule.rs:214-221 | the list of firing instants of a window is exactly those, in increasing order |
| Schedule.PrevFire | crates/systeml-unit/src/schedule.rs:214-244 | the capped walk returns the last firing instant of the 366-day window, or the 200,000th if there are more |
| Schedule.PrevFireIsLatestExactly | crates/systeml-unit/src/schedule.rs:214-244 | none exactly when nothing fires in the window; the result is the greatest instant of the window if and only if the window holds at most 200,000 |
| CalendarLaws.PrevFireMeans | crates/systeml-unit/src/schedule.rs:214-244 | the latest firing instant of the 366 days up to and including the given instant, or the 200,000th of them if there are more |
| ScheduleLiveness.FiresWithinAYear | crates/systeml-unit/src/schedule.rs:26-212 | a schedule with wildcard year and weekday that admits a date existing in every year fires at most 366 days after the baseline |
| ScheduleLiveness.FiresExactlyWhenPossible | crates/systeml-unit/src/schedule.rs:7-9 | with wildcard year and weekday the search succeeds if and only if the fields admit some date of a leap year, and otherwise the schedule never fires |
| ScheduleLiveness.HorizonMissesMondayLeapDay | crates/systeml-unit/src/schedule.rs:7-9 | a schedule that does fire later is reported as never firing once weekdays are constrained |
| Horizons.HorizonIsNeverExactly | crates/systeml-unit/src/schedule.rs:7-9 | finding nothing means "never", from every baseline, if and only if the schedule never fires, or has wildcard year and every firing of one 400-year cycle is followed by another within the horizon |
| Horizons.HorizonIsNeverForDates | crates/systeml-unit/src/schedule.rs:7-9 | with wildcard weekdays: if and only if the year is a wildcard or the schedule never fires |
| Horizons.FiresCycle | crates/systeml-unit/src/schedule.rs:26-204 | a schedule with wildcard year repeats every 400 years |
| Horizons.HorizonMissesNewYear2040 | crates/systeml-unit/src/schedule.rs:28-32 | a single listed date sixteen years ahead is reported as never firing |
| Horizons.HorizonMissesFriday15January | crates/systeml-unit/src/schedule.rs:28-32 | a Friday 15 January is missed although it comes round after eleven years |
| FieldParsing.ParseField | crates/systeml-unit/src/calendar.rs:251-287 | a wildcard, or a non-empty strictly increasing list in range that is exactly the union of the chunks' stepped ranges; an error is that of the first chunk that fails |
| FieldTexts.DecimalReads | crates/systeml-unit/src/calendar.rs:259-272 | a number written in decimal reads as itself if it fits 32 bits, with or without a plus sign |
| FieldTexts.ChunkReads | crates/systeml-unit/src/calendar.rs:257-274 | a written chunk reads as its range and step, and fails only when the range is backwards or out of bounds |
| FieldTexts.StepZeroFails | crates/systeml-unit/src/calendar.rs:275-282 | a step of zero is an error |
| FieldTexts.StepOverflows | crates/systeml-unit/src/calendar.rs:275-282 | and so is a step that leaves 32 bits after the last value listed, and no other |
| FieldTexts.FieldReads | crates/systeml-unit/src/calendar.rs:251-287 | a field of one chunk lists the start of its range and every so many after it up to its end |
| FieldParsing.Walk | crates/systeml-unit/src/calendar.rs:275-282 | the stepping loop yields exactly the stepped range, fails on step zero, and leaves 32 bits exactly when one step past its last value does |
| FieldParsing.ReachesMultiple | crates/systeml-unit/src/calendar.rs:275-282 | every whole number of steps from the start is reached |
| FieldParsing.ReachedCount | crates/systeml-unit/src/calendar.rs:275-282 | nothing else is |
| FieldParsing.SortDedup | crates/systeml-unit/src/calendar.rs:284-286 | sorting and removing duplicates keeps the members and makes the list strictly increasing |
| FieldParsing.ParseWeekdays | crates/systeml-unit/src/calendar.rs:192-218 | exactly the weekdays the chunks name, ranges wrapping round the week, or an unknown weekday among the chunks |
| FieldTexts.DayReads | crates/systeml-unit/src/calendar.rs:179-190 | Mon to Sun are the days 1 to 7 |
| FieldTexts.OnlyTheseDays | crates/systeml-unit/src/calendar.rs:179-190 | nothing else names a weekday |
| FieldTexts.WeekdaysRead | crates/systeml-unit/src/calendar.rs:192-218 | a weekday reads as itself and a range as the days from one to the other, Monday after Sunday |
| FieldParsing.WeekdaysBetween | crates/systeml-unit/src/calendar.rs:198-210 | exactly the days met walking round the week from the first to the last |
| Timers.NextOverall | crates/systeml-runtime/src/timer/mod.rs:46-130 | the earliest of the catch-up, calendar and relative candidates, none exactly when there is none |
| Timers.CalendarBest | crates/systeml-runtime/src/timer/mod.rs:75-91 | the earliest of catch-up and calendar instants |
| Timers.CatchUp | crates/systeml-runtime/src/timer/mod.rs:75-85 | catch-up is due exactly when the timer is persistent and some calendar's known past instant lies after the anchor |
| Timers.RelativeBest | crates/systeml-runtime/src/timer/mod.rs:92-128 | the earliest of the given instant and the five relative triggers still to come |
| Timers.RelativeTriggers | crates/systeml-runtime/src/timer/mod.rs:92-128 | without calendars the deadline is the earliest of the five triggers still to come, both the startup and the boot trigger counting from the manager's start |
| Timers.Relative | crates/systeml-runtime/src/timer/mod.rs:92-99 | one relative trigger, kept only if it is later than now and earlier than the best so far |
| Timers.NextIsLater | crates/systeml-runtime/src/timer/mod.rs:87-91 | calendar candidates lie after both now and the last fire |
| Timers.NowMeansCatchUp | crates/systeml-runtime/src/timer/mod.rs:61-85 | a deadline is never in the past, and is now if and only if the timer catches up |
| Timers.PersistentCatchesUpExactly | crates/systeml-runtime/src/timer/mod.rs:61-85 | within the walk's cap a persistent timer is due now if and only if an instant of its fell after the last fire within 366 days |
| Timers.NonPersistentIsLater | crates/systeml-runtime/src/timer/mod.rs:75-91 | a timer that is not persistent is never due now |
| Timers.DeadlineUnique | crates/systeml-runtime/src/timer/mod.rs:46-130 | the deadline contract determines the deadline |
| Timers.DeadlineIsFresh | crates/systeml-runtime/src/timer/mod.rs:75-91 | a deadline lies at or after now and strictly after every last fire not in the future |
| Timers.TimerScheduler.constructor | crates/systeml-runtime/src/timer/firing.rs:68-83 | a scheduler starts with no fires of its own and whatever stamps are on disk |
| Timers.TimerScheduler.ComputeNext | crates/systeml-runtime/src/timer/firing.rs:148-187 | the earliest deadline over all active timers and the first timer that has it, none exactly when no timer has one |
| Timers.TimerScheduler.Fire | crates/systeml-runtime/src/timer/firing.rs:189-245 | the last fire is recorded exactly when the service started, the stamp exactly when it was also written |
| Timers.TimerScheduler.Iterate | crates/systeml-runtime/src/timer/firing.rs:100-145 | a round of the loop is a step of the run relation and keeps the run invariant |
| Timers.Memory.EarliestStep | crates/systeml-runtime/src/timer/firing.rs:175-184 | the running minimum after one more timer |
| Timers.SchedState.RoundKeepsValid | crates/systeml-runtime/src/timer/firing.rs:100-145 | every round keeps the recorded fires of each timer strictly increasing |
| Timers.RunFiresIncrease | crates/systeml-runtime/src/timer/firing.rs:100-245 | over every run under a monotone clock the recorded fires of each timer strictly increase and none is forgotten |
| TimerRuns.LastFireIsRemembered | crates/systeml-runtime/src/timer/firing.rs:169-174 | in every state of every run the scheduler remembers the last fire it recorded for each timer |
| TimerRuns.NoCatchUpUntilNextInstant | crates/systeml-runtime/src/timer/firing.rs:100-245 | over every run: after a successful fire at T a timer is not due at once until an instant later than T has passed, and a persistent one within the cap of the walk back is due exactly then |
| Stamps.StampDecides | crates/systeml-runtime/src/timer/firing.rs:169-174 | over every run of a fresh scheduler: until a persistent timer first fires it is due at once if and only if an instant of it passed since its stamp on disk, or, without one, since the manager's start |
| Stamps.FireOverridesStamp | crates/systeml-runtime/src/timer/firing.rs:169-174 | once it has fired, since its last fire, whatever the stamp |
| Stamps.RoundRecordsFire | crates/systeml-runtime/src/timer/firing.rs:234-245 | a fire is recorded for the timer and instant waited for, on disk exactly when the stamp was written |
| Stamps.RestartRemembers | crates/systeml-runtime/src/timer/firing.rs:169-174 | after a restart a timer is due at once if and only if an instant of it passed since its last fire, if the stamp of that was written, and else since the stamp before |
| TimerRuns.InstantsServedOnce | crates/systeml-runtime/src/timer/firing.rs:100-245 | over every run, between any two recorded fires of a timer driven by its calendar alone lies an instant of it: none is served twice |
| TimerRuns.FiresAhead | crates/systeml-runtime/src/timer/firing.rs:150-245 | a timer that is not persistent only ever records fires after the clock reading of the run's start |
| TimerRuns.SharedInstantServedExactly | crates/systeml-runtime/src/timer/firing.rs:148-187 | a timer that is not persistent is served for the instant the scheduler waits for, then or ever after, if and only if it is the first listed with that deadline and its start succeeds |
| TimerRuns.FirstOwedIsNext | crates/systeml-runtime/src/timer/firing.rs:148-187 | while any timer is owed a fire the next deadline is now, and it is that of the first listed timer that is owed one |
| TimerRuns.OwedExactly | crates/systeml-runtime/src/timer/mod.rs:75-85 | within the cap, a persistent timer is owed a fire if and only if an instant of it passed since the last |
| TimerRuns.OwedTimerIsServed | crates/systeml-runtime/src/timer/firing.rs:100-245 | over every run within the cap, an owed timer is served, unless its instant leaves the lookback window, within as many rounds as fires owed at the start and instants arriving between rounds at or before it, plus the rounds interrupted or failed |
| TimerRuns.OwedTimerStarves | crates/systeml-runtime/src/timer/firing.rs:231-245 | as long as an owed timer listed before it cannot be started, an owed timer is not served in any number of rounds |
| TimerRuns.StarvationHappens | crates/systeml-runtime/src/timer/firing.rs:231-245 | two timers for one instant: a year of rounds in which the first cannot be started never serves the second |
| TimerRuns.BusyNeighbour | crates/systeml-runtime/src/timer/firing.rs:148-187 | two timers: a year of midnights at each of which the daily one, listed first, is served never serves the other, owed a fire all along |
| Inis.Parse | crates/systeml-unit/src/ini.rs:80-163 | the index-driven loop computes the line-by-line reading of the text, errors and line numbers included |
| Inis.Accumulate | crates/systeml-unit/src/ini.rs:96-117 | the continuation loop folds exactly the lines that belong to one logical line, or runs off the end |
| Strings.WhiteSpace | crates/systeml-unit/src/ini.rs:99-119 | the twenty-five characters that trimming removes |
| Continuations.ContinuedLineJoins | crates/systeml-unit/src/ini.rs:95-117 | a text reads, line numbers aside, like the same text with a continued line and its next replaced by one line: the first up to the backslash, a space, and the second without leading blanks and carriage return |
| Continuations.ContinuedLinesJoin | crates/systeml-unit/src/ini.rs:95-117 | the same for any number of continued lines in a row |
| Continuations.NothingToContinue | crates/systeml-unit/src/ini.rs:100-111 | a backslash on the last line is an error at the line that opens it |
| Inis.LineOnlyAdds | crates/systeml-unit/src/ini.rs:119-160 | a logical line adds at most one entry, with its key, value and line number, to the section then current, and loses or reorders nothing |
| LineForms.CommentIgnored | crates/systeml-unit/src/ini.rs:119-125 | blank lines and lines that begin with # or ; change nothing |
| LineForms.HeaderOpens | crates/systeml-unit/src/ini.rs:127-137 | a bracketed name opens its section, which keeps its place and entries if it was there |
| LineForms.HeaderUnclosed | crates/systeml-unit/src/ini.rs:128-132 | without its closing bracket it is an error at that line |
| LineForms.DirectiveAdds | crates/systeml-unit/src/ini.rs:139-160 | a directive adds one entry to the open section, of the trimmed texts around its first equals sign and with its line number, and is an error outside sections |
| LineForms.NoDirective | crates/systeml-unit/src/ini.rs:139-150 | any other line is an error at that line |
| LineForms.ErrorsStay | crates/systeml-unit/src/ini.rs:82-163 | after an error what follows does not matter |
| Inis.EntriesPointHome | crates/systeml-unit/src/ini.rs:19-28 | every parsed entry is what the text says at the entry's own line number, and the entries of a section stand in the order of their lines |
| Inis.EffectiveList | crates/systeml-unit/src/ini.rs:62-77 | the pushing and clearing loop keeps exactly the entries after the last reset |
| Inis.EffectiveLayers | crates/systeml-unit/src/ini.rs:62-77 | a later layer replaces the list if it resets the key and otherwise adds to it |
| LineForms.EffectiveOne | crates/systeml-unit/src/ini.rs:62-77 | a single entry counts for its own key, once, unless its value is blank |
| Layering.FoldedAppend | crates/systeml-unit/src/ini.rs:96-117 | a logical line complete within its text reads the same when more text follows |
| Layering.ParseAppend | crates/systeml-unit/src/ini.rs:82-163 | parsing goes on where the first text left off |
| Layering.ParseOver | crates/systeml-unit/src/load.rs:128-137 | a text that parses on its own lays its sections under whatever came before |
| Layering.ParseErased | crates/systeml-unit/src/ini.rs:89-89 | where a text starts changes line numbers and nothing else |
| Layering.MergeExtend | crates/systeml-unit/src/load.rs:131-137 | extending the lower layer commutes with merging |
| Layering.LayeringIsConcatenation | crates/systeml-unit/src/load.rs:128-139 | if two sources parse, the first, a newline and the second parse to the section-wise ordered merge, line numbers aside |
| Layering.MergedEffectiveList | crates/systeml-unit/src/load.rs:128-139 | the effective list of a merge is the drop-in's own if it resets the key, else both lists in order |
| Rendering.RenderIni | crates/systeml-unit/src/load.rs:150-165 | the nested loops print each section as its header, its entries and a blank line, in order |
| Rendering.ParsedIsGood | crates/systeml-unit/src/ini.rs:119-160 | whatever the parser builds can be printed safely: values never end in a backslash, keys never contain an equals sign or start like a header or comment |
| Rendering.GoodMerge | crates/systeml-unit/src/load.rs:131-137 | merging keeps that |
| Rendering.SectionReads | crates/systeml-unit/src/load.rs:152-163 | a printed section reads back as itself |
| Rendering.RenderRoundTrip | crates/systeml-unit/src/load.rs:140-165 | printing and parsing is the identity, line numbers aside, on every parse result and every merge of them |
| Loading.LayDropin | crates/systeml-unit/src/load.rs:130-137 | the loop over a drop-in's sections computes the section-wise merge |
| Loading.ApplyDropins | crates/systeml-unit/src/load.rs:108-148 | the files of a directory are merged in order, printed, parsed again and checked; the first file that cannot be read or parsed, else a rejected result, decides the error |
| Loading.DropinsAreConcatenation | crates/systeml-unit/src/load.rs:123-145 | applying drop-ins is parsing the concatenated text, line numbers aside |
| Loading.MergeAllErased | crates/systeml-unit/src/load.rs:128-137 | line numbers below do not influence what a merge contains |
| Loading.DirectoryApplied | crates/systeml-unit/src/load.rs:108-148 | a unit that reads like the text so far still does after one more directory |
| Loading.MergeAccepted | crates/systeml-unit/src/spec.rs:188-209 | a merge is accepted if and only if both layers are, since entries are accepted or rejected one by one |
| Loading.AcceptedAllAlong | crates/systeml-unit/src/load.rs:108-148 | what is accepted after the last directory was accepted after each one before: no later directory repairs an earlier one |
| Loading.Load | crates/systeml-unit/src/load.rs:36-64 | loading succeeds if and only if every file can be read and parsed and every entry of the concatenated text is accepted; the raw ini is then that of the concatenated text, line numbers aside; otherwise the first trouble, directory by directory, decides the error |
| ShellSplits.ShellSplit | crates/systeml-unit/src/exec.rs:121-182 | the character loop computes the reading of the quoting machine, errors included |
| ShellSplits.ScanSingle | crates/systeml-unit/src/exec.rs:140-148 | the single-quote loop |
| ShellSplits.ScanDouble | crates/systeml-unit/src/exec.rs:149-171 | the double-quote loop with its escapes and its error |
| ShellSplits.PieceReads | crates/systeml-unit/src/exec.rs:128-177 | a stretch written plain, in single quotes, in escaped double quotes or escaped throughout adds exactly its text to the current word |
| ShellSplits.EscapesRead | crates/systeml-unit/src/exec.rs:136-170 | what a backslash and each character stand for inside double quotes and outside |
| ShellSplits.BlanksSeparate | crates/systeml-unit/src/exec.rs:129-135 | spaces and tabs separate words, and nothing else does |
| ShellSplits.WordsRead | crates/systeml-unit/src/exec.rs:128-181 | a line of written words yields exactly their texts after those already read |
| ShellSplits.SplitUndoesQuoting | crates/systeml-unit/src/exec.rs:121-182 | for every list of words, empty ones included, however each stretch is quoted and whatever blanks separate them, splitting gives back exactly the words |
| ShellSplits.SplittingFailsExactly | crates/systeml-unit/src/exec.rs:121-182 | on every line: splitting fails if and only if the line ends in a dangling escape, and a line that ends inside quotes reads the same with the closing quote added |
| ShellSplits.UnterminatedQuotesClose | crates/systeml-unit/src/exec.rs:142-170 | an instance: a line that is one open quote and its text reads as that text |
| TriggerLimiters.TriggerLimiter.FromUnit | crates/systeml-runtime/src/path/mod.rs:115-128 | defaults: burst 200, and two seconds when a burst comes without an interval |
| TriggerLimiters.TriggerLimiter.Allow | crates/systeml-runtime/src/path/mod.rs:130-152 | the decision and the whole new state |
| TriggerLimiters.Unlimited | crates/systeml-runtime/src/path/mod.rs:131-136 | without an interval every call is accepted |
| TriggerLimiters.WindowMeans | crates/systeml-runtime/src/path/mod.rs:137-152 | the first call opens a window that includes its end; within it calls are allowed while the burst lasts, and the first call after it opens the next |
| TriggerLimiters.AcceptedFitsRoom | crates/systeml-runtime/src/path/mod.rs:130-152 | from any reachable state, what later calls can still add to a span |
| TriggerLimiters.SpanBound | crates/systeml-runtime/src/path/mod.rs:130-152 | over any run under a monotone clock a span no longer than the interval holds at most 2·max(burst,1)−1 accepted triggers |
| TriggerLimiters.SpanBoundAttained | crates/systeml-runtime/src/path/mod.rs:130-152 | for every positive burst and interval some run attains that bound |

## Left out

- TopoSort.TopoOrder: does not fix which of several admissible orders is returned; the queue is first-in first-out, but no caller relies on it.
- Schedule.NextFire: sub-second parts of `now` survive into the original's results; instants here are whole seconds, and a baseline whose ten-year horizon leaves the `time` crate's years, where the original panics, is excluded.
- FieldParsing.ParseField: a step that leaves 32 bits panics in a debug build and wraps in a release build; both are the one error `StepOverflow` here.
- Timers.TimerScheduler.Iterate: which timers are active, the clock reading and how the wait ended are inputs of each round; the clock is taken never to go back.
- Loading.Load: directories are given as their files in sorted order, and the typed view is a parameter that accepts or rejects each entry by its section, key and value; which it accepts, and its warnings, are not modelled.
- Unit names: their text, parsing and templates; names are abstract and only compared.
- `Transaction::root`, the never-returned errors `Conflict` and `NotApplicable`, the `via` argument and logging.
- Whole `OnCalendar=` strings: shortcuts, date and time splitting, and timezones, which the search ignores anyway.
- Durations: parsing is floating-point, and only whole seconds enter the deadlines.
- The scheduler's `triggers` map, sub-states and event handling, which do not influence deadlines or last fires.
- Reading and writing stamp files: the stamps are a map, and a write either happens or does not.
- `strip_flags` and the rest of `ExecCommand::parse`: a list of prefix characters.
- `Ini::last` and `Ini::all`: one-line filters.
- Path predicates, globbing, kqueue, sockets, service processes, the registry, D-Bus, the journal and the command line: foreign calls, input and output, or long case lists.
