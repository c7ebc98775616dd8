# MapColoring CSP engine, modelled in Dafny

This project models the constraint-satisfaction engine of MapColoring
(`lib/`):

- **Variable** (`variables.dfy`): a mutable cell. It has a mutable domain and an optional value. The value setter refuses a value outside the domain.
- **Constraint** (`constraints.dfy`): a relation over an ordered list of participant variables.
  - `check()` is vacuously true while some participant is unassigned.
  - A binary constraint can `revise(x)`, which drops the values of `x` that have no support in the other endpoint's domain.
- **Csp** (`csps.dfy`): the registry of variables and constraints. It keeps:
  - the index from each variable to its constraints;
  - the set of unassigned variables;
  - `assign` with rollback;
  - the worklist AC-3 (`apply_ac3`) of a binary CSP.
- **BacktrackSolver** (`solvers.dfy`): depth-first backtracking driven by `assign`.
  - The plain solver works on a deep copy of the caller's CSP.
  - The binary solver works on the caller's own CSP, and can prune it with AC-3 first.

## How the Python maps to Dafny

- Variables, constraints, registries and solvers are Dafny classes. Their fields change in place, as in the Python.
- Python's `None` value is `Option.None`.
- Domains are `set<int>`.
- A constraint function is a total `seq<int> -> bool`. It receives the participants' values in order.
- Each exception becomes a failure outcome: `InvalidValueError`, `InconsistentCspError`, and the `ValueError` of `BinaryConstraint`.
- A loop over a Python set takes its elements in an order the model leaves open (a `:|` choice). Every proved property holds for any iteration order.

## What is proved

- Assignment:
  - `assign` succeeds exactly when the setter accepts the value and every incident constraint accepts it.
  - On failure, `assign` leaves the unassigned set as it was.
  - `assign` always keeps the invariant "the unassigned set is exactly the variables holding `None`".
  - A successful `assign` keeps the invariant "every constraint checks true". A failed one can break it, when the old value cannot be restored (see below).
- AC-3:
  - AC-3 terminates.
  - Domains only shrink and no value changes.
  - Afterwards every arc is consistent, so a second run changes nothing.
  - Every arc-consistent family of sub-domains of the old domains survives, so AC-3 computes the largest one.
  - When every relation is symmetric, AC-3 loses no solution.
- The backtracking search:
  - It is sound: success leaves nothing unassigned, keeps every earlier value, and gives every new value from its domain.
  - It is complete: the search fails only when no completion of the start state exists.
  - On failure it restores every value and the unassigned set.
- The deep copy is a faithful copy on fresh objects.
- The plain solver on its copy:
  - It succeeds whenever some assignment completes the caller's CSP.
  - On success, when every constraint of the caller's CSP checked true at the start, the copy's values, read back as values of the caller's variables, satisfy every constraint of the caller's CSP.

## Behaviour of the code worth knowing

The model follows the code in each case.

- **Rollback of `assign` is not atomic.** The rollback in `assign` restores the old value through the validating setter (`lib/csp.py:47-49`, `lib/variable.py:16-21`).
  - When the setter itself refuses the candidate, the value never changed and the variable keeps its old value.
  - When the setter accepted the candidate but an incident constraint rejected it, the old value is written back. If the old value has left the domain meanwhile, that setter raises, and the variable keeps the rejected candidate.
  - In that last case an incident constraint no longer checks true. The unassigned set still matches the values, because the kept candidate is not `None` and the variable was already assigned.
  - `Csps.Csp.Assign` states exactly this.
- **The binary solver works on the caller's CSP.** `BacktrackCspSolver.__init__` deep-copies the CSP, and its comment says `self.csp` should not change after that (`lib/backtrack_solver.py:13`). `BacktrackBinaryCspSolver.__init__` nevertheless rebinds `self.csp` to the caller's object (`lib/backtrack_solver.py:43`).
  - AC-3 and the search then change the caller's variables.
  - `Solvers.BacktrackSolver.Binary` states this.
  - Only the plain solver works on a copy.
- **Calls to members that do not exist.** The MRV and LCV branches of `BinaryCsp` call `get_other_variable` and `check(overriding_values=...)` and read `original_domain` (`lib/csp.py:111-117`, `lib/csp.py:134-140`). `lib/constraint.py` and `lib/variable.py` define none of them, so those branches raise `AttributeError` when reached. The model leaves them out (see "Left out").
- **Argument order in `revise`.** `revise` always calls the constraint function with the revised variable's value first (`lib/constraint.py:48`).
  - For an order-sensitive relation this can remove a value that belongs to a solution.
  - `Constraints.ReviseSecondEndpointPrunesSolution` exhibits such a case.
  - This is why the AC-3 solution-preservation results assume symmetric relations. All relations in the repository's tests and map colouring are symmetric (`!=`, `==`).

## Model

| member | source | states |
|---|---|---|
| Variables.Variable.constructor | lib/variable.py:5-10 | an omitted domain is the empty set; a new variable is unassigned |
| Variables.Variable.SetValue | lib/variable.py:16-21 | the setter succeeds exactly for `None` or a member of the domain; on success the getter returns the new value, on InvalidValueError the stored value is unchanged |
| Constraints.Constraint.constructor | lib/constraint.py:7-17 | a constraint keeps its participant list and function as given and is not binary |
| Constraints.Constraint.Binary | lib/constraint.py:27-31 | a binary constraint keeps its two participants and its function and can be revised |
| Constraints.NewBinary | lib/constraint.py:27-31 | construction fails with the arity error exactly when the participant list does not have two entries; otherwise the new constraint is revisable over the given participants |
| Constraints.Constraint.Check | lib/constraint.py:19-24 | `check()` is true whenever some participant is unassigned; once all are assigned it is the function applied to their values in participant order |
| Constraints.Constraint.UnassignedParticipantSatisfies | lib/constraint.py:20-22 | a constraint on a variable whose value is `None` checks true whatever the others hold |
| Constraints.Constraint.RejectedCandidate | lib/constraint.py:19-24 | when `check()` fails with `v` holding `x`, no full assignment that gives `v` the value `x` and agrees with the other participants satisfies the constraint |
| Constraints.Constraint.Other | lib/constraint.py:40-42 | the endpoint `revise(x)` works against is the participant other than `x` |
| Constraints.Constraint.HasSupport | lib/constraint.py:45-50 | the inner loop of `revise` finds a consistent partner exactly when the value has support in the other domain |
| Constraints.Constraint.Unsupported | lib/constraint.py:44-53 | the collected values are exactly the values of the domain without support |
| Constraints.Discard | lib/constraint.py:55-56 | the domain loses exactly the listed values |
| Constraints.Constraint.Revise | lib/constraint.py:33-58 | `revise(x)` leaves `x`'s domain as exactly its supported part (checked with `x`'s value first) and answers true exactly when that removed something; only `x`'s domain changes |
| Constraints.Revised | lib/constraint.py:33-58 | revision never adds values to a domain |
| Constraints.RevisedIsFixpoint | lib/constraint.py:33-58 | revising twice against the same support removes nothing the second time |
| Constraints.RevisedOfSubset | lib/csp.py:158-167 | a domain whose every value has support keeps that property when values are removed |
| Constraints.RevisedGrowsWithSupport | lib/csp.py:158-167 | revising against a larger support keeps at least as many values |
| Constraints.ReviseSecondEndpointPrunesSolution | lib/constraint.py:47-48 | with participants (u, w), relation `u < w` and domains {1}, {2}, the solution u=1, w=2 exists yet revising w empties its domain |
| Constraints.Constraint.SolutionValueSupported | lib/constraint.py:44-50 | an endpoint's value in a satisfying assignment has support in any domain holding the other endpoint's value, when it is the first participant or the relation is symmetric |
| Csps.Csp.constructor | lib/csp.py:12-16 | a new registry is empty and well formed |
| Csps.Csp.AddVariable | lib/csp.py:18-21 | the variable is registered, unassigned and indexed with no constraints, nothing else changes; a new unassigned variable keeps the registry consistent and fully checked |
| Csps.Csp.AddConstraint | lib/csp.py:23-26 | the constraint is registered and indexed under exactly its participants; values and the unassigned set are unchanged; the registry stays well formed, and fully checked when the new constraint checks true |
| Csps.Csp.Assign | lib/csp.py:28-49 | `assign(v, x)` succeeds exactly when the setter accepts `x` and every incident constraint checks true with `v` holding `x`; on success `v` holds `x` and joins or leaves the unassigned set by whether `x` is `None`; on InvalidValueError the unassigned set is unchanged, and `v` holds its old value unless the setter accepted `x` and then refused to restore the old value, in which case `v` keeps `x`; only `v`'s value changes; the unassigned set stays in step with the values on every path; every constraint still checks true after a success |
| Csps.Csp.IncidentChecked | lib/csp.py:39-41 | the loop accepts exactly when every constraint indexed under the variable checks true |
| Csps.CheckedAfterSet | lib/csp.py:39-41 | checking only the constraints on the assigned variable suffices to keep every constraint checking true |
| Csps.TracksUpdate | lib/csp.py:43-46 | moving the variable into or out of the unassigned set by whether its value is `None` keeps the unassigned set in step with the values |
| Csps.Csp.UnassignIsAdmissible | lib/csp.py:28-49 | `assign(v, None)` can never be refused |
| Csps.Csp.RefusedValue | lib/csp.py:37-41 | when `assign(v, x)` is refused, no completion of the current values gives `v` the value `x` |
| Csps.Csp.GetUnassignedVariable | lib/csp.py:51-59 | `None` exactly when nothing is unassigned, otherwise a member of the unassigned set |
| Csps.Csp.IsSolved | lib/csp.py:61-62 | solved exactly when the unassigned set is empty; in a consistent registry, exactly when every variable has a value |
| Csps.Csp.SolvedStateIsSolution | lib/csp.py:61-62 | once every variable has a value and every constraint checks true, the values form a solution |
| Csps.Csp.GetVariableUsedInCsp | lib/csp.py:64-69 | the lookup returns the variable itself when it is registered, and `None` otherwise (identity, so never a copy) |
| Csps.Csp.InitialArcs | lib/csp.py:154-156 | the queue holds both arcs of every constraint and only arcs of registered constraints |
| Csps.Csp.Enqueue | lib/csp.py:162-167 | the queue is extended, keeping its prefix, by the arc from the other endpoint of each constraint on the revised variable, and by nothing else |
| Csps.Csp.ReviseArc | lib/csp.py:161 | `revise` on a registered arc changes the registry's domains exactly as the pure revision does, and a productive revision removes a (variable, value) pair |
| Csps.Csp.Ac3Step | lib/csp.py:158-167 | one turn keeps the worklist invariant and either removes a (variable, value) pair or shortens the queue |
| Csps.Ac3Turn | lib/csp.py:158-167 | popping and revising an arc, then requeueing the arcs pointing at a changed variable, keeps the worklist invariant |
| Csps.ReviseStep | lib/csp.py:161-167 | after a productive revision the revised arc is consistent and only arcs pointing at the revised variable may have become inconsistent |
| Csps.Requeued | lib/csp.py:162-167 | requeueing those arcs restores "every arc off the queue is consistent" |
| Csps.PairsShrink | lib/csp.py:158-167 | a productive revision strictly shrinks the set of (variable, value) pairs, so the loop terminates |
| Csps.Csp.Propagate | lib/csp.py:158-167 | the worklist loop ends with the invariant and an empty queue, changing no value |
| Csps.Ac3Outcome | lib/csp.py:147-167 | with an empty queue every arc is consistent, domains only shrank, an arc-consistent start is left unchanged, every arc-consistent family of sub-domains of the start stays within the result, and with symmetric relations every solution survives |
| Csps.RevisePreservesSolution | lib/csp.py:161 | with a symmetric relation, revising keeps every solution within the domains |
| Csps.RevisePreservesSubdomains | lib/csp.py:161 | one revision keeps every value of an arc-consistent family of sub-domains |
| Csps.ReplayKeepsConsistentSubdomains | lib/csp.py:158-167 | any sequence of revisions keeps every arc-consistent family of sub-domains of the start |
| Csps.ReplayKeepsSolutions | lib/csp.py:158-167 | with symmetric relations, any sequence of revisions keeps a solution within the domains |
| Csps.ReplayKeepsAllSolutions | lib/csp.py:158-167 | the same, for all solutions at once |
| Csps.Csp.ApplyAc3 | lib/csp.py:147-167 | `apply_ac3()` changes no value, only shrinks domains, leaves every arc consistent, changes nothing when run on an arc-consistent CSP (so running it twice equals running it once), keeps every arc-consistent family of sub-domains of the old domains (so the result is the largest such family), and with symmetric relations keeps every solution |
| Solvers.DeepCopy | lib/backtrack_solver.py:12-13 | the copy is a fresh well-formed registry of fresh, distinct variables, one per original, with the original's domain, value and unassigned membership; constraints are fresh and renamed through the copy; the copy is consistent and fully checked when the original was; the original is unchanged |
| Solvers.TracksCopy | lib/backtrack_solver.py:13 | the copied unassigned set tracks the copied values |
| Solvers.CheckedCopy | lib/backtrack_solver.py:13 | renamed constraints check true on the copied values exactly as the originals did |
| Solvers.CopyVariables | lib/backtrack_solver.py:13 | every original variable gets one fresh copy with its domain, value and unassigned membership |
| Solvers.CopyConstraints | lib/backtrack_solver.py:13 | every original constraint gets one fresh copy over the copied participants with the same function and kind |
| Solvers.BacktrackSolver.Plain | lib/backtrack_solver.py:12-13 | the plain solver holds a fresh deep copy of the caller's CSP and does not use AC-3: fresh variables mirroring the caller's values, domains and unassigned set, and one renamed copy of each of the caller's constraints, with the same relation |
| Solvers.BacktrackSolver.Binary | lib/backtrack_solver.py:40-44 | the binary solver holds the caller's own CSP object and the given AC-3 flag; every variable and constraint stands for itself |
| Solvers.BacktrackSolver.Search | lib/backtrack_solver.py:15-22 | `solve()`: succeeds at once with nothing unassigned; success leaves nothing unassigned and refines the start values; failure raises InconsistentCspError and restores values and the unassigned set; the search fails for no completion of the start state; a fully checked start gives a solution |
| Solvers.BacktrackSolver.Backtrack | lib/backtrack_solver.py:24-37 | `_backtrack_solving(v)`: true leaves nothing unassigned and refines the entry values within their domains; false leaves values and the unassigned set as on entry; it returns true whenever a completion of the entry state exists |
| Solvers.BacktrackSolver.TryValue | lib/backtrack_solver.py:25-34 | one candidate: success solves the CSP; failure changes no variable other than the current one; a completion using this candidate makes it succeed |
| Solvers.BacktrackSolver.TryAssign | lib/backtrack_solver.py:26-29 | a refused candidate changes nothing and is used by no completion; an accepted one is stored and leaves the unassigned set |
| Solvers.BacktrackSolver.Descend | lib/backtrack_solver.py:31-34 | after an accepted candidate: succeed when nothing is unassigned, otherwise search on; a completion through the candidate makes it succeed |
| Solvers.BacktrackSolver.Release | lib/backtrack_solver.py:36 | the final `assign(variable, None)` always succeeds and restores the entry values and unassigned set |
| Solvers.BacktrackSolver.Prune | lib/backtrack_solver.py:46-48 | AC-3 before the search changes no value and no unassigned membership, only shrinks domains, leaves every arc consistent, keeps every arc-consistent family of sub-domains of the old domains (so the domains left are the largest such family), and with symmetric relations keeps every completion within the domains |
| Solvers.BacktrackSolver.Solve | lib/backtrack_solver.py:46-50 | the binary `solve()`: everything `Search` states, over domains that AC-3 (when enabled) only shrank to the largest arc-consistent family of sub-domains, the domains the caller's CSP is left with; without AC-3 domains are unchanged and any completion makes it succeed; with symmetric relations any completion within the domains makes it succeed |
| Solvers.SolveOnCopy | tests/test.py:58-88 | building the plain solver and solving leaves the caller's CSP and variables untouched; failure is InconsistentCspError; the search succeeds whenever some assignment completes the caller's CSP; on success with a fully checked caller, the copy's values read back through the copy map complete the caller's CSP, so every original constraint holds under them (hence a CSP with an always-false constraint fails) |
| Solvers.Mirrored | lib/backtrack_solver.py:13 | the copy's value and domain snapshots agree with the caller's at every copied variable |
| Solvers.RenamedHolds | lib/backtrack_solver.py:13 | a renamed constraint holds under the renamed assignment exactly when its original holds under the original |
| Solvers.RenamedSatisfies | lib/backtrack_solver.py:13 | the copied constraints all hold under a renamed assignment exactly when the caller's constraints hold under the original |
| Solvers.RenamedCompletes | lib/backtrack_solver.py:13 | an assignment completes the caller's CSP exactly when its renaming completes the copy |
| Solvers.PulledCompletes | lib/backtrack_solver.py:21-22 | a completed copy, read back through the copy map, completes the caller's CSP |

## Left out

- The MRV and LCV heuristics of `BinaryCsp` (`lib/csp.py:72-145`) are left out. This covers the sorted view of unassigned variables, the domain re-validation of neighbours in `assign`, and `get_values_for_variable`. With both flags off, `BinaryCsp` behaves as `Csp` plus `apply_ac3`, and that is what is modelled. Those code paths call `get_other_variable`, `check(overriding_values=...)` and `original_domain`, and none of these exist in `lib/constraint.py` or `lib/variable.py`.
- `lib/error.py` is not part of this model. Its exceptions are the `Error` variants. `InvalidConstraintError` is imported but never raised.
- `main.py` is not modelled. It covers map input, colouring set-up and printing, and is I/O.
- Domains are values, not shared Python set objects. Two Python variables built over one set object would see each other's AC-3 pruning; the model gives each variable its own domain.
- A constraint function is a total pure function on integers. A Python callable that raises, has side effects, or has the wrong arity (TypeError) is not modelled.
- Python's recursion limit on deep searches is not modelled.
- The binary solver's constructor first builds a deep copy, then discards it and keeps the caller's CSP. The discarded copy has no observable effect, so it is not modelled.
- Csps.Csp.AddConstraint: requires every participant to be registered. Otherwise the source raises KeyError part-way through, after some index entries were already updated. That error path is not modelled.
- Csps.Csp.Assign: requires the variable to be registered. For an unregistered variable the index lookup raises KeyError, which the rollback does not catch, and the model does not follow that path.
- Csps.Csp.AddVariable: re-registering a variable that already has constraints forgets them from the index. The model states the new fields, but promises a well-formed registry only for a new variable. Every other operation requires a well-formed registry.
- Csps.Csp.ApplyAc3: requires every constraint to be a binary constraint with two participants. In the source, a plain `Constraint` in a `BinaryCsp` makes `apply_ac3` fail with AttributeError.
- Solvers.BacktrackSolver.Solve: requires the unassigned set to match the variables holding `None`. Registering a variable that already holds a value, or setting `value` directly, breaks this in the source, and the search is not modelled from such a state.
- Solvers.BacktrackSolver.Plain: requires a well-formed registry whose binary constraints have two participants. The source's `deepcopy` copies any object graph.
- Solvers.SolveOnCopy: promises the read-back solution only when every constraint of the caller's CSP checks true on entry. Otherwise a constraint between two variables assigned before the search may already be violated, and the search, which checks only the constraints of the variable it assigns, never looks at it again.
