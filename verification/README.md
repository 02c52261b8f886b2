# temporis solver core in Dafny

temporis builds a weekly school timetable. Each class group needs a number
of sessions of each subject with a given teacher. Every session has to be
placed in a (timeslot, room) pair so that:

- no teacher, class or room is double-booked within a timeslot;
- the room's type matches the subject and the room seats the class;
- lunch slots stay free.

The solver has two parts, and this project models both.

- **Problem builder** (`solver/build_problem.py`): module `Builder` in
  `builder.dfy`. It turns the loaded context into CSP primitives:
  - the session count of a class-subject mapping;
  - the list of variables `(class, subject, teacher, session)`;
  - each variable's domain of `(slot, room)` placements;
  - the neighbour sets (the complete graph);
  - the clash test.

  Each step has a reference definition or predicate. Where the Python code
  loops, a method with the same loops is proved equal to that definition.
- **CSP engine** (`solver/csp.py`): module `Csp` in `csp.dfy`. It is
  generic in the variable type and the value type, and the consistency test
  is a function value. It models:
  - MRV variable choice;
  - LCV value order (a stable sort by conflict count);
  - forward checking with a per-candidate trail of pruned values;
  - restoring from the trail on backtrack;
  - the recursive search.

  The Python object's mutable state is the domains, the assignment and the
  trail. Here it is passed into and returned from each operation as values,
  so every property is a contract on inputs and results.

Two more files support these:

- `timetable.dfy` (module `Timetable`): the entities as the solver reads
  them, and the context record.
- `solve.dfy` (module `Solve`): the composition the solve endpoint runs
  (build, then search). It connects the engine's notion of a solution to
  the timetable rules, in both directions.

`seqs.dfy` holds sequence helpers: element sets, filtering, removal and a
stable insertion sort by key. `wrappers.dfy` holds `Option`.

Termination of the search is proved with decreasing measures. The outer
measure is the number of unassigned variables, and a rank orders the four
mutually recursive methods `Backtrack`, `TryAll`, `TryCandidate` and
`Descend`.

Two behaviours of the code are worth stating up front, and the model
follows both:

- **Restoring a domain after a failed candidate.** The pruned values are
  appended back to the end of each domain (`solver/csp.py:60-61`). A domain
  therefore comes back with the same values, but possibly in a different
  order. The model proves equality as a multiset (`SameDomains`).
- **Malformed configuration.** The builder does not reject or flag it, for
  example a subject with no compatible room. Such a variable simply gets an
  empty domain, and the search reports failure. The model does the same.

## Model

| member | source | states |
|---|---|---|
| Builder.SessionsFor | solver/build_problem.py:27-29 | a non-zero `required_hours` is the session count; a missing or zero one falls back on the subject's `hours_per_week` |
| Builder.SessionVars | solver/build_problem.py:34-36 | one mapping yields `max(n, 0)` variables whose session indices are 0, 1, ... in order, each carrying the mapping's class, subject and teacher |
| Builder.BuildSessions | solver/build_problem.py:35-36 | the `range(n)` loop yields exactly the mapping's session variables 0 .. n-1, none when `n <= 0` |
| Builder.BuildVariables | solver/build_problem.py:31-37 | the nested loops produce exactly the reference variable list (mapping order, then ascending session index) |
| Builder.VariablesAppend | solver/build_problem.py:33-36 | variables keep mapping order: the list for two runs of mappings is the first run's list followed by the second's |
| Builder.VariablesCount | solver/build_problem.py:31-37 | the variable list is as long as the sum of the session counts, a non-positive count adding none |
| Builder.VariablesMembers | solver/build_problem.py:31-37 | a variable is generated iff some mapping has its class, subject and teacher and a session count above its index |
| Builder.VariablesKnown | solver/build_problem.py:46-49 | every generated variable names a known class and subject, so the dictionary lookups of `build_domains` succeed |
| Builder.TimeslotOk | solver/build_problem.py:39-42 | false exactly on lunch slots, whatever the subject (`Builder.DomainMembers` and `Builder.NoLunch` build on it) |
| Builder.RoomsAtMembers | solver/build_problem.py:54-59 | the values for one slot are exactly that slot paired with each room of the subject's type that seats the class |
| Builder.DomainMembers | solver/build_problem.py:50-60 | a placement is in a domain iff its slot is a non-lunch slot and its room has the subject's type and seats the class (the full filtered product) |
| Builder.DomainAppend | solver/build_problem.py:51-59 | domain order is slot-major: values of earlier slots precede those of later slots |
| Builder.RoomsAtAppend | solver/build_problem.py:54-59 | within one slot the values follow room iteration order |
| Builder.NoLunch | solver/build_problem.py:39-42 | with unique slot ids, no domain value uses a lunch slot |
| Builder.BuildDomain | solver/build_problem.py:50-59 | the slot and room loops produce exactly the reference domain |
| Builder.BuildDomains | solver/build_problem.py:44-61 | there is one domain per generated variable, equal to the reference domain of its class and subject |
| Builder.AdjacentDistinct | solver/build_problem.py:63-72 | for distinct variables, "at two different positions of the list" is "both present and different" |
| Builder.LinkRow | solver/build_problem.py:65-71 | after the row of position `i`, exactly the pairs of positions whose first index is at most `i` are linked, both ways |
| Builder.CompleteGraph | solver/build_problem.py:63-72 | over distinct variables the neighbour set of each variable is every other variable |
| Builder.BuildNeighbors | solver/build_problem.py:63-72 | every variable has a set; `u` is a neighbour of `v` iff they sit at two different positions; the relation is symmetric; for distinct variables each set is all the others |
| Builder.Consistent | solver/build_problem.py:74-89 | true whenever the slots differ; otherwise false iff teacher, class or room coincide (exactly "no clash") |
| Builder.ConsistentSymmetric | solver/build_problem.py:76-88 | swapping the two variable-value pairs does not change the result |
| Csp.Init | solver/csp.py:4-9 | the engine's domain table has exactly the variables as keys and a copy of each caller domain |
| Csp.Mrv | solver/csp.py:11-13 | returns an unassigned variable whose current domain is no longer than any other unassigned one's; every earlier unassigned variable's is strictly longer (first among ties) |
| Csp.ConflictsZeroIff | solver/csp.py:16-26 | a value's conflict count is 0 iff it is consistent with each assigned neighbour's value and with every remaining value of each unassigned neighbour |
| Csp.Lcv | solver/csp.py:15-27 | a permutation of the current domain, sorted by ascending conflict count, keeping domain order among values with equal counts |
| Csp.FcVisit | solver/csp.py:30-39 | one neighbour visit: an assigned neighbour is left alone; otherwise its inconsistent values move to the trail; success iff the neighbour's domain was already empty or keeps a value consistent with `v := x`; on failure that neighbour is unassigned, its domain is now empty and its trail is not; every other neighbour's domain and trail are unchanged |
| Csp.ForwardCheck | solver/csp.py:29-40 | only unassigned neighbours change, each filtered to the values consistent with `v := x`; old domain = new domain + trail as multisets; success iff each unassigned neighbour's domain was already empty or keeps a value consistent with `v := x`; on success every remaining neighbour value is consistent with `v := x`; on failure exactly one unassigned neighbour has been pruned to empty with a non-empty trail, and no other domain has been emptied by pruning |
| Seqs.RemoveFirst | solver/csp.py:36 | `list.remove` takes one occurrence of a present value away (as a multiset) and leaves the list alone otherwise |
| Seqs.RemoveFirstAt | solver/csp.py:36 | the occurrence taken is the first one, and the values before and after it keep their order |
| Seqs.RemoveAllFiltered | solver/csp.py:33-36 | removing the inconsistent values one occurrence at a time leaves exactly the consistent ones, in their original order |
| Seqs.SortByKey | solver/csp.py:27 | `sorted` with a key: the result is ordered by key, is a permutation of the input, and keeps input order among equal keys |
| Csp.CompleteWhenFull | solver/csp.py:43-44 | for distinct variables, the size test succeeds iff every variable is assigned |
| Csp.Shrinks | solver/csp.py:53-56 | assigning the chosen variable reduces the number of unassigned variables, so the recursion terminates |
| Csp.Restore | solver/csp.py:60-61 | undo appends each trailed neighbour's pruned values to its domain and touches nothing else |
| Csp.RestoreExact | solver/csp.py:53-61 | after a candidate fails, appending the trail back gives every domain its pre-candidate contents as a multiset |
| Csp.ExtendPreservesSearchable | solver/csp.py:29-40 | after a successful forward check the search invariant holds for the extended assignment: domains only shrink, assigned values come from the initial domains and are consistent, and forward checking holds |
| Csp.LocalCheckComplete | solver/csp.py:48-52 | on the complete graph, a value rejected by the local check is part of no solution extending the assignment |
| Csp.WipeoutComplete | solver/csp.py:38-39 | on the complete graph, a value whose forward check empties a neighbour is part of no solution within the current domains |
| Csp.PruningComplete | solver/csp.py:33-37 | forward checking loses no solution that sets `v := x`, so failure below means no such solution exists |
| Csp.AllCandidatesExcluded | solver/csp.py:46-62 | once every value of the chosen variable is excluded, no solution extends the assignment within the current domains |
| Csp.Narrow | solver/csp.py:53-55 | the tentative assignment and its forward check: domains plus trail keep their contents; on success the search invariant holds one level down; on failure the value is excluded (complete graph) |
| Csp.TryCandidate | solver/csp.py:47-61 | a found assignment is a solution extending `v := x`; on failure domains are back as multisets and (complete graph) no solution sets `v := x` |
| Csp.Descend | solver/csp.py:53-61 | recursion after a passed local check; on failure the assignment is undone and every domain is restored as a multiset |
| Csp.TryAll | solver/csp.py:46-61 | the candidates are tried in order: a returned solution sets `v` to some candidate, and on the complete graph every earlier candidate is part of no solution; on failure domains are restored and every candidate is excluded |
| Csp.Backtrack | solver/csp.py:42-62 | a returned assignment is a solution: every variable assigned, values from the initial domains, neighbours consistent; `None` leaves the domains as they were (as multisets) and, on the complete graph, means there is no solution within them |
| Csp.Search | solver/csp.py:3-62 | a returned assignment is a solution; on the complete graph `None` means none exists |
| Solve.SolutionIsTimetable | solver/build_problem.py:44-89 | on the built problem, a CSP solution is exactly a timetable: every session placed in its domain and no two sessions clashing |
| Solve.Solve | routers/solve.py:18-25 | the result, if any, is a clash-free timetable of all sessions; `None` means no timetable exists |
| Solve.TimetableAvoidsLunch | solver/build_problem.py:39-53 | no session of a timetable sits in a lunch slot |
| Solve.TimetableRoomsFit | solver/build_problem.py:54-59 | every session of a timetable is in a room of the subject's type that seats the class |

## Left out

- `load_context` (database reads, the id dictionaries, the sort of timeslots by day and slot index): the context is an input record, and its slot list is taken as already sorted.
- The database, HTTP, CSV and seeding modules: they are I/O plumbing around the solver.
- The solve endpoint's status string, persistence and row count. An empty variable list makes the search return the empty assignment, which the endpoint reports as "infeasible" because an empty dict is falsy. `Solve.Solve` returns it as a (trivial) timetable instead.
- The persisted rows drop the session index: this happens in the persistence step, which is not modelled.
- Fields the solver never reads: names, codes, start and end times, the day and slot index of a timeslot (they serve only the slot sort in `load_context`), `allow_double_period`, `max_daily_load`, `unavailable_json`, and the teacher entity. They carry no semantics here.
- Referential integrity of the context (every mapping names a known class and subject) is a precondition (`Timetable.WellFormed`). The code performs no check and would raise `KeyError`.
- Distinct variables are a precondition of the engine (`Csp.WellFormed`) and of `Solve.Solve`. With duplicates, the size test never succeeds: once every distinct variable is assigned, `min` raises on an empty list, while an instance that fails earlier returns `None`.
- Python set iteration order over a neighbour set: `Csp.ForwardCheck` visits neighbours in an arbitrary order. This moves its early-exit point, and with it which neighbours get pruned values appended back after a failed candidate. The restored domain order, later LCV tie-breaks, and so which solution is returned are therefore not pinned down: Python's fixed iteration order over a set of tuples makes `solve()` return the same timetable on every run, but the model does not state that the result is deterministic.
- The LCV conflict total is summed over the variable list, restricted to the neighbours of `v`, rather than in set order. The sum is the same because every caller has `Csp.WellFormed` (distinct variables, neighbour sets inside the variable list).
- `list.remove` raising on a missing value: it cannot happen, because the removed values were just read from the same list.
- Csp.Search: the "no solution" direction is proved only when every two variables are neighbours (the graph `build_neighbors` builds). The local check compares against all assigned variables, not only neighbours, so on a sparser graph it can reject values that a solution uses.
- Csp.Backtrack: the same restriction to the complete graph applies to its "no solution within the current domains" clause.
- Csp.Backtrack: recursion depth is not bounded in the model. The Python search recurses once per assigned variable (`solver/csp.py:56`) under the interpreter's default limit of 1000 frames. A snapshot with roughly a thousand sessions therefore raises `RecursionError`, which the solve endpoint does not catch; the model returns a result there.
- Solve.TimetableAvoidsLunch: assumes unique slot ids. With a repeated id, a lunch slot could share its id with a usable slot that put the value in the domain.
