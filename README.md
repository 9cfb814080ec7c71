# Sudoku as a constraint-satisfaction problem: AC-3 and backtracking

This project models `solve.py`, a Sudoku solver built on a small generic
constraint-satisfaction engine, and proves properties of the model.

- `csp.dfy` (module `CspEngine`) holds the engine. A `Csp<V, D>` object keeps a
  mutable map `domains` from variables to candidate sets and a constraint graph
  `adjList`. The graph is a `const`, because the source never reassigns it. The
  only constraint is inequality: every arc (x, y) demands different values for x
  and y. The object offers:
  - `Revise`: arc revision;
  - `Solved` and `UnAssignedVars`: the completion tests;
  - `Ac3`: propagation with a FIFO queue, seeded by `InitialArcs` and refilled by
    `EnqueueNeighbours`;
  - `Backtrack`: search that runs AC-3 at every node, picks the unassigned
    variable with the fewest candidates (`SelectVariable`) and tries each of its
    values in a copy of the problem (`Branch`).
- `sudoku.dfy` (module `Sudoku`) holds the instance the script builds:
  - `Related`: same column, same row or same 3x3 box;
  - `InitialDomains`: the 81 cell domains read from the grid;
  - `Adjacency`: the constraint graph;
  - `SolveGrid`: the script's sequence of steps, without its printing.

What is proved:

- `Revise` replaces exactly one domain with its revision. `ReviseCases` says
  what that revision is in each case.
- AC-3 on any well-formed graph:
  - it only shrinks domains and keeps the variable set;
  - it terminates;
  - on failure, it has just emptied a domain that was non-empty before;
  - on success, it emptied no domain.
- When the graph is symmetric, AC-3 also:
  - leaves every arc consistent when it succeeds;
  - never discards a solution.
- Backtracking:
  - terminates;
  - on success, every domain is a singleton;
  - on a symmetric graph, a success also means the values form a solution
    within the domains it started from, and it succeeds exactly when such a
    solution exists.
- The Sudoku graph is symmetric and irreflexive, and has exactly the related
  distinct cells as neighbours. An engine solution on that graph is a filled grid
  obeying the Sudoku rule.

## Model

| member | source | states |
|---|---|---|
| CspEngine.Csp.constructor | solve.py:11-13 | the new object holds exactly the given domains and graph (no copying) |
| CspEngine.Revised | solve.py:16 | a revised domain is a subset of the original domain |
| CspEngine.ReviseCases | solve.py:16-17 | revising against an empty domain empties x. Against a singleton {w}, it removes only w. Against two or more values, it changes nothing. The domain changes iff y is a singleton whose value x holds, or y is empty and x is not |
| CspEngine.RevisedSupported | solve.py:16 | every surviving value has a differing partner in y |
| CspEngine.SupportSurvivesRevision | solve.py:16 | under the symmetric inequality constraint, values of y that were supported in x stay supported after x is revised |
| CspEngine.Csp.Revise | solve.py:15-19 | only the domain of x is replaced, by its revision against y. The result is true iff that domain changed |
| CspEngine.Csp.Solved | solve.py:21-22 | true iff no variable is unassigned and no domain is empty, i.e. every domain is a singleton |
| CspEngine.Csp.UnAssignedVars | solve.py:39-40 | exactly the entries whose domain has two or more values, with their domains unchanged |
| CspEngine.Csp.InitialArcs | solve.py:25-28 | the queue holds every directed arc (x, y) of the graph and nothing else, each exactly once |
| CspEngine.Csp.EnqueueNeighbours | solve.py:35-36 | appends (k, i) for each neighbour k of i other than j, and only those. The old queue stays as a prefix in order |
| CspEngine.PairsShrink | solve.py:32-34 | a revision that changes a domain strictly shrinks the set of (variable, value) pairs. This is the termination measure of AC-3 and of the search |
| CspEngine.RevisePreservesSolutions | solve.py:16-18 | revising an arc of the graph keeps every solution |
| CspEngine.RevisePending | solve.py:31-36 | on a symmetric graph, one AC-3 step leaves every arc either queued or consistent |
| CspEngine.SymmetricStep | solve.py:31-36 | the queue stays on graph arcs, and every arc stays queued or consistent, across one step |
| CspEngine.QueueStep | solve.py:31-36 | after one step, every queued arc still joins graph vertices |
| CspEngine.ReviseKeepsShape | solve.py:32-36 | one step keeps every graph vertex in the domain map and only shrinks domains. A domain emptied now makes ac3 return False |
| CspEngine.ArcConsistentWhenNonePending | solve.py:29-37 | once the queue is empty, every arc is consistent |
| CspEngine.Csp.Ac3 | solve.py:24-37 | the graph and variable set are unchanged and domains only shrink. False means a domain that was non-empty was just emptied. True means no domain was emptied and, on a symmetric graph, every arc is consistent. On a symmetric graph, no solution is lost. Termination is by the pair set, then the queue length |
| CspEngine.MinimumExists | solve.py:49 | every non-empty domain map has a variable of smallest domain size |
| CspEngine.Csp.SelectVariable | solve.py:47-51 | returns an unassigned variable whose domain size is minimal among the unassigned ones |
| CspEngine.SingletonsSolve | solve.py:45-46 | arc-consistent singleton domains form a solution |
| CspEngine.EmptyDomainUnsolvable | solve.py:43-44 | a map with an empty domain has no solution |
| CspEngine.BranchDomains | solve.py:53-54 | the copy with v fixed to {w} is well formed and non-empty, and has strictly fewer pairs than the node's input |
| CspEngine.Csp.Branch | solve.py:53-55 | searches a copy with v fixed to {w}. Success yields singleton domains. On a symmetric graph, those domains solve that copy, and success happens iff that copy is solvable |
| CspEngine.BranchFailed | solve.py:52-57 | after a failed branch for w, every solution gives v one of the values not yet tried |
| CspEngine.NoValuesLeft | solve.py:52-57 | when no value is left to try, no solution exists |
| CspEngine.UnsolvableBefore | solve.py:43-44 | propagation that keeps solutions and reaches an unsolvable state proves the input unsolvable |
| CspEngine.Csp.Backtrack | solve.py:42-57 | domains only shrink. True means solved. On a symmetric graph, true also means the values solve the starting domains, and true happens iff the starting domains have a solution. Termination is by the pair set |
| CspEngine.SolutionWeaken | solve.py:56 | a solution of the narrowed copy is a solution of the original domains |
| CspEngine.SolutionFix | solve.py:54 | a solution giving v the value w is a solution of the copy with v fixed to {w} |
| Sudoku.Related | solve.py:60-61 | same column, same row or same 3x3 box. Dafny's `/` agrees with Python's `//` for the divisor 3 |
| Sudoku.RelatedSymmetric | solve.py:60-61 | the relation is symmetric |
| Sudoku.InitialDomains | solve.py:71 | defined exactly when rows 0-8 and columns 0-8 exist. The keys are the 81 cells and every domain is non-empty |
| Sudoku.InitialDomainsShape | solve.py:71 | for digits 0..9: a given digit v gives {v}, a 0 gives {1..9}, so every domain is a non-empty subset of 1..9 |
| Sudoku.Adjacency | solve.py:72 | the graph has the same vertices and is well formed, symmetric and irreflexive. Distinct cells are neighbours iff they are related |
| Sudoku.SolutionIsSudoku | solve.py:60-72 | a solution on this graph is exactly a choice from each domain in which related distinct cells differ |
| Sudoku.SolveGrid | solve.py:69-78 | Malformed iff the grid is too small. Solved yields singleton domains whose values solve the initial puzzle. For a well-shaped grid, Solved iff the puzzle has a solution |

## Left out

- Printing and the command line are not modelled: argparse, the file read at
  solve.py:64-70, the queue-size and candidate prints, and the grid printing. The
  grid arrives as a parameter of `SolveGrid`.
- `Csp.Ac3` models Python's `queue.Queue` as a plain immutable sequence
  used first-in first-out. Its locking is not modelled, since nothing here is
  concurrent.
- `Csp.Branch` models `deepcopy` as building a new object from the current
  domain map value, which is what the copy observably is. Python's sharing of the
  same set objects between parent and adopted child after `self.domains =
  newCsp.domains` is not modelled, because a map of immutable sets has no
  aliasing.
- `Csp.InitialArcs`, `Csp.EnqueueNeighbours`, `Csp.SelectVariable` and
  `Csp.Backtrack` choose nondeterministically where Python follows dict and set
  iteration order. This covers the order of arcs in the queue, the tie-break
  between variables of equal domain size, and the order in which values are
  tried. Every proved property holds for any order.
- `Csp.Backtrack` returns false where Python falls off the end of the loop and
  returns None. Both are falsy at every use.
- `Csp.Backtrack` requires every domain to be non-empty. With an empty domain,
  Python either returns False, when AC-3 empties a neighbour of that domain, or
  reaches `min` over an empty list and raises ValueError. No call site passes an
  empty domain: the initial domains are non-empty, and each branch fixes a
  domain to a singleton.
- `Csp.Backtrack`: on failure it states only that domains shrank. It does not
  state that the object keeps the post-AC-3 domains.
- `Csp.Ac3`, `Csp.Branch`, `Csp.Backtrack`: the arc-consistency, soundness and
  completeness conclusions are stated for symmetric graphs only. On an asymmetric
  graph, revising one arc does not re-queue the arcs whose consistency it breaks.
  As a result, the search can report success on singleton domains that violate an
  arc. An example is the graph a->b, b->c with domains a={1}, b={1,2}, c={2}.
- `Csp.Revise`, `Csp.Ac3`, `Csp.Backtrack`: an unknown variable or a malformed
  graph is treated as a precondition violation, where Python raises KeyError at
  solve.py:16 or solve.py:35. A malformed graph has a vertex without a domain, or
  a neighbour that is not itself a vertex. A few such graphs run without error in
  Python, for example a neighbour that has a domain but is not a vertex. These are
  excluded too. The graph built at solve.py:72 always meets the requirement
  (`Sudoku.Adjacency`).
- `Sudoku.SolveGrid` returns Unsolvable when the first AC-3 fails. In that
  case the grid printing at solve.py:76-77 fails on the emptied cell. Under
  PEP 479, the StopIteration inside the generator surfaces as RuntimeError, so the
  final search is never reached.
- `Sudoku.InitialDomains` returns None for a grid with fewer than 9 rows or
  columns, where Python raises IndexError. For negative or other out-of-range
  digits, the domain is built as the code builds it (`{v}`). `InitialDomainsShape`
  states the 1..9 bound only for digits 0..9.
- The least-constraining-value ordering is not modelled: the code tries values
  in set order and has no such ordering.
- test.py is not part of this model.
