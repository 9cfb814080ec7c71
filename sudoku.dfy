/**
 The Sudoku instance that solve.py builds at module level and hands to the engine:
 cells are (column, row) pairs, a grid cell 0 means "unknown", and two distinct cells
 are constrained when they share a column, a row or a 3x3 box.
 */
module Sudoku {
  import opened CspEngine

  /** A cell as (column, row). */
  type Cell = (int, int)

  datatype Option<T> = None | Some(value: T)

  /** What the top-level script ends with. */
  datatype Outcome =
    | Malformed                                   // the grid has fewer than 9 rows or columns
    | Unsolvable                                  // propagation or search failed
    | Solved(domains: map<Cell, set<int>>)        // every cell holds one value

  /**
   Same column, same row, or same 3x3 box. Python's floor division `//` and Dafny's
   `/` agree for the positive divisor 3, whatever the sign of the dividend.
   */
  predicate Related(v1: Cell, v2: Cell)
  {
    v1.0 == v2.0 || v1.1 == v2.1 || (v1.0 / 3 == v2.0 / 3 && v1.1 / 3 == v2.1 / 3)
  }

  lemma RelatedSymmetric(v1: Cell, v2: Cell)
    ensures Related(v1, v2) == Related(v2, v1)
  {
  }

  /** The 81 cells of the board. */
  function Board(): set<Cell>
  {
    set i, j | 0 <= i < 9 && 0 <= j < 9 :: (i, j)
  }

  /** The candidates of an unknown cell, 1 to 9. */
  function Digits(): set<int>
  {
    {1, 2, 3, 4, 5, 6, 7, 8, 9}
  }

  /** Rows 0 to 8 exist and each has columns 0 to 8. */
  predicate GridShaped(grid: seq<seq<int>>)
  {
    |grid| >= 9 && forall j :: 0 <= j < 9 ==> |grid[j]| >= 9
  }

  /** The initial domain of a cell holding v. */
  function CellDomain(v: int): set<int>
  {
    if v != 0 then {v} else Digits()
  }

  /**
   The initial domains, keyed by (column, row) and read from grid[row][column];
   None where indexing the grid would fail.
   */
  function InitialDomains(grid: seq<seq<int>>): (r: Option<map<Cell, set<int>>>)
    ensures r.Some? <==> GridShaped(grid)
    ensures r.Some? ==> r.value.Keys == Board() && NonEmpty(r.value)
  {
    if !GridShaped(grid) then None
    else
      assert 1 in Digits();
      Some(map c | c in Board() :: CellDomain(grid[c.1][c.0]))
  }

  /** A given digit is its cell's only candidate, an unknown cell has all nine. */
  lemma InitialDomainsShape(grid: seq<seq<int>>)
    requires GridShaped(grid)
    requires forall j, i :: 0 <= j < 9 && 0 <= i < 9 ==> 0 <= grid[j][i] <= 9
    ensures forall i, j :: 0 <= i < 9 && 0 <= j < 9 ==>
      var d := InitialDomains(grid).value[(i, j)];
      d != {} && d <= Digits() &&
      (grid[j][i] != 0 ==> d == {grid[j][i]}) &&
      (grid[j][i] == 0 ==> d == Digits())
  {
  }

  /** Every cell of d is adjacent to every other cell of d it is related to. */
  function Adjacency(d: map<Cell, set<int>>): (adj: map<Cell, set<Cell>>)
    ensures adj.Keys == d.Keys
    ensures WellFormed(d, adj) && Symmetric(adj) && Irreflexive(adj)
    ensures forall x, y :: x in d && y in d && x != y ==> (y in adj[x] <==> Related(x, y))
  {
    map x | x in d :: set y | y in d && y != x && Related(x, y)
  }

  /** On this graph a solution of the engine is exactly a filled grid obeying the Sudoku rule. */
  lemma SolutionIsSudoku(sol: map<Cell, int>, d: map<Cell, set<int>>)
    ensures Solution(sol, d, Adjacency(d)) <==>
      Within(sol, d) && forall x, y :: x in sol && y in sol && x != y && Related(x, y) ==> sol[x] != sol[y]
  {
  }

  /**
   The top-level script without its printing: build the domains and the graph, run
   AC-3 once, then search.
   */
  method SolveGrid(grid: seq<seq<int>>) returns (outcome: Outcome)
    ensures outcome == Malformed <==> !GridShaped(grid)
    ensures outcome.Solved? ==>
      var d := InitialDomains(grid).value;
      AllAssigned(outcome.domains) && Solution(Assignment(outcome.domains), d, Adjacency(d))
    ensures GridShaped(grid) ==>
      var d := InitialDomains(grid).value;
      (outcome.Solved? <==> Solvable(d, Adjacency(d)))
  {
    var initial := InitialDomains(grid);
    if initial.None? {
      return Malformed;
    }
    var domains := initial.value;
    var adj := Adjacency(domains);
    var csp := new Csp(domains, adj);
    var propagated := csp.Ac3();
    if !propagated {
      EmptyDomainUnsolvable(csp.domains, adj);
      UnsolvableBefore(domains, csp.domains, adj);
      return Unsolvable;
    }
    ghost var afterAc3 := csp.domains;
    var solved := csp.Backtrack();
    if solved {
      SolutionWeaken(Assignment(csp.domains), afterAc3, domains, adj);
      outcome := Solved(csp.domains);
    } else {
      UnsolvableBefore(domains, afterAc3, adj);
      outcome := Unsolvable;
    }
  }
}
