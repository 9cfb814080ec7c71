/**
 The generic binary constraint-satisfaction engine of solve.py: a domain map from
 variables to candidate sets, a constraint graph, arc revision under the inequality
 constraint, AC-3 propagation and minimum-remaining-values backtracking search.
 */
module CspEngine {

  /** A directed arc (x, y) of the constraint graph: revise x against y. */
  type Arc<V> = (V, V)

  // ---------------------------------------------------------------------------
  // Domains and the constraint graph
  // ---------------------------------------------------------------------------

  /** Every graph vertex has a domain and every neighbour is itself a graph vertex. */
  ghost predicate WellFormed<V, D>(d: map<V, set<D>>, adj: map<V, set<V>>)
  {
    forall x :: x in adj ==> x in d && adj[x] <= adj.Keys
  }

  ghost predicate Symmetric<V>(adj: map<V, set<V>>)
  {
    forall x, y :: x in adj && y in adj[x] ==> y in adj && x in adj[y]
  }

  ghost predicate Irreflexive<V>(adj: map<V, set<V>>)
  {
    forall x :: x in adj ==> x !in adj[x]
  }

  /** e is d with some candidates removed: same variables, each domain a subset. */
  ghost predicate Shrunk<V, D>(e: map<V, set<D>>, d: map<V, set<D>>)
  {
    e.Keys == d.Keys && forall x :: x in e ==> e[x] <= d[x]
  }

  /** Every domain still holds at least one candidate. */
  ghost predicate NonEmpty<V, D>(d: map<V, set<D>>)
  {
    forall x :: x in d ==> d[x] != {}
  }

  /** All (variable, candidate) pairs; it shrinks strictly whenever a domain does. */
  ghost function Pairs<V, D>(d: map<V, set<D>>): set<(V, D)>
  {
    set x, v | x in d && v in d[x] :: (x, v)
  }

  lemma PairsMonotone<V, D>(e: map<V, set<D>>, d: map<V, set<D>>)
    requires Shrunk(e, d)
    ensures Pairs(e) <= Pairs(d)
  {
  }

  lemma PairsShrink<V, D>(e: map<V, set<D>>, d: map<V, set<D>>, i: V)
    requires Shrunk(e, d) && i in d && e[i] < d[i]
    ensures Pairs(e) < Pairs(d)
  {
    var v :| v in d[i] && v !in e[i];
    assert (i, v) in Pairs(d);
    assert (i, v) !in Pairs(e);
  }

  // ---------------------------------------------------------------------------
  // Arc revision under the inequality constraint
  // ---------------------------------------------------------------------------

  /** vx has a partner in s that differs from it. */
  predicate Supported<D(==)>(vx: D, s: set<D>)
  {
    exists vy :: vy in s && vy != vx
  }

  /** The domain of x after revising it against the domain dy of y. */
  function Revised<D(==)>(dx: set<D>, dy: set<D>): (r: set<D>)
    ensures r <= dx
  {
    set vx | vx in dx && Supported(vx, dy)
  }

  /** Revision only ever removes the single candidate of a singleton partner domain. */
  lemma ReviseCases<D>(dx: set<D>, dy: set<D>)
    ensures dy == {} ==> Revised(dx, dy) == {}
    ensures |dy| == 1 ==> Revised(dx, dy) == dx - dy
    ensures |dy| >= 2 ==> Revised(dx, dy) == dx
    ensures Revised(dx, dy) != dx <==> (|dy| == 1 && dx * dy != {}) || (dy == {} && dx != {})
  {
    var r := Revised(dx, dy);
    if |dy| == 1 {
      var w :| w in dy;
      assert |dy - {w}| == 0;
      assert dy == {w};
      forall vx | vx in dx
        ensures vx in r <==> vx != w
      {
        if vx != w { assert w in dy && w != vx; }
      }
      assert r == dx - dy;
    } else if |dy| >= 2 {
      forall vx | vx in dx
        ensures vx in r
      {
        assert |dy - {vx}| >= 1;
        var w :| w in dy - {vx};
        assert w in dy && w != vx;
      }
      assert r == dx;
    }
  }

  /**
   Every candidate that survives revision against dy is supported in dy. This only
   unfolds Revised; RevisePending uses it as a stepping stone.
   */
  lemma RevisedSupported<D>(dx: set<D>, dy: set<D>)
    ensures forall vx :: vx in Revised(dx, dy) ==> Supported(vx, dy)
  {
  }

  /**
   The inequality constraint is symmetric: if every value of dj is supported in di,
   revising di against any superset dk of dj keeps that support.
   */
  lemma SupportSurvivesRevision<D>(dj: set<D>, di: set<D>, dk: set<D>)
    requires dj <= dk
    requires forall vj :: vj in dj ==> Supported(vj, di)
    ensures forall vj :: vj in dj ==> Supported(vj, Revised(di, dk))
  {
    forall vj | vj in dj
      ensures Supported(vj, Revised(di, dk))
    {
      var w :| w in di && w != vj;
      assert vj in dk && vj != w;
      assert w in Revised(di, dk);
    }
  }

  /** Every value of x has a differing partner in y. */
  ghost predicate Consistent<V, D>(d: map<V, set<D>>, x: V, y: V)
  {
    x in d && y in d && forall vx :: vx in d[x] ==> Supported(vx, d[y])
  }

  /** Every arc of the graph is consistent. */
  ghost predicate ArcConsistent<V, D>(d: map<V, set<D>>, adj: map<V, set<V>>)
  {
    forall x, y :: x in adj && y in adj[x] ==> Consistent(d, x, y)
  }

  // ---------------------------------------------------------------------------
  // Solutions
  // ---------------------------------------------------------------------------

  /** sol picks one candidate from every domain of d. */
  ghost predicate Within<V, D>(sol: map<V, D>, d: map<V, set<D>>)
  {
    sol.Keys == d.Keys && forall x :: x in d ==> sol[x] in d[x]
  }

  /** sol picks from d and gives different values to the two ends of every arc. */
  ghost predicate Solution<V, D>(sol: map<V, D>, d: map<V, set<D>>, adj: map<V, set<V>>)
  {
    Within(sol, d) &&
    forall x, y :: x in adj && y in adj[x] && x in sol && y in sol ==> sol[x] != sol[y]
  }

  /** The one candidate of a singleton domain. */
  ghost function Only<D>(s: set<D>): (v: D)
    requires |s| == 1
    ensures s == {v}
  {
    var v :| v in s;
    assert |s - {v}| == 0;
    v
  }

  /** The assignment read off a map of singleton domains. */
  ghost function Assignment<V, D>(d: map<V, set<D>>): (sol: map<V, D>)
    requires forall x :: x in d ==> |d[x]| == 1
    ensures Within(sol, d)
  {
    map x | x in d :: Only(d[x])
  }

  /** Every domain holds exactly one candidate. */
  ghost predicate AllAssigned<V, D>(d: map<V, set<D>>)
  {
    forall x :: x in d ==> |d[x]| == 1
  }

  /** Arc-consistent singleton domains are a solution. */
  lemma SingletonsSolve<V, D>(d: map<V, set<D>>, adj: map<V, set<V>>)
    requires WellFormed(d, adj) && ArcConsistent(d, adj)
    requires forall x :: x in d ==> |d[x]| == 1
    ensures Solution(Assignment(d), d, adj)
  {
  }

  lemma ShrunkTransitive<V, D>(d2: map<V, set<D>>, d1: map<V, set<D>>, d0: map<V, set<D>>)
    requires Shrunk(d2, d1) && Shrunk(d1, d0)
    ensures Shrunk(d2, d0)
  {
  }

  /**
   The domains of a search branch that fixes v to one of its candidates w: they are
   well formed, non-empty, a shrinking of d0, and strictly fewer candidates than d0.
   */
  lemma BranchDomains<V, D>(d0: map<V, set<D>>, d: map<V, set<D>>, adj: map<V, set<V>>, v: V, w: D)
    requires Shrunk(d, d0) && WellFormed(d, adj) && NonEmpty(d)
    requires v in d && w in d[v] && |d[v]| > 1
    ensures Shrunk(d[v := {w}], d0) && WellFormed(d[v := {w}], adj) && NonEmpty(d[v := {w}])
    ensures Pairs(d[v := {w}]) < Pairs(d0)
  {
    assert {w} < d[v] by {
      assert {w} <= d[v];
      assert |{w}| == 1 < |d[v]|;
      assert {w} != d[v];
    }
    PairsShrink(d[v := {w}], d, v);
    PairsMonotone(d, d0);
  }

  /** A solution within a smaller domain map is a solution within a larger one. */
  lemma SolutionWeaken<V, D>(sol: map<V, D>, e: map<V, set<D>>, d: map<V, set<D>>, adj: map<V, set<V>>)
    requires Shrunk(e, d) && Solution(sol, e, adj)
    ensures Solution(sol, d, adj)
  {
  }

  /** A solution that gives v the value w survives fixing v's domain to {w}. */
  lemma SolutionFix<V, D>(sol: map<V, D>, d: map<V, set<D>>, adj: map<V, set<V>>, v: V, w: D)
    requires Solution(sol, d, adj) && v in d && sol[v] == w
    ensures Solution(sol, d[v := {w}], adj)
  {
  }

  // ---------------------------------------------------------------------------
  // Minimum remaining values
  // ---------------------------------------------------------------------------

  /** x is a variable of m whose domain is no larger than any other. */
  ghost predicate Smallest<V, D>(m: map<V, set<D>>, x: V)
  {
    x in m && forall y :: y in m ==> |m[x]| <= |m[y]|
  }

  /** A non-empty domain map has a variable whose domain is smallest. */
  lemma {:induction false} MinimumExists<V, D>(m: map<V, set<D>>)
    requires m != map[]
    ensures exists x :: Smallest(m, x)
    decreases |m|
  {
    var k :| k in m;
    var rest := m - {k};
    if rest == map[] {
      assert forall y :: y in m ==> y == k by {
        forall y | y in m ensures y == k { assert y !in rest; }
      }
      assert Smallest(m, k);
    } else {
      assert |rest| < |m|;
      MinimumExists(rest);
      var x :| Smallest(rest, x);
      var best := if |m[k]| <= |m[x]| then k else x;
      forall y | y in m
        ensures |m[best]| <= |m[y]|
      {
        if y != k { assert y in rest; }
      }
      assert Smallest(m, best);
    }
  }

  // ---------------------------------------------------------------------------
  // The CSP object
  // ---------------------------------------------------------------------------

  /** No two positions of q hold the same arc. */
  ghost predicate Distinct<V>(q: seq<Arc<V>>)
  {
    forall m, n :: 0 <= m < n < |q| ==> q[m] != q[n]
  }

  /** The only domains that are empty now were already empty in d0. */
  ghost predicate EmptiedOnlyBefore<V, D>(d: map<V, set<D>>, d0: map<V, set<D>>)
  {
    forall x :: x in d && d[x] == {} ==> x in d0 && d0[x] == {}
  }

  /** Both ends of every queued arc are graph vertices. */
  ghost predicate OnVertices<V>(q: seq<Arc<V>>, adj: map<V, set<V>>)
  {
    forall a :: a in q ==> a.0 in adj && a.1 in adj
  }

  /** Every queued arc is an arc of the graph. */
  ghost predicate OnArcs<V>(q: seq<Arc<V>>, adj: map<V, set<V>>)
  {
    forall a :: a in q ==> a.0 in adj && a.1 in adj[a.0]
  }

  /** Every graph arc is still queued or already consistent. */
  ghost predicate Pending<V, D>(d: map<V, set<D>>, adj: map<V, set<V>>, q: seq<Arc<V>>)
  {
    forall x, y :: x in adj && y in adj[x] ==> (x, y) in q || Consistent(d, x, y)
  }

  /** Every solution within d0 is also within d. */
  ghost predicate KeepsSolutions<V(!new), D(!new)>(d0: map<V, set<D>>, d: map<V, set<D>>, adj: map<V, set<V>>)
  {
    forall sol :: Solution(sol, d0, adj) ==> Solution(sol, d, adj)
  }

  lemma KeepsSolutionsTransitive<V(!new), D(!new)>(d0: map<V, set<D>>, d1: map<V, set<D>>, d2: map<V, set<D>>, adj: map<V, set<V>>)
    requires KeepsSolutions(d0, d1, adj) && KeepsSolutions(d1, d2, adj)
    ensures KeepsSolutions(d0, d2, adj)
  {
  }

  lemma ArcConsistentWhenNonePending<V, D>(d: map<V, set<D>>, adj: map<V, set<V>>)
    requires Pending(d, adj, [])
    ensures ArcConsistent(d, adj)
  {
  }

  /** The queue invariants of the AC-3 loop that need a symmetric graph survive one step. */
  lemma SymmetricStep<V, D>(q0: seq<Arc<V>>, q: seq<Arc<V>>, d0: map<V, set<D>>, d: map<V, set<D>>,
                            adj: map<V, set<V>>, i: V, j: V, changed: bool)
    requires Symmetric(adj) && WellFormed(d0, adj)
    requires q0 != [] && q0[0] == (i, j) && OnArcs(q0, adj)
    requires Pending(d0, adj, q0)
    requires d == d0[i := Revised(d0[i], d0[j])]
    requires changed <==> d[i] != d0[i]
    requires !changed ==> q == q0[1..]
    requires changed ==> forall a :: a in q <==> a in q0[1..] || (a.1 == i && a.0 in adj[i] && a.0 != j)
    ensures OnArcs(q, adj) && Pending(d, adj, q)
  {
    assert q0 == [q0[0]] + q0[1..];
    assert i in adj && j in adj[i];
    RevisePending(q0, q, d0, d, adj, i, j, changed);
  }

  /** One revision keeps the graph's vertices in the map and only shrinks domains. */
  lemma ReviseKeepsShape<V, D>(start: map<V, set<D>>, d0: map<V, set<D>>, d: map<V, set<D>>,
                               adj: map<V, set<V>>, i: V, j: V)
    requires WellFormed(d0, adj) && Shrunk(d0, start) && EmptiedOnlyBefore(d0, start)
    requires i in d0 && j in d0 && d == d0[i := Revised(d0[i], d0[j])]
    requires d[i] != {} || d[i] == d0[i]
    ensures WellFormed(d, adj) && Shrunk(d, start) && EmptiedOnlyBefore(d, start)
  {
  }

  /** The queue after popping (i, j) from q0 and queueing i's other neighbours. */
  lemma QueueStep<V>(q0: seq<Arc<V>>, q: seq<Arc<V>>, adj: map<V, set<V>>, i: V, j: V)
    requires q0 != [] && q0[0] == (i, j) && i in adj && adj[i] <= adj.Keys
    requires OnVertices(q0, adj)
    requires forall a :: a in q <==> a in q0[1..] || (a.1 == i && a.0 in adj[i] && a.0 != j)
    ensures OnVertices(q, adj)
  {
  }

  /** Revising the arc (i, j) keeps every solution. */
  lemma RevisePreservesSolutions<V(!new), D(!new)>(d: map<V, set<D>>, adj: map<V, set<V>>, i: V, j: V)
    requires WellFormed(d, adj) && i in adj && j in adj[i]
    ensures KeepsSolutions(d, d[i := Revised(d[i], d[j])], adj)
  {
  }

  /**
   The AC-3 step on a symmetric graph: after popping (i, j) from q0, revising it and,
   when the domain of i changed, queueing (k, i) for every other neighbour k of i,
   every graph arc is again queued or consistent.
   */
  lemma RevisePending<V, D>(q0: seq<Arc<V>>, q: seq<Arc<V>>, d0: map<V, set<D>>, d: map<V, set<D>>,
                            adj: map<V, set<V>>, i: V, j: V, changed: bool)
    requires Symmetric(adj) && WellFormed(d0, adj)
    requires q0 != [] && q0[0] == (i, j) && i in adj && j in adj[i]
    requires d == d0[i := Revised(d0[i], d0[j])]
    requires changed <==> d[i] != d0[i]
    requires !changed ==> q == q0[1..]
    requires changed ==> forall a :: a in q0[1..] ==> a in q
    requires changed ==> forall k :: k in adj[i] && k != j ==> (k, i) in q
    requires Pending(d0, adj, q0)
    ensures Pending(d, adj, q)
  {
    RevisedSupported(d0[i], d0[j]);
    assert q0 == [q0[0]] + q0[1..];
    forall x, y | x in adj && y in adj[x] && (x, y) !in q
      ensures Consistent(d, x, y)
    {
      if (x, y) == (i, j) {
        if i == j {
          SupportSurvivesRevision(d[i], d0[i], d0[i]);
        }
      } else {
        assert (x, y) !in q0[1..];
        assert Consistent(d0, x, y);
        if changed && y == i && x == j {
          SupportSurvivesRevision(d0[j], d0[i], d0[j]);
        }
      }
    }
  }

  /** Some assignment within d satisfies every arc of adj. */
  ghost predicate Solvable<V(!new), D(!new)>(d: map<V, set<D>>, adj: map<V, set<V>>)
  {
    exists sol :: Solution(sol, d, adj)
  }

  /** Every solution within d gives v one of values. */
  ghost predicate ValuesLeft<V(!new), D(!new)>(d: map<V, set<D>>, adj: map<V, set<V>>, v: V, values: set<D>)
  {
    v in d && forall sol :: Solution(sol, d, adj) ==> sol[v] in values
  }

  /** A search branch fixing v to w found nothing, so no solution gives v the value w. */
  lemma BranchFailed<V(!new), D(!new)>(d: map<V, set<D>>, adj: map<V, set<V>>, v: V, w: D, values: set<D>)
    requires ValuesLeft(d, adj, v, values) && !Solvable(d[v := {w}], adj)
    ensures ValuesLeft(d, adj, v, values - {w})
  {
    forall sol | Solution(sol, d, adj)
      ensures sol[v] in values - {w}
    {
      if sol[v] == w {
        SolutionFix(sol, d, adj, v, w);
        assert false;
      }
    }
  }

  lemma NoValuesLeft<V(!new), D(!new)>(d: map<V, set<D>>, adj: map<V, set<V>>, v: V)
    requires ValuesLeft(d, adj, v, {})
    ensures !Solvable(d, adj)
  {
  }

  lemma UnsolvableBefore<V(!new), D(!new)>(d0: map<V, set<D>>, d: map<V, set<D>>, adj: map<V, set<V>>)
    requires KeepsSolutions(d0, d, adj) && !Solvable(d, adj)
    ensures !Solvable(d0, adj)
  {
  }

  /** A map with an empty domain has no solution. */
  lemma EmptyDomainUnsolvable<V(!new), D(!new)>(d: map<V, set<D>>, adj: map<V, set<V>>)
    requires exists x :: x in d && d[x] == {}
    ensures !Solvable(d, adj)
  {
  }

  class Csp<V(==,!new), D(==,!new)> {
    var domains: map<V, set<D>>
    const adjList: map<V, set<V>>

    ghost predicate Valid()
      reads this
    {
      WellFormed(domains, adjList)
    }

    constructor (domains: map<V, set<D>>, adjList: map<V, set<V>>)
      ensures this.domains == domains && this.adjList == adjList
    {
      this.domains := domains;
      this.adjList := adjList;
    }

    /** Makes arc (x, y) consistent; reports whether the domain of x changed. */
    method Revise(x: V, y: V) returns (changed: bool)
      requires x in domains && y in domains
      modifies this
      ensures domains == old(domains)[x := Revised(old(domains)[x], old(domains)[y])]
      ensures changed <==> domains[x] != old(domains)[x]
    {
      var newDomain := Revised(domains[x], domains[y]);
      changed := domains[x] != newDomain;
      domains := domains[x := newDomain];
    }

    /** Every domain holds exactly one candidate. */
    function Solved(): (r: bool)
      reads this
      ensures r <==> UnAssignedVars() == map[] && NonEmpty(domains)
    {
      var s := forall x :: x in domains ==> |domains[x]| == 1;
      assert s ==> UnAssignedVars() == map[];
      assert UnAssignedVars() == map[] ==> forall x :: x in domains ==> |domains[x]| <= 1 by {
        if UnAssignedVars() == map[] {
          forall x | x in domains
            ensures |domains[x]| <= 1
          {
            assert x !in UnAssignedVars();
          }
        }
      }
      s
    }

    /** The entries whose domain still holds more than one candidate. */
    function UnAssignedVars(): (r: map<V, set<D>>)
      reads this
      ensures r.Keys <= domains.Keys
      ensures forall x :: x in r ==> r[x] == domains[x] && |r[x]| >= 2
      ensures forall x :: x in domains && x !in r ==> |domains[x]| <= 1
    {
      map x | x in domains && |domains[x]| > 1 :: domains[x]
    }

    /** The queue AC-3 starts from: every directed arc of the graph, once each. */
    method InitialArcs() returns (q: seq<Arc<V>>)
      ensures forall a :: a in q <==> a.0 in adjList && a.1 in adjList[a.0]
      ensures Distinct(q)
    {
      q := [];
      var todo := adjList.Keys;
      while todo != {}
        invariant todo <= adjList.Keys
        invariant forall a :: a in q <==> a.0 in adjList && a.0 !in todo && a.1 in adjList[a.0]
        invariant Distinct(q)
        decreases todo
      {
        var x :| x in todo;
        var ys := adjList[x];
        while ys != {}
          invariant ys <= adjList[x]
          invariant forall a :: a in q <==>
            a.0 in adjList && ((a.0 !in todo && a.1 in adjList[a.0]) || (a.0 == x && a.1 in adjList[x] - ys))
          invariant Distinct(q)
          decreases ys
        {
          var y :| y in ys;
          assert (x, y) !in q;
          q := q + [(x, y)];
          ys := ys - {y};
        }
        todo := todo - {x};
      }
    }

    /** q followed by the arcs (k, i) for every neighbour k of i other than j. */
    method EnqueueNeighbours(q: seq<Arc<V>>, i: V, j: V) returns (q': seq<Arc<V>>)
      requires i in adjList
      ensures |q'| == |q| + |adjList[i] - {j}| && q'[..|q|] == q
      ensures forall n :: |q| <= n < |q'| ==> q'[n].1 == i && q'[n].0 in adjList[i] && q'[n].0 != j
      ensures forall k :: k in adjList[i] && k != j ==> (k, i) in q'
      ensures forall a :: a in q' <==> a in q || (a.1 == i && a.0 in adjList[i] && a.0 != j)
    {
      q' := q;
      var ks := adjList[i] - {j};
      while ks != {}
        invariant ks <= adjList[i] - {j}
        invariant |q| <= |q'|
        invariant |q'| == |q| + |adjList[i] - {j}| - |ks| && q'[..|q|] == q
        invariant forall n :: |q| <= n < |q'| ==> q'[n].1 == i && q'[n].0 in adjList[i] - {j} - ks
        invariant forall k :: k in adjList[i] - {j} - ks ==> (k, i) in q'
        invariant forall a :: a in q' <==> a in q || (a.1 == i && a.0 in adjList[i] - {j} - ks)
        decreases ks
      {
        var k :| k in ks;
        q' := q' + [(k, i)];
        ks := ks - {k};
      }
    }

    /** AC-3 propagation; false as soon as a revised domain becomes empty. */
    method Ac3() returns (ok: bool)
      requires Valid()
      modifies this
      ensures Valid() && Shrunk(domains, old(domains))
      ensures !ok ==> exists x :: x in domains && domains[x] == {} && old(domains)[x] != {}
      ensures ok ==> EmptiedOnlyBefore(domains, old(domains))
      ensures ok && Symmetric(adjList) ==> ArcConsistent(domains, adjList)
      ensures Symmetric(adjList) ==> KeepsSolutions(old(domains), domains, adjList)
    {
      var q := InitialArcs();
      while q != []
        invariant Valid() && Shrunk(domains, old(domains))
        invariant EmptiedOnlyBefore(domains, old(domains))
        invariant OnVertices(q, adjList)
        invariant Symmetric(adjList) ==> OnArcs(q, adjList)
        invariant Symmetric(adjList) ==> Pending(domains, adjList, q)
        invariant Symmetric(adjList) ==> KeepsSolutions(old(domains), domains, adjList)
        decreases Pairs(domains), |q|
      {
        var (i, j) := q[0];
        ghost var q0 := q;
        q := q[1..];
        ghost var before := domains;
        var changed := Revise(i, j);
        if Symmetric(adjList) {
          assert q0[0] in q0;
          RevisePreservesSolutions(before, adjList, i, j);
          KeepsSolutionsTransitive(old(domains), before, domains, adjList);
        }
        if changed {
          PairsShrink(domains, before, i);
          if |domains[i]| == 0 {
            return false;
          }
          q := EnqueueNeighbours(q, i, j);
          QueueStep(q0, q, adjList, i, j);
        } else {
          assert domains == before;
        }
        ReviseKeepsShape(old(domains), before, domains, adjList, i, j);
        if Symmetric(adjList) {
          SymmetricStep(q0, q, before, domains, adjList, i, j, changed);
        }
      }
      if Symmetric(adjList) {
        ArcConsistentWhenNonePending(domains, adjList);
      }
      return true;
    }

    /** The unassigned variable with the fewest candidates (minimum remaining values). */
    method SelectVariable() returns (v: V)
      requires UnAssignedVars() != map[]
      ensures v in domains && |domains[v]| > 1
      ensures forall y :: y in domains && |domains[y]| > 1 ==> |domains[v]| <= |domains[y]|
    {
      var d := UnAssignedVars();
      MinimumExists(d);
      v :| v in d && forall y :: y in d ==> |d[v]| <= |d[y]|;
    }

    /**
     One search branch: a copy of this CSP whose domain for v is fixed to {w},
     searched recursively. Returns whether it succeeded and the copy's final domains.
     */
    method Branch(v: V, w: D) returns (found: bool, result: map<V, set<D>>)
      requires Valid() && NonEmpty(domains) && v in domains && w in domains[v]
      ensures Shrunk(result, domains[v := {w}])
      ensures found ==> AllAssigned(result)
      ensures found && Symmetric(adjList) ==> Solution(Assignment(result), domains[v := {w}], adjList)
      ensures Symmetric(adjList) ==> (found <==> Solvable(domains[v := {w}], adjList))
      decreases Pairs(domains[v := {w}]), 1
    {
      var child := new Csp(domains[v := {w}], adjList);
      found := child.Backtrack();
      result := child.domains;
    }

    /** Backtracking search with AC-3 at every node; false when no value works. */
    method Backtrack() returns (ok: bool)
      requires Valid() && NonEmpty(domains)
      modifies this
      ensures Valid() && Shrunk(domains, old(domains))
      ensures ok ==> Solved()
      ensures ok && Symmetric(adjList) ==> Solution(Assignment(domains), old(domains), adjList)
      ensures Symmetric(adjList) ==> (ok <==> Solvable(old(domains), adjList))
      decreases Pairs(domains), 0
    {
      ok := Ac3();
      if !ok {
        if Symmetric(adjList) {
          EmptyDomainUnsolvable(domains, adjList);
        }
        return;
      }
      assert NonEmpty(domains);
      if Solved() {
        if Symmetric(adjList) {
          SingletonsSolve(domains, adjList);
          SolutionWeaken(Assignment(domains), domains, old(domains), adjList);
        }
        return;
      }
      var v := SelectVariable();
      ghost var after := domains;
      var values := domains[v];
      while values != {}
        invariant domains == after
        invariant values <= domains[v]
        invariant Symmetric(adjList) ==> ValuesLeft(domains, adjList, v, values)
        decreases values
      {
        var w :| w in values;
        BranchDomains(old(domains), domains, adjList, v, w);
        var found, result := Branch(v, w);
        if found {
          ghost var fixed := domains[v := {w}];
          domains := result;
          ShrunkTransitive(domains, fixed, old(domains));
          if Symmetric(adjList) {
            SolutionWeaken(Assignment(domains), fixed, old(domains), adjList);
          }
          return true;
        }
        if Symmetric(adjList) {
          BranchFailed(domains, adjList, v, w, values);
        }
        values := values - {w};
      }
      if Symmetric(adjList) {
        NoValuesLeft(domains, adjList, v);
        UnsolvableBefore(old(domains), domains, adjList);
      }
      ok := false;
    }
  }
}
