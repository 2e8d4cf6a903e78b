/** Lock validation: the depth-first visit from the root decides acyclicity and completeness. */
module LockValidation {
  import opened Wrappers
  import opened Graphs
  import opened LockModel

  /** No walk that starts in `s` returns to its start. */
  ghost predicate NoCycleFrom<T(!new)>(g: Graph<T>, s: set<T>) {
    forall path :: IsPath(g, path) && |path| >= 2 && path[0] in s ==> path[0] != path[|path| - 1]
  }

  /** A walk of at least one edge. */
  ghost predicate LeadsTo<T(!new)>(g: Graph<T>, a: T, b: T) {
    exists path :: Connects(g, path, a, b) && |path| >= 2
  }

  lemma LeadsToStep<T(!new)>(g: Graph<T>, a: T, b: T, c: T)
    requires LeadsTo(g, a, b) && Edge(g, b, c)
    ensures LeadsTo(g, a, c)
  {
    var path :| Connects(g, path, a, b) && |path| >= 2;
    var longer := path + [c];
    forall i | 0 <= i < |longer| - 1
      ensures Edge(g, longer[i], longer[i + 1])
    {
      if i < |path| - 1 {
        assert Edge(g, path[i], path[i + 1]);
      }
    }
    assert Connects(g, longer, a, c);
  }

  lemma LeadsToNext<T(!new)>(g: Graph<T>, a: T, b: T)
    requires Edge(g, a, b)
    ensures LeadsTo(g, a, b)
  {
    assert Connects(g, [a, b], a, b);
  }

  lemma SelfWalkIsCycle<T(!new)>(g: Graph<T>, a: T)
    requires LeadsTo(g, a, a)
    ensures !Acyclic(g)
  {
  }

  /** A node whose successors all lie in a finished set not containing it can be finished. */
  lemma FinishNode<T(!new)>(g: Graph<T>, done: set<T>, a: T)
    requires Closed(g, done) && NoCycleFrom(g, done) && a !in done && a in g && g[a] <= done
    ensures Closed(g, done + {a}) && NoCycleFrom(g, done + {a})
  {
    forall path | IsPath(g, path) && |path| >= 2 && path[0] == a
      ensures path[|path| - 1] != a
    {
      assert Edge(g, path[0], path[1]);
      var tail := path[1..];
      forall i | 0 <= i < |tail| - 1
        ensures Edge(g, tail[i], tail[i + 1])
      {
        assert Edge(g, path[i + 1], path[i + 2]);
      }
      PathStaysInside(g, done, tail);
      assert path[|path| - 1] == tail[|tail| - 1];
    }
  }

  /** The first `i` dependencies of `p` lie in `s`. */
  predicate EdgesInside(p: LockedPackage, i: nat, s: set<Name>) {
    i <= |p.dependencies| && forall j :: 0 <= j < i ==> p.dependencies[j].name in s
  }

  lemma MoreEdgesInside(p: LockedPackage, i: nat, before: set<Name>, after: set<Name>)
    requires EdgesInside(p, i, before) && i < |p.dependencies| && before <= after && p.dependencies[i].name in after
    ensures EdgesInside(p, i + 1, after)
  {
  }

  ghost predicate AllReached<T(!new)>(g: Graph<T>, a: T, s: set<T>) {
    forall n :: n in s ==> Reaches(g, a, n)
  }

  lemma ExtendReached<T(!new)>(g: Graph<T>, a: T, b: T, complete: set<T>, before: set<T>, after: set<T>)
    requires Edge(g, a, b) && AllReached(g, a, before - complete) && AllReached(g, b, after - before)
    ensures AllReached(g, a, after - complete)
  {
    forall n | n in after - complete
      ensures Reaches(g, a, n)
    {
      if n !in before {
        ReachesStep(g, a, b, n);
      } else {
        assert n in before - complete;
      }
    }
  }

  method Visit(packages: seq<LockedPackage>, name: Name, visiting: set<Name>, complete: set<Name>)
    returns (ok: bool, left: set<Name>, finished: set<Name>)
    requires Sorted(packages) && EdgesAgree(packages) && name in Names(packages)
    requires visiting !! complete && complete <= Names(packages)
    requires Closed(DependencyGraph(packages), complete) && NoCycleFrom(DependencyGraph(packages), complete)
    requires forall v :: v in visiting ==> LeadsTo(DependencyGraph(packages), v, name)
    ensures !ok ==> !Acyclic(DependencyGraph(packages))
    ensures ok ==> left == visiting && visiting !! finished && finished <= Names(packages)
    ensures ok ==> complete + {name} <= finished
    ensures ok ==> Closed(DependencyGraph(packages), finished) && NoCycleFrom(DependencyGraph(packages), finished)
    ensures ok ==> AllReached(DependencyGraph(packages), name, finished - complete)
    decreases Names(packages) - visiting
  {
    ghost var g := DependencyGraph(packages);
    left, finished := visiting, complete;
    if name in finished {
      return true, left, finished;
    }
    if name in visiting {
      SelfWalkIsCycle(g, name);
      return false, left, finished;
    }
    left := left + {name};
    var p := Find(packages, name).value;
    var i := 0;
    while i < |p.dependencies|
      invariant 0 <= i <= |p.dependencies|
      invariant left == visiting + {name} && left !! finished && complete <= finished <= Names(packages)
      invariant Closed(g, finished) && NoCycleFrom(g, finished)
      invariant EdgesInside(p, i, finished)
      invariant AllReached(g, name, finished - complete)
    {
      var next := p.dependencies[i].name;
      VisitEdge(packages, p, i, visiting);
      ghost var before := finished;
      ok, left, finished := Visit(packages, next, left, finished);
      if !ok {
        return false, left, finished;
      }
      assert next in before + {next};
      MoreEdgesInside(p, i, before, finished);
      ExtendReached(g, name, next, complete, before, finished);
      i := i + 1;
    }
    assert g[name] == DependencyNames(p) <= finished;
    FinishNode(g, finished, name);
    ReachesSelf(g, name);
    left := left - {name};
    finished := finished + {name};
    ok := true;
  }

  lemma VisitEdge(packages: seq<LockedPackage>, p: LockedPackage, i: nat, visiting: set<Name>)
    requires EdgesAgree(packages) && Find(packages, p.name) == Some(p) && i < |p.dependencies|
    requires forall v :: v in visiting ==> LeadsTo(DependencyGraph(packages), v, p.name)
    ensures p.dependencies[i].name in Names(packages)
    ensures Edge(DependencyGraph(packages), p.name, p.dependencies[i].name)
    ensures forall v :: v in visiting + {p.name} ==> LeadsTo(DependencyGraph(packages), v, p.dependencies[i].name)
  {
    var g := DependencyGraph(packages);
    assert Satisfied(packages, p.dependencies[i]);
    LeadsToNext(g, p.name, p.dependencies[i].name);
    forall v | v in visiting
      ensures LeadsTo(g, v, p.dependencies[i].name)
    {
      LeadsToStep(g, v, p.name, p.dependencies[i].name);
    }
  }

  /** Validation accepts exactly the valid locks. */
  method Validate(lock: Lock) returns (ok: bool)
    ensures ok <==> ValidLock(lock)
  {
    if !Sorted(lock.packages) || !EdgesAgree(lock.packages) || lock.root !in Names(lock.packages)
       || !forall p :: p in lock.packages ==> DependenciesSorted(p.dependencies)
    {
      return false;
    }
    ghost var g := DependencyGraph(lock.packages);
    var visited, _, complete := Visit(lock.packages, lock.root, {}, {});
    if !visited {
      return false;
    }
    assert complete - {} == complete;
    CompleteVisitDecides(lock, complete);
    ok := |complete| == |Names(lock.packages)|;
  }

  lemma CompleteVisitDecides(lock: Lock, complete: set<Name>)
    requires Sorted(lock.packages) && EdgesAgree(lock.packages) && complete <= Names(lock.packages)
    requires forall p :: p in lock.packages ==> DependenciesSorted(p.dependencies)
    requires Closed(DependencyGraph(lock.packages), complete) && NoCycleFrom(DependencyGraph(lock.packages), complete)
    requires lock.root in complete && AllReached(DependencyGraph(lock.packages), lock.root, complete)
    ensures |complete| == |Names(lock.packages)| <==> ValidLock(lock)
  {
    var g := DependencyGraph(lock.packages);
    if |complete| == |Names(lock.packages)| {
      SubsetOfSameSize(complete, Names(lock.packages));
      AllStartsInside(g, complete);
    }
    if ValidLock(lock) {
      forall n | n in Names(lock.packages)
        ensures n in complete
      {
        ReachesStaysInside(g, complete, lock.root, n);
      }
      assert complete == Names(lock.packages);
    }
  }

  lemma AllStartsInside(g: Graph<Name>, s: set<Name>)
    requires g.Keys == s && NoCycleFrom(g, s)
    ensures Acyclic(g)
  {
    forall path | IsPath(g, path) && |path| >= 2
      ensures path[0] != path[|path| - 1]
    {
      assert Edge(g, path[0], path[1]);
    }
  }

  // ----- Targeted updates -----

  /** Every package the previous lock reaches from `starts` is locked unchanged in `current`. */
  ghost predicate Preserved(previous: seq<LockedPackage>, current: seq<LockedPackage>, starts: seq<Name>) {
    forall s, n :: s in starts && Reaches(DependencyGraph(previous), s, n) ==>
      Find(previous, n).Some? && Find(current, n) == Find(previous, n)
  }

  predicate Unchanged(previous: seq<LockedPackage>, current: seq<LockedPackage>, checked: set<Name>) {
    forall n :: n in checked ==> Find(previous, n).Some? && Find(current, n) == Find(previous, n)
  }

  /** Every checked or pending name is reached from a start, and edges of checked names stay among them. */
  ghost predicate Exploring(g: Graph<Name>, starts: seq<Name>, checked: set<Name>, pending: seq<Name>) {
    && (forall n :: n in starts ==> n in checked || n in pending)
    && (forall n :: n in checked || n in pending ==> ReachedFrom(g, starts, n))
    && (forall a, b :: a in checked && Edge(g, a, b) ==> b in checked || b in pending)
  }

  ghost predicate ReachedFrom(g: Graph<Name>, starts: seq<Name>, n: Name) {
    exists s :: s in starts && Reaches(g, s, n)
  }

  /** The check that a targeted update leaves every other dependency's closure as it was locked. */
  method CheckPreserved(previous: seq<LockedPackage>, current: seq<LockedPackage>, starts: seq<Name>) returns (ok: bool)
    ensures ok <==> Preserved(previous, current, starts)
  {
    ghost var g := DependencyGraph(previous);
    var checked: set<Name> := {};
    var pending := starts;
    forall n | n in starts
      ensures ReachedFrom(g, starts, n)
    {
      ReachesSelf(g, n);
    }
    while pending != []
      invariant checked <= Names(previous) && Unchanged(previous, current, checked)
      invariant Exploring(g, starts, checked, pending)
      decreases Names(previous) - checked, |pending|
    {
      var name := pending[|pending| - 1];
      var rest := pending[..|pending| - 1];
      LastPending(g, starts, checked, pending);
      if name in checked {
        pending := rest;
        continue;
      }
      var before := Find(previous, name);
      if before.None? || Find(current, name) != before {
        return false;
      }
      ExploreOne(previous, starts, checked, rest, before.value);
      checked := checked + {name};
      pending := rest + EdgeNames(before.value.dependencies);
    }
    ExploredAll(previous, current, starts, checked);
    return true;
  }

  lemma ExploredAll(previous: seq<LockedPackage>, current: seq<LockedPackage>, starts: seq<Name>, checked: set<Name>)
    requires Unchanged(previous, current, checked) && Exploring(DependencyGraph(previous), starts, checked, [])
    ensures Preserved(previous, current, starts)
  {
    var g := DependencyGraph(previous);
    forall a | a in checked && a in g
      ensures g[a] <= checked
    {
      assert forall b :: b in g[a] ==> Edge(g, a, b);
    }
    forall s, n | s in starts && Reaches(g, s, n)
      ensures Find(previous, n).Some? && Find(current, n) == Find(previous, n)
    {
      ReachesStaysInside(g, checked, s, n);
    }
  }

  lemma LastPending(g: Graph<Name>, starts: seq<Name>, checked: set<Name>, pending: seq<Name>)
    requires pending != [] && Exploring(g, starts, checked, pending)
    ensures var (rest, name) := (pending[..|pending| - 1], pending[|pending| - 1]);
            && ReachedFrom(g, starts, name)
            && Exploring(g, starts, checked, rest + [name])
            && (name in checked ==> Exploring(g, starts, checked, rest))
  {
    var rest, name := pending[..|pending| - 1], pending[|pending| - 1];
    assert pending == rest + [name];
    assert name in pending;
    assert forall n :: n in pending <==> n in rest || n == name;
  }

  lemma ExploreOne(previous: seq<LockedPackage>, starts: seq<Name>, checked: set<Name>, rest: seq<Name>,
                   p: LockedPackage)
    requires Find(previous, p.name) == Some(p)
    requires Exploring(DependencyGraph(previous), starts, checked, rest + [p.name])
    ensures Exploring(DependencyGraph(previous), starts, checked + {p.name}, rest + EdgeNames(p.dependencies))
  {
    var edges := EdgeNames(p.dependencies);
    var g := DependencyGraph(previous);
    assert p.name in rest + [p.name];
    assert ReachedFrom(g, starts, p.name);
    forall n | n in edges
      ensures ReachedFrom(g, starts, n)
    {
      var i :| 0 <= i < |edges| && edges[i] == n;
      var s :| s in starts && Reaches(g, s, p.name);
      assert Edge(g, p.name, n);
      ReachesExtend(g, s, p.name, n);
    }
    forall n | n in starts
      ensures n in checked + {p.name} || n in rest + edges
    {
      assert n in checked || n in rest + [p.name];
    }
    forall n | n in rest
      ensures ReachedFrom(g, starts, n)
    {
      assert n in rest + [p.name];
    }
    forall a, b | a in checked + {p.name} && Edge(g, a, b)
      ensures b in checked + {p.name} || b in rest + edges
    {
      if a == p.name {
        var d :| d in p.dependencies && d.name == b;
        var i :| 0 <= i < |p.dependencies| && p.dependencies[i] == d;
        assert edges[i] == b;
      } else {
        assert b in checked || b in rest + [p.name];
      }
    }
  }
}
