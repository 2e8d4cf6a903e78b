/** Paths, reachability and acyclicity in finite directed graphs given as adjacency maps. */
module Graphs {

  type Graph<T> = map<T, set<T>>

  predicate Edge<T(==)>(g: Graph<T>, a: T, b: T) {
    a in g && b in g[a]
  }

  /** `path` is a nonempty walk along edges of `g`; a single node is a walk. */
  predicate IsPath<T(==)>(g: Graph<T>, path: seq<T>) {
    path != [] && forall i :: 0 <= i < |path| - 1 ==> Edge(g, path[i], path[i + 1])
  }

  predicate Connects<T(==)>(g: Graph<T>, path: seq<T>, a: T, b: T) {
    IsPath(g, path) && path[0] == a && path[|path| - 1] == b
  }

  ghost predicate Reaches<T(!new)>(g: Graph<T>, a: T, b: T) {
    exists path :: Connects(g, path, a, b)
  }

  /** No walk of at least one edge returns to its start. */
  ghost predicate Acyclic<T(!new)>(g: Graph<T>) {
    forall path :: IsPath(g, path) && |path| >= 2 ==> path[0] != path[|path| - 1]
  }

  /** Every edge leaving `s` stays in `s`. */
  predicate Closed<T(==)>(g: Graph<T>, s: set<T>) {
    forall a :: a in s && a in g ==> g[a] <= s
  }

  predicate SubGraph<T(==)>(small: Graph<T>, big: Graph<T>) {
    forall a :: a in small ==> a in big && small[a] <= big[a]
  }

  lemma ReachesSelf<T(!new)>(g: Graph<T>, a: T)
    ensures Reaches(g, a, a)
  {
    assert Connects(g, [a], a, a);
  }

  lemma ReachesStep<T(!new)>(g: Graph<T>, a: T, b: T, c: T)
    requires Edge(g, a, b) && Reaches(g, b, c)
    ensures Reaches(g, a, c)
  {
    var path :| Connects(g, path, b, c);
    assert Connects(g, [a] + path, a, c);
  }

  lemma ReachesMonotone<T(!new)>(small: Graph<T>, big: Graph<T>, a: T, b: T)
    requires SubGraph(small, big) && Reaches(small, a, b)
    ensures Reaches(big, a, b)
  {
    var path :| Connects(small, path, a, b);
    forall i | 0 <= i < |path| - 1
      ensures Edge(big, path[i], path[i + 1])
    {
      assert Edge(small, path[i], path[i + 1]);
    }
    assert Connects(big, path, a, b);
  }

  /** A walk that starts in a closed set never leaves it. */
  lemma {:induction false} PathStaysInside<T>(g: Graph<T>, s: set<T>, path: seq<T>)
    requires Closed(g, s) && IsPath(g, path) && path[0] in s
    ensures forall i :: 0 <= i < |path| ==> path[i] in s
    decreases |path|
  {
    if |path| > 1 {
      assert Edge(g, path[0], path[1]);
      forall i | 0 <= i < |path| - 2
        ensures Edge(g, path[1..][i], path[1..][i + 1])
      {
        assert Edge(g, path[i + 1], path[i + 2]);
      }
      PathStaysInside(g, s, path[1..]);
      forall i | 0 <= i < |path|
        ensures path[i] in s
      {
        if i > 0 {
          assert path[i] == path[1..][i - 1];
        }
      }
    }
  }

  lemma ReachesStaysInside<T(!new)>(g: Graph<T>, s: set<T>, a: T, b: T)
    requires Closed(g, s) && a in s && Reaches(g, a, b)
    ensures b in s
  {
    var path :| Connects(g, path, a, b);
    PathStaysInside(g, s, path);
  }

  /** In an acyclic graph a walk that begins with an edge ends elsewhere. */
  lemma WalkEndsElsewhere<T(!new)>(g: Graph<T>, a: T, b: T, c: T)
    requires Acyclic(g) && Edge(g, a, b) && Reaches(g, b, c)
    ensures a != c
  {
    var path :| Connects(g, path, b, c);
    var walk := [a] + path;
    assert IsPath(g, walk);
    assert walk[0] == a && walk[|walk| - 1] == c;
  }

  lemma PathTail<T>(g: Graph<T>, path: seq<T>)
    requires IsPath(g, path) && |path| >= 2
    ensures IsPath(g, path[1..])
  {
    var tail := path[1..];
    forall i | 0 <= i < |tail| - 1
      ensures Edge(g, tail[i], tail[i + 1])
    {
      assert Edge(g, path[i + 1], path[i + 2]);
    }
  }

  lemma ReachesExtend<T(!new)>(g: Graph<T>, a: T, b: T, c: T)
    requires Reaches(g, a, b) && Edge(g, b, c)
    ensures Reaches(g, a, c)
  {
    var path :| Connects(g, path, a, b);
    var longer := path + [c];
    forall i | 0 <= i < |longer| - 1
      ensures Edge(g, longer[i], longer[i + 1])
    {
      if i < |path| - 1 {
        assert Edge(g, path[i], path[i + 1]);
      }
    }
    assert Connects(g, longer, a, c);
  }

  lemma ReachesJoin<T(!new)>(g: Graph<T>, a: T, b: T, c: T)
    requires Reaches(g, a, b) && Reaches(g, b, c)
    ensures Reaches(g, a, c)
  {
    var front :| Connects(g, front, a, b);
    var back :| Connects(g, back, b, c);
    var path := front + back[1..];
    forall i | 0 <= i < |path| - 1
      ensures Edge(g, path[i], path[i + 1])
    {
      if i < |front| - 1 {
        assert Edge(g, front[i], front[i + 1]);
      } else {
        var j := i - (|front| - 1);
        assert Edge(g, back[j], back[j + 1]);
        assert path[i] == back[j] && path[i + 1] == back[j + 1];
      }
    }
    assert path[|path| - 1] == c;
    assert Connects(g, path, a, c);
  }

  /** A walk between two nodes that differ ends with an edge, and begins with one. */
  lemma ReachesByLastEdge<T(!new)>(g: Graph<T>, a: T, c: T) returns (b: T)
    requires Reaches(g, a, c) && a != c
    ensures Reaches(g, a, b) && Edge(g, b, c)
  {
    var path :| Connects(g, path, a, c);
    var front := path[..|path| - 1];
    b := path[|path| - 2];
    forall i | 0 <= i < |front| - 1
      ensures Edge(g, front[i], front[i + 1])
    {
      assert Edge(g, path[i], path[i + 1]);
    }
    assert Connects(g, front, a, b);
    assert Edge(g, path[|path| - 2], path[|path| - 2 + 1]);
  }

  lemma ReachesByFirstEdge<T(!new)>(g: Graph<T>, a: T, c: T) returns (b: T)
    requires Reaches(g, a, c) && a != c
    ensures Edge(g, a, b) && Reaches(g, b, c)
  {
    var path :| Connects(g, path, a, c);
    b := path[1];
    PathTail(g, path);
    assert Connects(g, path[1..], b, c);
    assert Edge(g, path[0], path[0 + 1]);
  }

  /** A graph whose edges all go up in rank has no cycle. */
  lemma RankedIsAcyclic<T(!new)>(g: Graph<T>, rank: T -> int)
    requires forall a, b :: Edge(g, a, b) ==> rank(a) < rank(b)
    ensures Acyclic(g)
  {
    forall path | IsPath(g, path) && |path| >= 2
      ensures path[0] != path[|path| - 1]
    {
      RankRises(g, rank, path);
    }
  }

  lemma {:induction false} RankRises<T>(g: Graph<T>, rank: T -> int, path: seq<T>)
    requires forall a, b :: Edge(g, a, b) ==> rank(a) < rank(b)
    requires IsPath(g, path) && |path| >= 2
    ensures rank(path[0]) < rank(path[|path| - 1])
    decreases |path|
  {
    assert Edge(g, path[0], path[0 + 1]);
    if |path| > 2 {
      PathTail(g, path);
      RankRises(g, rank, path[1..]);
    }
  }

  lemma SubsetOfSameSize<T>(a: set<T>, b: set<T>)
    requires a <= b && |a| == |b|
    ensures a == b
  {
    assert |b - a| == |b| - |a|;
  }
}
