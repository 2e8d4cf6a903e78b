/**
 Locked packages and the ordered, name-keyed collections of them that dependency
 resolution builds and a lock file stores.
 */
module LockModel {
  import opened Wrappers
  import opened StringOrder
  import opened Graphs

  type Name = string
  type Digest = string
  type Version = string
  /** A relative path, split at its separators. */
  type RelativePath = seq<string>

  /** One exact direct edge of a locked package. */
  datatype LockedDependency = LockedDependency(name: Name, version: Version, digest: Digest)

  datatype LockedSource =
    | PathSource(path: RelativePath)
    | RegistrySource(registry: string, ociDigest: Digest)

  datatype LockedPackage = LockedPackage(
    name: Name,
    version: Version,
    digest: Digest,
    distributionDigest: Digest,
    dependencies: seq<LockedDependency>,
    source: LockedSource)

  datatype Lock = Lock(root: Name, packages: seq<LockedPackage>)

  datatype Error =
    | Cycle(name: Name)
    | Conflict(name: Name)
    | Absent(name: Name)
    | Missing(what: string)
    | Differs(what: string)
    | Rejected(what: string)

  /** Strictly increasing names: the iteration order of a map keyed by name. */
  predicate Sorted(packages: seq<LockedPackage>) {
    forall i, j :: 0 <= i < j < |packages| ==> Less(packages[i].name, packages[j].name)
  }

  function Names(packages: seq<LockedPackage>): set<Name> {
    set p | p in packages :: p.name
  }

  function DependencyNames(p: LockedPackage): set<Name> {
    set d | d in p.dependencies :: d.name
  }

  function EdgeNames(dependencies: seq<LockedDependency>): seq<Name> {
    seq(|dependencies|, i requires 0 <= i < |dependencies| => dependencies[i].name)
  }

  /** The first package of that name, as a linear search over the lock finds it. */
  function Find(packages: seq<LockedPackage>, name: Name): (r: Option<LockedPackage>)
    ensures r.Some? ==> r.value in packages && r.value.name == name
    ensures r.Some? <==> name in Names(packages)
  {
    if packages == [] then None
    else if packages[0].name == name then Some(packages[0])
    else
      assert Names(packages) == {packages[0].name} + Names(packages[1..]) by {
        assert packages == [packages[0]] + packages[1..];
      }
      Find(packages[1..], name)
  }

  function DependencyGraph(packages: seq<LockedPackage>): (g: Graph<Name>)
    ensures g.Keys == Names(packages)
  {
    map n | n in Names(packages) :: DependencyNames(Find(packages, n).value)
  }

  /** The edge's target is present with exactly the recorded version and digest. */
  predicate Satisfied(packages: seq<LockedPackage>, d: LockedDependency) {
    var found := Find(packages, d.name);
    found.Some? && found.value.version == d.version && found.value.digest == d.digest
  }

  predicate EdgesAgree(packages: seq<LockedPackage>) {
    forall p, d :: p in packages && d in p.dependencies ==> Satisfied(packages, d)
  }

  predicate DependenciesSorted(dependencies: seq<LockedDependency>) {
    forall i, j :: 0 <= i < j < |dependencies| ==> Less(dependencies[i].name, dependencies[j].name)
  }

  /**
   What validating a lock establishes: deterministic order, exact edges, no cycle,
   and exactly the closure of the root.
   */
  ghost predicate ValidLock(lock: Lock) {
    && Sorted(lock.packages)
    && lock.root in Names(lock.packages)
    && (forall p :: p in lock.packages ==> DependenciesSorted(p.dependencies))
    && EdgesAgree(lock.packages)
    && Acyclic(DependencyGraph(lock.packages))
    && (forall n :: n in Names(lock.packages) ==> Reaches(DependencyGraph(lock.packages), lock.root, n))
  }

  // ----- Sorted collections -----

  lemma SortedFind(packages: seq<LockedPackage>, p: LockedPackage)
    requires Sorted(packages) && p in packages
    ensures Find(packages, p.name) == Some(p)
  {
    var found := Find(packages, p.name).value;
    assert p.name in Names(packages);
    var i :| 0 <= i < |packages| && packages[i] == p;
    var j :| 0 <= j < |packages| && packages[j] == found;
    LessIsIrreflexive(p.name);
  }

  lemma SortedTail(packages: seq<LockedPackage>)
    requires Sorted(packages) && packages != []
    ensures Sorted(packages[1..])
    ensures forall p :: p in packages[1..] ==> Less(packages[0].name, p.name)
    ensures forall p :: p in packages[1..] <==> p in packages && p != packages[0]
  {
    assert packages == [packages[0]] + packages[1..];
    forall p | p in packages[1..]
      ensures Less(packages[0].name, p.name) && p != packages[0]
    {
      var i :| 0 <= i < |packages[1..]| && packages[1..][i] == p;
      assert p == packages[i + 1];
      LessIsIrreflexive(p.name);
    }
  }

  /** A sorted collection is determined by its members. */
  lemma {:induction false} SortedIsUnique(s: seq<LockedPackage>, t: seq<LockedPackage>)
    requires Sorted(s) && Sorted(t)
    requires forall p :: p in s <==> p in t
    ensures s == t
  {
    if s == [] {
      assert forall i :: 0 <= i < |t| ==> t[i] in t;
    } else {
      assert s[0] in t;
      SortedTail(s);
      SortedTail(t);
      if s[0] != t[0] {
        assert t[0] in s[1..] && s[0] in t[1..];
        LessIsTransitive(s[0].name, t[0].name, s[0].name);
        LessIsIrreflexive(s[0].name);
      }
      SortedIsUnique(s[1..], t[1..]);
      assert s == [s[0]] + s[1..] && t == [t[0]] + t[1..];
    }
  }

  /** Insertion into the ordered map, replacing an entry of the same name. */
  function Insert(packages: seq<LockedPackage>, p: LockedPackage): seq<LockedPackage> {
    if packages == [] || Less(p.name, packages[0].name) then [p] + packages
    else if packages[0].name == p.name then [p] + packages[1..]
    else [packages[0]] + Insert(packages[1..], p)
  }

  lemma {:induction false} InsertKeepsOrder(packages: seq<LockedPackage>, p: LockedPackage)
    requires Sorted(packages)
    ensures Sorted(Insert(packages, p))
    ensures forall q :: q in Insert(packages, p) <==> q == p || (q in packages && q.name != p.name)
  {
    if packages == [] {
    } else {
      SortedTail(packages);
      assert packages == [packages[0]] + packages[1..];
      if Less(p.name, packages[0].name) {
        forall q | q in packages
          ensures Less(p.name, q.name) && q.name != p.name
        {
          if q != packages[0] {
            LessIsTransitive(p.name, packages[0].name, q.name);
          }
          LessIsIrreflexive(p.name);
        }
      } else if packages[0].name == p.name {
        forall q | q in packages[1..]
          ensures q.name != p.name
        {
          LessIsIrreflexive(p.name);
        }
      } else {
        LessIsTotal(p.name, packages[0].name);
        InsertKeepsOrder(packages[1..], p);
        var rest := Insert(packages[1..], p);
        forall q | q in rest
          ensures Less(packages[0].name, q.name)
        {
        }
      }
    }
  }

  // ----- Merging child closures -----

  /** No name resolves to two different exact releases. */
  predicate Compatible(a: seq<LockedPackage>, b: seq<LockedPackage>) {
    forall p, q :: p in a && q in b && p.name == q.name ==> p == q
  }

  function Merge(target: seq<LockedPackage>, incoming: seq<LockedPackage>): Result<seq<LockedPackage>, Error>
    decreases |incoming|
  {
    if incoming == [] then Ok(target)
    else
      var existing := Find(target, incoming[0].name);
      if existing.Some? && existing.value != incoming[0] then Err(Conflict(incoming[0].name))
      else Merge(Insert(target, incoming[0]), incoming[1..])
  }

  /** Merging succeeds exactly on compatible closures, and then it is their union. */
  lemma {:induction false} MergeIsUnion(target: seq<LockedPackage>, incoming: seq<LockedPackage>)
    requires Sorted(target) && Sorted(incoming)
    ensures Merge(target, incoming).Ok? <==> Compatible(target, incoming)
    ensures var r := Merge(target, incoming);
            r.Ok? ==> Sorted(r.value) && forall p :: p in r.value <==> p in target || p in incoming
    decreases |incoming|
  {
    if incoming != [] {
      var head := incoming[0];
      var existing := Find(target, head.name);
      SortedTail(incoming);
      if existing.Some? && existing.value != head {
        assert !Compatible(target, incoming);
      } else {
        var grown := Insert(target, head);
        InsertKeepsOrder(target, head);
        forall q | q in target && q.name == head.name
          ensures q == head
        {
          SortedFind(target, q);
        }
        MergeIsUnion(grown, incoming[1..]);
        assert Compatible(target, incoming) <==> Compatible(grown, incoming[1..]) by {
          CompatibleStep(target, grown, incoming);
        }
      }
    }
  }

  lemma CompatibleStep(target: seq<LockedPackage>, grown: seq<LockedPackage>, incoming: seq<LockedPackage>)
    requires incoming != [] && Sorted(incoming)
    requires forall q :: q in grown <==> q == incoming[0] || q in target
    requires forall q :: q in target && q.name == incoming[0].name ==> q == incoming[0]
    ensures Compatible(target, incoming) <==> Compatible(grown, incoming[1..])
  {
    SortedTail(incoming);
    if Compatible(target, incoming) {
      forall p, q | p in grown && q in incoming[1..] && p.name == q.name
        ensures p == q
      {
        if p == incoming[0] {
          LessIsIrreflexive(p.name);
        }
      }
    }
    if Compatible(grown, incoming[1..]) {
      forall p, q | p in target && q in incoming && p.name == q.name
        ensures p == q
      {
        if q != incoming[0] {
          assert q in incoming[1..] && p in grown;
        }
      }
    }
  }

  function MergeAll(target: seq<LockedPackage>, closures: seq<seq<LockedPackage>>): Result<seq<LockedPackage>, Error>
    decreases |closures|
  {
    if closures == [] then Ok(target)
    else
      var merged := Merge(target, closures[0]);
      if merged.Err? then merged else MergeAll(merged.value, closures[1..])
  }

  predicate AllCompatible(closures: seq<seq<LockedPackage>>) {
    forall a, b :: a in closures && b in closures ==> Compatible(a, b)
  }

  lemma {:induction false} MergeAllIsUnion(target: seq<LockedPackage>, closures: seq<seq<LockedPackage>>)
    requires Sorted(target) && forall c :: c in closures ==> Sorted(c)
    ensures MergeAll(target, closures).Ok? <==> AllCompatible([target] + closures)
    ensures var r := MergeAll(target, closures);
            r.Ok? ==> Sorted(r.value) && forall p :: p in r.value <==>
              p in target || exists c :: c in closures && p in c
    decreases |closures|
  {
    SortedIsCompatible(target);
    if closures != [] {
      var head := closures[0];
      var rest := closures[1..];
      assert closures == [head] + rest;
      MergeIsUnion(target, head);
      SortedIsCompatible(head);
      var merged := Merge(target, head);
      if merged.Ok? {
        MergeAllIsUnion(merged.value, rest);
        SortedIsCompatible(merged.value);
        assert AllCompatible([target] + closures) <==> AllCompatible([merged.value] + rest) by {
          AllCompatibleStep(target, head, rest, merged.value);
        }
      } else {
        assert target in [target] + closures && head in [target] + closures;
      }
    }
  }

  lemma SortedIsCompatible(a: seq<LockedPackage>)
    requires Sorted(a)
    ensures Compatible(a, a)
  {
    forall p, q | p in a && q in a && p.name == q.name
      ensures p == q
    {
      SortedFind(a, p);
      SortedFind(a, q);
    }
  }

  lemma AllCompatibleStep(target: seq<LockedPackage>, head: seq<LockedPackage>,
                          rest: seq<seq<LockedPackage>>, merged: seq<LockedPackage>)
    requires forall p :: p in merged <==> p in target || p in head
    requires Compatible(target, head) && Compatible(target, target) && Compatible(head, head)
    requires Compatible(merged, merged)
    ensures AllCompatible([target] + ([head] + rest)) <==> AllCompatible([merged] + rest)
  {
    var before := [target] + ([head] + rest);
    var after := [merged] + rest;
    if AllCompatible(before) {
      assert target in before && head in before && forall c :: c in rest ==> c in before;
      forall a, b | a in after && b in after
        ensures Compatible(a, b)
      {
        if a == merged && b in rest {
          assert Compatible(target, b) && Compatible(head, b);
        } else if b == merged && a in rest {
          assert Compatible(a, target) && Compatible(a, head);
        }
      }
    }
    if AllCompatible(after) {
      assert merged in after && forall c :: c in rest ==> c in after;
      forall a, b | a in before && b in before
        ensures Compatible(a, b)
      {
        if a in rest && b in rest {
        } else if a in rest {
          assert Compatible(a, merged);
        } else if b in rest {
          assert Compatible(merged, b);
        } else {
          assert Compatible(merged, merged);
        }
      }
    }
  }

  /** The order in which child closures are merged changes neither success nor the merged map. */
  lemma MergeOrderIsIrrelevant(some: seq<seq<LockedPackage>>, other: seq<seq<LockedPackage>>)
    requires forall c :: c in some <==> c in other
    requires forall c :: c in some ==> Sorted(c)
    ensures MergeAll([], some).Ok? <==> MergeAll([], other).Ok?
    ensures MergeAll([], some).Ok? ==> MergeAll([], some) == MergeAll([], other)
  {
    MergeAllIsUnion([], some);
    MergeAllIsUnion([], other);
    assert forall c :: c in [[]] + some <==> c in [[]] + other;
    if MergeAll([], some).Ok? {
      SortedIsUnique(MergeAll([], some).value, MergeAll([], other).value);
    }
  }

  /** The in-place merge: every incoming package is inserted and any previous value compared. */
  method MergePackages(target: seq<LockedPackage>, incoming: seq<LockedPackage>)
    returns (r: Result<seq<LockedPackage>, Error>)
    ensures r == Merge(target, incoming)
  {
    var packages := target;
    var i := 0;
    while i < |incoming|
      invariant 0 <= i <= |incoming|
      invariant Merge(packages, incoming[i..]) == Merge(target, incoming)
    {
      var existing := Find(packages, incoming[i].name);
      packages := Insert(packages, incoming[i]);
      if existing.Some? && existing.value != incoming[i] {
        return Err(Conflict(incoming[i].name));
      }
      assert incoming[i..][1..] == incoming[i + 1..];
      i := i + 1;
    }
    return Ok(packages);
  }

  // ----- Direct edges -----

  function InsertDependency(sorted: seq<LockedDependency>, d: LockedDependency): seq<LockedDependency> {
    if sorted == [] || Less(d.name, sorted[0].name) then [d] + sorted
    else [sorted[0]] + InsertDependency(sorted[1..], d)
  }

  function SortDependencies(dependencies: seq<LockedDependency>): seq<LockedDependency> {
    if dependencies == [] then []
    else InsertDependency(SortDependencies(dependencies[1..]), dependencies[0])
  }

  lemma {:induction false} InsertDependencyKeepsOrder(sorted: seq<LockedDependency>, d: LockedDependency)
    requires DependenciesSorted(sorted)
    requires forall e :: e in sorted ==> e.name != d.name
    ensures DependenciesSorted(InsertDependency(sorted, d))
    ensures forall e :: e in InsertDependency(sorted, d) <==> e == d || e in sorted
  {
    if sorted != [] {
      assert sorted == [sorted[0]] + sorted[1..];
      forall e | e in sorted[1..]
        ensures Less(sorted[0].name, e.name)
      {
        var i :| 0 <= i < |sorted[1..]| && sorted[1..][i] == e;
        assert sorted[i + 1] == e;
      }
      if Less(d.name, sorted[0].name) {
        forall e | e in sorted[1..]
          ensures Less(d.name, e.name)
        {
          LessIsTransitive(d.name, sorted[0].name, e.name);
        }
      } else {
        LessIsTotal(d.name, sorted[0].name);
        InsertDependencyKeepsOrder(sorted[1..], d);
      }
    }
  }

  lemma {:induction false} SortDependenciesSorts(dependencies: seq<LockedDependency>)
    requires forall i, j :: 0 <= i < j < |dependencies| ==> dependencies[i].name != dependencies[j].name
    ensures DependenciesSorted(SortDependencies(dependencies))
    ensures forall d :: d in SortDependencies(dependencies) <==> d in dependencies
  {
    if dependencies != [] {
      assert dependencies == [dependencies[0]] + dependencies[1..];
      SortDependenciesSorts(dependencies[1..]);
      InsertDependencyKeepsOrder(SortDependencies(dependencies[1..]), dependencies[0]);
    }
  }

  lemma {:induction false} SortedDependenciesAreUnique(s: seq<LockedDependency>, t: seq<LockedDependency>)
    requires DependenciesSorted(s) && DependenciesSorted(t) && forall d :: d in s <==> d in t
    ensures s == t
  {
    if s == [] {
      assert forall i :: 0 <= i < |t| ==> t[i] in t;
    } else {
      assert s[0] in t;
      SortedDependenciesTail(s);
      SortedDependenciesTail(t);
      if s[0] != t[0] {
        assert t[0] in s[1..] && s[0] in t[1..];
        LessIsTransitive(s[0].name, t[0].name, s[0].name);
        LessIsIrreflexive(s[0].name);
      }
      SortedDependenciesAreUnique(s[1..], t[1..]);
      assert s == [s[0]] + s[1..] && t == [t[0]] + t[1..];
    }
  }

  lemma SortedDependenciesTail(s: seq<LockedDependency>)
    requires DependenciesSorted(s) && s != []
    ensures DependenciesSorted(s[1..])
    ensures forall d :: d in s[1..] ==> Less(s[0].name, d.name)
    ensures forall d :: d in s[1..] <==> d in s && d != s[0]
  {
    assert s == [s[0]] + s[1..];
    forall d | d in s[1..]
      ensures Less(s[0].name, d.name) && d != s[0]
    {
      var i :| 0 <= i < |s[1..]| && s[1..][i] == d;
      assert s[i + 1] == d;
      LessIsIrreflexive(d.name);
    }
  }
}
