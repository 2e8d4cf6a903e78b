/**
 Which model fields the Rust generator boxes, so that every generated struct has a
 finite size.
 */
module Boxing {
  import opened Wrappers
  import opened Graphs

  datatype TypeRef = TypeRef(package: string, id: string)

  datatype TypeExpression =
    | Primitive(name: string)
    | Named(reference: TypeRef)
    | List(item: TypeExpression)
    | Map(value: TypeExpression)
    | Nullable(value: TypeExpression)
    | CursorQuery
    | CursorPage(item: TypeExpression)

  datatype TypeDefinition =
    | Model(fields: map<string, TypeExpression>)
    | Enum
    | Alias(expression: TypeExpression)

  type Types = map<TypeRef, TypeDefinition>

  predicate IsModel(types: Types, t: TypeRef) {
    t in types && types[t].Model?
  }

  /** The named reference a value holds without indirection. */
  function DirectNamed(e: TypeExpression): Option<TypeRef> {
    match e
    case Named(reference) => Some(reference)
    case Nullable(value) => DirectNamed(value)
    case _ => None
  }

  // ----- Chasing aliases -----

  /** Follow aliases from `current` to a model, giving up on a repetition. */
  function Chase(types: Types, current: TypeRef, seen: set<TypeRef>): Option<TypeRef>
    decreases types.Keys - seen
  {
    if current in seen || current !in types then None
    else
      match types[current]
      case Model(_) => Some(current)
      case Enum => None
      case Alias(e) =>
        var next := DirectNamed(e);
        if next.None? then None else Chase(types, next.value, seen + {current})
  }

  /** The field's named reference and the model it holds without indirection. */
  function DirectModel(types: Types, e: TypeExpression): Option<(TypeRef, TypeRef)> {
    var named := DirectNamed(e);
    if named.None? then None
    else
      var model := Chase(types, named.value, {});
      if model.None? then None else Some((named.value, model.value))
  }

  method FindDirectModel(types: Types, e: TypeExpression) returns (r: Option<(TypeRef, TypeRef)>)
    ensures r == DirectModel(types, e)
  {
    var named := DirectNamed(e);
    if named.None? {
      return None;
    }
    var current := named.value;
    var seen: set<TypeRef> := {};
    while current !in seen
      invariant Chase(types, current, seen) == Chase(types, named.value, {})
      decreases types.Keys - seen
    {
      if current !in types {
        return None;
      }
      match types[current] {
        case Model(_) =>
          return Some((named.value, current));
        case Enum =>
          return None;
        case Alias(expression) =>
          var next := DirectNamed(expression);
          if next.None? {
            return None;
          }
          seen := seen + {current};
          current := next.value;
      }
    }
    return None;
  }

  /** `a` is an alias whose definition holds `b` directly. */
  predicate AliasStep(types: Types, a: TypeRef, b: TypeRef) {
    a in types && types[a].Alias? && DirectNamed(types[a].expression) == Some(b)
  }

  /** A run of alias steps that ends at a model. */
  predicate IsChain(types: Types, chain: seq<TypeRef>) {
    && chain != []
    && IsModel(types, chain[|chain| - 1])
    && forall i :: 0 <= i < |chain| - 1 ==> AliasStep(types, chain[i], chain[i + 1])
  }

  predicate ChainFromTo(types: Types, chain: seq<TypeRef>, a: TypeRef, m: TypeRef) {
    IsChain(types, chain) && chain[0] == a && chain[|chain| - 1] == m
  }

  ghost predicate LeadsToModel(types: Types, a: TypeRef, m: TypeRef) {
    exists chain :: ChainFromTo(types, chain, a, m)
  }

  lemma ChainTail(types: Types, chain: seq<TypeRef>)
    requires IsChain(types, chain) && |chain| > 1
    ensures IsChain(types, chain[1..])
  {
    forall i | 0 <= i < |chain| - 2
      ensures AliasStep(types, chain[1..][i], chain[1..][i + 1])
    {
      assert AliasStep(types, chain[i + 1], chain[i + 2]);
    }
  }

  lemma LeadsToModelStep(types: Types, a: TypeRef, b: TypeRef, m: TypeRef)
    requires AliasStep(types, a, b) && LeadsToModel(types, b, m)
    ensures LeadsToModel(types, a, m)
  {
    var chain :| ChainFromTo(types, chain, b, m);
    assert ChainFromTo(types, [a] + chain, a, m);
  }

  /** Chains are determined by their start. */
  lemma {:induction false} ChainIsUnique(types: Types, c: seq<TypeRef>, d: seq<TypeRef>)
    requires IsChain(types, c) && IsChain(types, d) && c[0] == d[0]
    ensures c == d
    decreases |c|
  {
    if |c| > 1 {
      assert AliasStep(types, c[0], c[1]);
      assert |d| > 1;
      assert AliasStep(types, d[0], d[1]);
      ChainTail(types, c);
      ChainTail(types, d);
      ChainIsUnique(types, c[1..], d[1..]);
      assert c == [c[0]] + c[1..] && d == [d[0]] + d[1..];
    } else {
      assert |d| > 1 ==> AliasStep(types, d[0], d[1]);
    }
  }

  /** A chain never meets the same name twice, so giving up on a repetition loses nothing. */
  lemma ChainHasNoRepeat(types: Types, chain: seq<TypeRef>, i: nat, j: nat)
    requires IsChain(types, chain) && i < j < |chain|
    ensures chain[i] != chain[j]
  {
    if chain[i] == chain[j] {
      ChainSuffix(types, chain, i);
      ChainSuffix(types, chain, j);
      ChainIsUnique(types, chain[i..], chain[j..]);
    }
  }

  lemma {:induction false} ChainSuffix(types: Types, chain: seq<TypeRef>, i: nat)
    requires IsChain(types, chain) && i < |chain|
    ensures IsChain(types, chain[i..])
    decreases i
  {
    if i == 0 {
      assert chain[0..] == chain;
    } else {
      ChainTail(types, chain);
      ChainSuffix(types, chain[1..], i - 1);
      assert chain[1..][i - 1..] == chain[i..];
    }
  }

  lemma {:induction false} ChaseFollowsChain(types: Types, chain: seq<TypeRef>, k: nat, seen: set<TypeRef>)
    requires IsChain(types, chain) && k < |chain|
    requires forall x :: x in seen ==> exists i :: 0 <= i < k && chain[i] == x
    ensures Chase(types, chain[k], seen) == Some(chain[|chain| - 1])
    decreases |chain| - k
  {
    forall x | x in seen
      ensures x != chain[k]
    {
      var i :| 0 <= i < k && chain[i] == x;
      ChainHasNoRepeat(types, chain, i, k);
    }
    if k < |chain| - 1 {
      assert AliasStep(types, chain[k], chain[k + 1]);
      ChaseFollowsChain(types, chain, k + 1, seen + {chain[k]});
    }
  }

  lemma {:induction false} ChaseFindsChain(types: Types, a: TypeRef, seen: set<TypeRef>)
    requires Chase(types, a, seen).Some?
    ensures LeadsToModel(types, a, Chase(types, a, seen).value)
    decreases types.Keys - seen
  {
    if types[a].Model? {
      assert ChainFromTo(types, [a], a, a);
    } else {
      var next := DirectNamed(types[a].expression).value;
      ChaseFindsChain(types, next, seen + {a});
      LeadsToModelStep(types, a, next, Chase(types, a, seen).value);
    }
  }

  /** The loop finds exactly the model that the alias chain ends at. */
  lemma ChaseIsExact(types: Types, a: TypeRef, m: TypeRef)
    ensures Chase(types, a, {}) == Some(m) <==> LeadsToModel(types, a, m)
  {
    if Chase(types, a, {}) == Some(m) {
      ChaseFindsChain(types, a, {});
    }
    if LeadsToModel(types, a, m) {
      var chain :| ChainFromTo(types, chain, a, m);
      ChaseFollowsChain(types, chain, 0, {});
    }
  }

  // ----- Containment -----

  /** The named references a model holds directly, with the models behind them. */
  function Held(types: Types, m: TypeRef): set<(TypeRef, TypeRef)>
    requires IsModel(types, m)
  {
    set f | f in types[m].fields && DirectModel(types, types[m].fields[f]).Some? ::
      DirectModel(types, types[m].fields[f]).value
  }

  /** Which models each model holds without indirection. */
  function Containment(types: Types): Graph<TypeRef> {
    map m | m in types && types[m].Model? :: set h | h in Held(types, m) :: h.1
  }

  /** The direct edges that lie on a containment cycle. */
  ghost predicate Recursive(types: Types, source: TypeRef, named: TypeRef) {
    IsModel(types, source) && exists h ::
      h in Held(types, source) && h.0 == named && Reaches(Containment(types), h.1, source)
  }

  /** The depth-first search with its shared visited set. */
  method Reachable(edges: Graph<TypeRef>, current: TypeRef, wanted: TypeRef, visited: set<TypeRef>)
    returns (found: bool, seen: set<TypeRef>)
    requires wanted !in visited
    ensures visited <= seen
    ensures found ==> Reaches(edges, current, wanted)
    ensures !found ==> current in seen && wanted !in seen
    ensures !found ==> forall a, b :: a in seen - visited && Edge(edges, a, b) ==> b in seen
    decreases edges.Keys - visited
  {
    seen := visited;
    if current == wanted {
      ReachesSelf(edges, current);
      return true, seen;
    }
    if current in seen {
      return false, seen;
    }
    seen := seen + {current};
    if current !in edges {
      return false, seen;
    }
    var rest := edges[current];
    while rest != {}
      invariant rest <= edges[current] && visited + {current} <= seen && wanted !in seen
      invariant forall b :: b in edges[current] - rest ==> b in seen
      invariant forall a, b :: a in seen - visited - {current} && Edge(edges, a, b) ==> b in seen
      decreases rest
    {
      var next :| next in rest;
      ghost var before := seen;
      found, seen := Reachable(edges, next, wanted, seen);
      if found {
        assert Edge(edges, current, next);
        ReachesStep(edges, current, next, wanted);
        return true, seen;
      }
      StillClosed(edges, before, seen, visited + {current});
      rest := rest - {next};
    }
    return false, seen;
  }

  lemma StillClosed(edges: Graph<TypeRef>, before: set<TypeRef>, after: set<TypeRef>, outside: set<TypeRef>)
    requires outside <= before <= after
    requires forall a, b :: a in before - outside && Edge(edges, a, b) ==> b in before
    requires forall a, b :: a in after - before && Edge(edges, a, b) ==> b in after
    ensures forall a, b :: a in after - outside && Edge(edges, a, b) ==> b in after
  {
  }

  /** The search from scratch decides reachability. */
  method Search(edges: Graph<TypeRef>, from: TypeRef, wanted: TypeRef) returns (found: bool)
    ensures found <==> Reaches(edges, from, wanted)
  {
    var seen;
    found, seen := Reachable(edges, from, wanted, {});
    if !found {
      forall path | Connects(edges, path, from, wanted)
        ensures false
      {
        SearchedIsClosed(edges, seen);
        PathStaysInside(edges, seen, path);
      }
    }
  }

  lemma SearchedIsClosed(edges: Graph<TypeRef>, seen: set<TypeRef>)
    requires forall a, b :: a in seen && Edge(edges, a, b) ==> b in seen
    ensures Closed(edges, seen)
  {
    forall a | a in seen && a in edges
      ensures edges[a] <= seen
    {
      assert forall b :: b in edges[a] ==> Edge(edges, a, b);
    }
  }

  /** The boxed edges: per model, each held reference whose model leads back to it. */
  method RecursiveModelEdges(types: Types) returns (recursive: set<(TypeRef, TypeRef)>)
    ensures forall source, named :: (source, named) in recursive <==> Recursive(types, source, named)
  {
    recursive := {};
    var edges := Containment(types);
    var sources := edges.Keys;
    while sources != {}
      invariant sources <= edges.Keys
      invariant forall source, named :: (source, named) in recursive <==>
                  source !in sources && Recursive(types, source, named)
      decreases sources
    {
      var source :| source in sources;
      var boxed := BoxedReferences(types, edges, source);
      ghost var before := recursive;
      recursive := recursive + set n | n in boxed :: (source, n);
      sources := sources - {source};
    }
  }

  /** The boxed references of one model. */
  method BoxedReferences(types: Types, edges: Graph<TypeRef>, source: TypeRef) returns (boxed: set<TypeRef>)
    requires IsModel(types, source) && edges == Containment(types)
    ensures forall named :: named in boxed <==> Recursive(types, source, named)
  {
    boxed := {};
    var rest := Held(types, source);
    while rest != {}
      invariant rest <= Held(types, source)
      invariant forall named :: named in boxed <==>
        exists h :: h in Held(types, source) - rest && h.0 == named && Reaches(edges, h.1, source)
      decreases rest
    {
      var h :| h in rest;
      var back := Search(edges, h.1, source);
      rest := rest - {h};
      if back {
        boxed := boxed + {h.0};
      }
    }
  }

  // ----- Generated declarations -----

  /** The Rust type a field or alias is rendered as. */
  datatype RustType =
    | Scalar(name: string)
    | Path(reference: TypeRef)
    | Boxed(reference: TypeRef)
    | Vec(item: RustType)
    | StringMap(value: RustType)
    | NullableOf(value: RustType)
    | Query
    | Page(item: RustType)

  datatype Declaration =
    | Struct(members: map<string, RustType>)
    | EnumDeclaration
    | TypeAlias(target: RustType)

  function RenderExpr(e: TypeExpression, model: Option<TypeRef>, recursive: set<(TypeRef, TypeRef)>): RustType {
    match e
    case Primitive(name) => Scalar(name)
    case Named(r) => if model.Some? && (model.value, r) in recursive then Boxed(r) else Path(r)
    case List(item) => Vec(RenderExpr(item, None, recursive))
    case Map(value) => StringMap(RenderExpr(value, None, recursive))
    case Nullable(value) => NullableOf(RenderExpr(value, model, recursive))
    case CursorQuery => Query
    case CursorPage(item) => Page(RenderExpr(item, None, recursive))
  }

  function Generate(types: Types, recursive: set<(TypeRef, TypeRef)>): map<TypeRef, Declaration> {
    map t | t in types ::
      match types[t]
      case Model(fields) => Struct(map f | f in fields :: RenderExpr(fields[f], Some(t), recursive))
      case Enum => EnumDeclaration
      case Alias(e) => TypeAlias(RenderExpr(e, None, recursive))
  }

  /** What a Rust value stores inline: boxes, vectors and maps store a pointer instead. */
  function StoredInline(t: RustType): Option<TypeRef> {
    match t
    case Path(r) => Some(r)
    case NullableOf(value) => StoredInline(value)
    case _ => None
  }

  function InlineParts(d: Declaration): set<TypeRef> {
    match d
    case Struct(members) => set m | m in members && StoredInline(members[m]).Some? :: StoredInline(members[m]).value
    case EnumDeclaration => {}
    case TypeAlias(target) => if StoredInline(target).Some? then {StoredInline(target).value} else {}
  }

  /** Which declarations each generated declaration stores inline. */
  function Layout(declarations: map<TypeRef, Declaration>): Graph<TypeRef> {
    map t | t in declarations :: InlineParts(declarations[t])
  }

  lemma {:induction false} RenderedInline(e: TypeExpression, model: Option<TypeRef>, recursive: set<(TypeRef, TypeRef)>)
    ensures var named := DirectNamed(e);
            StoredInline(RenderExpr(e, model, recursive)) ==
            if named.Some? && model.Some? && (model.value, named.value) in recursive then None else named
  {
    if e.Nullable? {
      RenderedInline(e.value, model, recursive);
    }
  }

  /** Exactly the recursive edges. */
  ghost predicate ExactlyRecursive(types: Types, recursive: set<(TypeRef, TypeRef)>) {
    forall source, named :: (source, named) in recursive <==> Recursive(types, source, named)
  }

  /** The rendered type is a box, possibly inside nullable wrappers. */
  predicate IsBox(t: RustType) {
    t.Boxed? || (t.NullableOf? && IsBox(t.value))
  }

  lemma {:induction false} RenderedBox(e: TypeExpression, model: TypeRef, recursive: set<(TypeRef, TypeRef)>)
    ensures IsBox(RenderExpr(e, Some(model), recursive))
       <==> DirectNamed(e).Some? && (model, DirectNamed(e).value) in recursive
  {
    if e.Nullable? {
      RenderedBox(e.value, model, recursive);
    }
  }

  /**
   A field is boxed exactly when the model it stands for, through aliases and nullables,
   leads back to the declaring model by directly held fields.
   */
  lemma FieldIsBoxedExactly(types: Types, recursive: set<(TypeRef, TypeRef)>, source: TypeRef, field: string)
    requires ExactlyRecursive(types, recursive) && IsModel(types, source) && field in types[source].fields
    ensures var e := types[source].fields[field];
            IsBox(RenderExpr(e, Some(source), recursive)) <==>
            exists m :: DirectNamed(e).Some? && LeadsToModel(types, DirectNamed(e).value, m)
                        && Reaches(Containment(types), m, source)
  {
    var e := types[source].fields[field];
    RenderedBox(e, source, recursive);
    if DirectNamed(e).Some? {
      var named := DirectNamed(e).value;
      if Recursive(types, source, named) {
        var h :| h in Held(types, source) && h.0 == named && Reaches(Containment(types), h.1, source);
        var f :| f in types[source].fields && DirectModel(types, types[source].fields[f]) == Some(h);
        ChaseIsExact(types, named, h.1);
      }
      forall m | LeadsToModel(types, named, m) && Reaches(Containment(types), m, source)
        ensures Recursive(types, source, named)
      {
        HeldThrough(types, source, named, m);
        assert (named, m).0 == named;
      }
    }
  }

  /** An inline edge of a generated struct comes from an unboxed field. */
  lemma StructEdge(types: Types, recursive: set<(TypeRef, TypeRef)>, a: TypeRef, b: TypeRef)
    requires IsModel(types, a) && Edge(Layout(Generate(types, recursive)), a, b)
    ensures (a, b) !in recursive
    ensures exists f :: f in types[a].fields && DirectNamed(types[a].fields[f]) == Some(b)
  {
    var declaration := Generate(types, recursive)[a];
    var f :| f in declaration.members && StoredInline(declaration.members[f]) == Some(b);
    RenderedInline(types[a].fields[f], Some(a), recursive);
    assert DirectNamed(types[a].fields[f]) == Some(b);
  }

  lemma AliasEdge(types: Types, recursive: set<(TypeRef, TypeRef)>, a: TypeRef, b: TypeRef)
    requires a in types && !types[a].Model? && Edge(Layout(Generate(types, recursive)), a, b)
    ensures AliasStep(types, a, b)
  {
    if types[a].Alias? {
      RenderedInline(types[a].expression, None, recursive);
    }
  }

  lemma HeldThrough(types: Types, a: TypeRef, b: TypeRef, m: TypeRef)
    requires IsModel(types, a) && LeadsToModel(types, b, m)
    requires exists f :: f in types[a].fields && DirectNamed(types[a].fields[f]) == Some(b)
    ensures (b, m) in Held(types, a) && Edge(Containment(types), a, m)
  {
    ChaseIsExact(types, b, m);
    var f :| f in types[a].fields && DirectNamed(types[a].fields[f]) == Some(b);
    assert DirectModel(types, types[a].fields[f]) == Some((b, m));
    assert (b, m) in Held(types, a);
  }

  /** An inline walk to a model goes through the model its start stands for. */
  lemma {:induction false} WalkToModel(types: Types, recursive: set<(TypeRef, TypeRef)>, path: seq<TypeRef>)
    returns (m: TypeRef)
    requires IsPath(Layout(Generate(types, recursive)), path) && IsModel(types, path[|path| - 1])
    ensures LeadsToModel(types, path[0], m) && Reaches(Containment(types), m, path[|path| - 1])
    decreases |path|
  {
    var layout := Layout(Generate(types, recursive));
    if |path| == 1 {
      m := path[0];
      assert ChainFromTo(types, [m], m, m);
      ReachesSelf(Containment(types), m);
    } else {
      assert Edge(layout, path[0], path[1]);
      PathTail(layout, path);
      var next := WalkToModel(types, recursive, path[1..]);
      if IsModel(types, path[0]) {
        StructEdge(types, recursive, path[0], path[1]);
        HeldThrough(types, path[0], path[1], next);
        m := path[0];
        assert ChainFromTo(types, [m], m, m);
        ReachesStep(Containment(types), m, next, path[|path| - 1]);
      } else {
        AliasEdge(types, recursive, path[0], path[1]);
        LeadsToModelStep(types, path[0], path[1], next);
        m := next;
      }
    }
  }

  /** No generated struct stores itself inline, however long the way round. */
  lemma NoStructContainsItself(types: Types, recursive: set<(TypeRef, TypeRef)>, path: seq<TypeRef>)
    requires ExactlyRecursive(types, recursive)
    requires IsPath(Layout(Generate(types, recursive)), path) && |path| >= 2 && IsModel(types, path[0])
    ensures path[0] != path[|path| - 1]
  {
    var s := path[0];
    assert Edge(Layout(Generate(types, recursive)), s, path[1]);
    StructEdge(types, recursive, s, path[1]);
    PathTail(Layout(Generate(types, recursive)), path);
    if IsModel(types, path[|path| - 1]) {
      var m := WalkToModel(types, recursive, path[1..]);
      HeldThrough(types, s, path[1], m);
      assert !Recursive(types, s, path[1]);
      assert (path[1], m).0 == path[1];
    }
  }

  // ----- Finite layouts -----

  /** Aliases alone. */
  function Aliases(types: Types): Graph<TypeRef> {
    map t | t in types ::
      if types[t].Alias? && DirectNamed(types[t].expression).Some? then {DirectNamed(types[t].expression).value} else {}
  }

  /**
   Every generated layout is finite exactly when no alias stands for itself: boxing takes
   care of every cycle that goes through a model.
   */
  lemma LayoutIsFinite(types: Types, recursive: set<(TypeRef, TypeRef)>)
    requires ExactlyRecursive(types, recursive)
    ensures Acyclic(Layout(Generate(types, recursive))) <==> Acyclic(Aliases(types))
  {
    var layout := Layout(Generate(types, recursive));
    if Acyclic(layout) {
      forall path | IsPath(Aliases(types), path) && |path| >= 2
        ensures path[0] != path[|path| - 1]
      {
        AliasPathIsStored(types, recursive, path);
      }
    }
    if Acyclic(Aliases(types)) {
      forall path | IsPath(layout, path) && |path| >= 2
        ensures path[0] != path[|path| - 1]
      {
        CycleIsAliases(types, recursive, path);
      }
    }
  }

  lemma AliasPathIsStored(types: Types, recursive: set<(TypeRef, TypeRef)>, path: seq<TypeRef>)
    requires IsPath(Aliases(types), path)
    ensures IsPath(Layout(Generate(types, recursive)), path)
  {
    var layout := Layout(Generate(types, recursive));
    forall i | 0 <= i < |path| - 1
      ensures Edge(layout, path[i], path[i + 1])
    {
      assert Edge(Aliases(types), path[i], path[i + 1]);
      RenderedInline(types[path[i]].expression, None, recursive);
    }
  }

  /** A closed inline walk goes through aliases only. */
  lemma CycleIsAliases(types: Types, recursive: set<(TypeRef, TypeRef)>, path: seq<TypeRef>)
    requires ExactlyRecursive(types, recursive) && Acyclic(Aliases(types))
    requires IsPath(Layout(Generate(types, recursive)), path) && |path| >= 2
    ensures path[0] != path[|path| - 1]
  {
    var layout := Layout(Generate(types, recursive));
    if path[0] == path[|path| - 1] {
      if k :| 0 <= k < |path| - 1 && IsModel(types, path[k]) {
        var turned := Turned(layout, path, k);
        NoStructContainsItself(types, recursive, turned);
      } else {
        forall i | 0 <= i < |path| - 1
          ensures Edge(Aliases(types), path[i], path[i + 1])
        {
          assert Edge(layout, path[i], path[i + 1]);
          AliasEdge(types, recursive, path[i], path[i + 1]);
        }
        assert IsPath(Aliases(types), path);
      }
    }
  }

  /** A closed walk, started from another of its nodes. */
  lemma Turned(g: Graph<TypeRef>, path: seq<TypeRef>, k: nat) returns (turned: seq<TypeRef>)
    requires IsPath(g, path) && |path| >= 2 && path[0] == path[|path| - 1] && k < |path| - 1
    ensures IsPath(g, turned) && |turned| >= 2 && turned[0] == path[k] == turned[|turned| - 1]
  {
    turned := path[k..] + path[1..k + 1];
    forall i | 0 <= i < |turned| - 1
      ensures Edge(g, turned[i], turned[i + 1])
    {
      var n := |path| - k;
      if i < n - 1 {
        assert Edge(g, path[k + i], path[k + i + 1]);
      } else if i == n - 1 {
        assert Edge(g, path[0], path[1]);
      } else {
        assert Edge(g, path[i - n + 1], path[i - n + 2]);
      }
    }
  }
}
