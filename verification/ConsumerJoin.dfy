/** The rows of the consumer listing: authority bindings joined with the live consumers. */
module ConsumerJoin {
  import opened Wrappers

  datatype Binding = Binding(
    resource: string,
    stream: string,
    consumer: string,
    filters: seq<string>,
    participant: string,
    localName: string,
    ownerKind: string,
    ownerId: string)

  datatype Info = Info(
    stream: string,
    name: string,
    durable: bool,
    filters: seq<string>,
    status: string,
    resource: Option<string>,
    contract: Option<string>,
    group: Option<string>,
    deployment: Option<string>,
    managedBy: Option<string>)

  datatype Row = Row(
    resource: string,
    stream: string,
    consumer: string,
    filters: seq<string>,
    status: string,
    managedBy: string,
    deployment: Option<string>,
    contract: Option<string>,
    group: Option<string>)

  function ResourceOf(info: Info): string {
    if info.resource.Some? then info.resource.value else info.name
  }

  function MissingRow(b: Binding): Row {
    Row(b.resource, b.stream, b.consumer, b.filters, "missing", "authority",
        if b.ownerKind == "deployment" then Some(b.ownerId) else None, Some(b.participant), Some(b.localName))
  }

  /** A bound consumer takes its attribution from the binding. */
  function BoundRow(info: Info, b: Binding): Row {
    Row(b.resource, info.stream, info.name, info.filters, info.status, "authority",
        if b.ownerKind == "deployment" then Some(b.ownerId) else info.deployment,
        Some(b.participant), Some(b.localName))
  }

  function UnmatchedRow(info: Info, projector: string -> bool): Row {
    var plain := Row(ResourceOf(info), info.stream, info.name, info.filters, info.status, "external", None, None, None);
    var attributed := plain.(deployment := info.deployment, contract := info.contract, group := info.group);
    if info.managedBy == Some("authority") then attributed.(status := "orphaned", managedBy := "authority")
    else if info.managedBy == Some("platform") then attributed.(managedBy := "platform")
    else if projector(info.name) then
      plain.(managedBy := "platform", contract := Some("trellis.events@v1"), group := Some("projector"))
    else plain
  }

  // ----- The join -----

  predicate Serves(info: Info, b: Binding) {
    info.stream == b.stream && info.name == b.consumer
  }

  /** Where a row comes from: a binding with the consumer it claimed, or a consumer nothing claimed. */
  datatype Origin = FromBinding(binding: nat, claimed: Option<nat>) | FromLive(live: nat)

  function Consumer(o: Origin): Option<nat> {
    match o
    case FromBinding(_, claimed) => claimed
    case FromLive(j) => Some(j)
  }

  predicate OriginExists(live: seq<Info>, bindings: seq<Binding>, o: Origin) {
    && (o.FromBinding? ==> o.binding < |bindings|)
    && (Consumer(o).Some? ==> Consumer(o).value < |live| && live[Consumer(o).value].durable)
    && (o.FromBinding? && o.claimed.Some? ==> Serves(live[o.claimed.value], bindings[o.binding]))
  }

  function RowOf(live: seq<Info>, bindings: seq<Binding>, projector: string -> bool, o: Origin): Row
    requires OriginExists(live, bindings, o)
  {
    match o
    case FromBinding(b, Some(j)) => BoundRow(live[j], bindings[b])
    case FromBinding(b, None) => MissingRow(bindings[b])
    case FromLive(j) => UnmatchedRow(live[j], projector)
  }

  predicate RowsFollow(live: seq<Info>, bindings: seq<Binding>, projector: string -> bool, rows: seq<Row>,
                       origins: seq<Origin>)
  {
    && |rows| == |origins|
    && forall i :: 0 <= i < |rows| ==>
         OriginExists(live, bindings, origins[i]) && rows[i] == RowOf(live, bindings, projector, origins[i])
  }

  /** No consumer stands behind two rows. */
  predicate ClaimedOnce(origins: seq<Origin>) {
    forall i, k :: 0 <= i < k < |origins| && Consumer(origins[i]).Some? ==> Consumer(origins[i]) != Consumer(origins[k])
  }

  /** Consumer `j` stands behind one of the rows. */
  predicate HasRow(origins: seq<Origin>, j: nat) {
    exists i :: 0 <= i < |origins| && Consumer(origins[i]) == Some(j)
  }

  /**
   Each binding has one row, in order, each live durable consumer is behind exactly one
   row, and a binding is reported missing only when every durable consumer it names is
   claimed by an earlier binding.
   */
  predicate Accounted(live: seq<Info>, bindings: seq<Binding>, projector: string -> bool, rows: seq<Row>,
                      origins: seq<Origin>)
  {
    && RowsFollow(live, bindings, projector, rows, origins)
    && |origins| >= |bindings|
    && (forall i :: 0 <= i < |origins| ==> if i < |bindings| then origins[i].FromBinding? && origins[i].binding == i
                                           else origins[i].FromLive?)
    && ClaimedOnce(origins)
    && (forall j :: 0 <= j < |live| && live[j].durable ==> HasRow(origins, j))
    && forall b, j :: 0 <= b < |bindings| && origins[b] == FromBinding(b, None) && 0 <= j < |live| && live[j].durable
                      && Serves(live[j], bindings[b])
         ==> HasRow(origins[..b], j)
  }

  /** The durable consumers, with their positions. */
  method KeepDurable(live: seq<Info>) returns (kept: seq<Info>, ghost ids: seq<nat>)
    ensures Tracks(live, kept, ids)
    ensures forall j :: 0 <= j < |live| && live[j].durable ==> j in ids
  {
    kept, ids := [], [];
    for i := 0 to |live|
      invariant Tracks(live, kept, ids)
      invariant forall e :: 0 <= e < |ids| ==> ids[e] < i
      invariant forall j :: 0 <= j < i && live[j].durable ==> j in ids
    {
      if live[i].durable {
        kept, ids := kept + [live[i]], ids + [i];
      }
    }
  }

  /** `kept[e]` is the durable consumer `ids[e]`, without repetition. */
  predicate Tracks(live: seq<Info>, kept: seq<Info>, ids: seq<nat>) {
    && |kept| == |ids|
    && (forall e :: 0 <= e < |ids| ==> ids[e] < |live| && live[ids[e]].durable && kept[e] == live[ids[e]])
    && forall e, f :: 0 <= e < f < |ids| ==> ids[e] != ids[f]
  }

  function SwapRemove<T>(s: seq<T>, i: nat): (r: seq<T>)
    requires i < |s|
    ensures |r| == |s| - 1
  {
    if i == |s| - 1 then s[..i] else s[..|s| - 1][i := s[|s| - 1]]
  }

  lemma SwapRemoveMembers(ids: seq<nat>, i: nat)
    requires i < |ids| && forall e, f :: 0 <= e < f < |ids| ==> ids[e] != ids[f]
    ensures ids[i] !in SwapRemove(ids, i)
    ensures forall j :: j in ids ==> j in SwapRemove(ids, i) || j == ids[i]
    ensures forall j :: j in SwapRemove(ids, i) ==> j in ids
  {
    var r := SwapRemove(ids, i);
    forall j | j in ids && j != ids[i]
      ensures j in r
    {
      var e :| 0 <= e < |ids| && ids[e] == j;
      assert r[if e == |ids| - 1 then i else e] == j;
    }
  }

  lemma SwapRemoveTracks(live: seq<Info>, kept: seq<Info>, ids: seq<nat>, i: nat)
    requires Tracks(live, kept, ids) && i < |kept|
    ensures Tracks(live, SwapRemove(kept, i), SwapRemove(ids, i))
  {
    var k, r := SwapRemove(kept, i), SwapRemove(ids, i);
    var last := |ids| - 1;
    forall e | 0 <= e < |r|
      ensures r[e] == ids[if e == i then last else e] && k[e] == kept[if e == i then last else e]
    {
    }
  }

  method Position(kept: seq<Info>, b: Binding) returns (index: nat)
    ensures index <= |kept|
    ensures index < |kept| ==> Serves(kept[index], b)
    ensures forall e :: 0 <= e < index ==> !Serves(kept[e], b)
  {
    index := 0;
    while index < |kept| && !Serves(kept[index], b)
      invariant index <= |kept|
      invariant forall e :: 0 <= e < index ==> !Serves(kept[e], b)
    {
      index := index + 1;
    }
  }

  /** What holds while bindings are being joined: nothing is claimed twice, nothing is dropped. */
  predicate Joining(live: seq<Info>, bindings: seq<Binding>, b: nat, ids: seq<nat>, origins: seq<Origin>) {
    && |origins| == b <= |bindings|
    && (forall i :: 0 <= i < b ==> origins[i].FromBinding? && origins[i].binding == i)
    && ClaimedOnce(origins)
    && (forall e :: 0 <= e < |ids| ==> !HasRow(origins, ids[e]))
    && (forall j :: 0 <= j < |live| && live[j].durable ==> j in ids || HasRow(origins, j))
    && forall i, j :: 0 <= i < b && origins[i].claimed == None && 0 <= j < |live| && live[j].durable
                      && Serves(live[j], bindings[i])
         ==> HasRow(origins[..i], j)
  }

  lemma HasRowGrows(origins: seq<Origin>, o: Origin, j: nat)
    ensures HasRow(origins + [o], j) <==> HasRow(origins, j) || Consumer(o) == Some(j)
  {
    var more := origins + [o];
    if HasRow(origins, j) {
      var i :| 0 <= i < |origins| && Consumer(origins[i]) == Some(j);
      assert Consumer(more[i]) == Some(j);
    }
    if Consumer(o) == Some(j) {
      assert Consumer(more[|origins|]) == Some(j);
    }
  }

  lemma JoinClaims(live: seq<Info>, bindings: seq<Binding>, kept: seq<Info>, b: nat, ids: seq<nat>,
                   origins: seq<Origin>, i: nat)
    requires Tracks(live, kept, ids) && Joining(live, bindings, b, ids, origins) && b < |bindings| && i < |ids|
    ensures Joining(live, bindings, b + 1, SwapRemove(ids, i), origins + [FromBinding(b, Some(ids[i]))])
  {
    var o := FromBinding(b, Some(ids[i]));
    SwapRemoveMembers(ids, i);
    forall j: nat
      ensures HasRow(origins + [o], j) <==> HasRow(origins, j) || j == ids[i]
    {
      HasRowGrows(origins, o, j);
    }
    ClaimedStaysOnce(origins, o);
    PrefixesKept(origins, o);
  }

  lemma JoinMisses(live: seq<Info>, bindings: seq<Binding>, kept: seq<Info>, b: nat, ids: seq<nat>,
                   origins: seq<Origin>)
    requires Tracks(live, kept, ids) && Joining(live, bindings, b, ids, origins) && b < |bindings|
    requires forall e :: 0 <= e < |kept| ==> !Serves(kept[e], bindings[b])
    ensures Joining(live, bindings, b + 1, ids, origins + [FromBinding(b, None)])
  {
    var o := FromBinding(b, None);
    forall j: nat
      ensures HasRow(origins + [o], j) <==> HasRow(origins, j)
    {
      HasRowGrows(origins, o, j);
    }
    ClaimedStaysOnce(origins, o);
    PrefixesKept(origins, o);
  }

  lemma ClaimedStaysOnce(origins: seq<Origin>, o: Origin)
    requires ClaimedOnce(origins) && (Consumer(o).Some? ==> !HasRow(origins, Consumer(o).value))
    ensures ClaimedOnce(origins + [o])
  {
  }

  lemma PrefixesKept(origins: seq<Origin>, o: Origin)
    ensures forall i :: 0 <= i <= |origins| ==> (origins + [o])[..i] == origins[..i]
  {
  }

  /** The unclaimed consumers follow, one row each. */
  method AppendUnmatched(live: seq<Info>, bindings: seq<Binding>, projector: string -> bool, kept: seq<Info>,
                         rows: seq<Row>, ghost ids: seq<nat>, ghost origins: seq<Origin>)
    returns (all: seq<Row>, ghost allOrigins: seq<Origin>)
    requires Tracks(live, kept, ids) && Joining(live, bindings, |bindings|, ids, origins)
    requires RowsFollow(live, bindings, projector, rows, origins)
    ensures Accounted(live, bindings, projector, all, allOrigins)
  {
    all, allOrigins := rows, origins;
    for e := 0 to |kept|
      invariant RowsFollow(live, bindings, projector, all, allOrigins)
      invariant |allOrigins| == |bindings| + e && allOrigins[..|bindings|] == origins
      invariant forall i :: |bindings| <= i < |allOrigins| ==> allOrigins[i] == FromLive(ids[i - |bindings|])
      invariant ClaimedOnce(allOrigins)
    {
      assert !HasRow(origins, ids[e]);
      assert forall i :: 0 <= i < |bindings| ==> allOrigins[i] == origins[i];
      all := all + [UnmatchedRow(kept[e], projector)];
      allOrigins := allOrigins + [FromLive(ids[e])];
    }
    EveryoneHasRow(live, bindings, ids, origins, allOrigins);
    forall b | 0 <= b < |bindings|
      ensures allOrigins[..b] == origins[..b] && allOrigins[b] == origins[b]
    {
      assert allOrigins[..|bindings|][..b] == allOrigins[..b];
    }
  }

  lemma EveryoneHasRow(live: seq<Info>, bindings: seq<Binding>, ids: seq<nat>, origins: seq<Origin>, all: seq<Origin>)
    requires Joining(live, bindings, |bindings|, ids, origins)
    requires |all| == |bindings| + |ids| && all[..|bindings|] == origins
    requires forall i :: |bindings| <= i < |all| ==> all[i] == FromLive(ids[i - |bindings|])
    ensures forall j :: 0 <= j < |live| && live[j].durable ==> HasRow(all, j)
  {
    forall j | 0 <= j < |live| && live[j].durable
      ensures HasRow(all, j)
    {
      if j in ids {
        var e :| 0 <= e < |ids| && ids[e] == j;
        assert Consumer(all[|bindings| + e]) == Some(j);
      } else {
        var i :| 0 <= i < |origins| && Consumer(origins[i]) == Some(j);
        assert Consumer(all[i]) == Some(j);
      }
    }
  }

  method Join(live: seq<Info>, bindings: seq<Binding>, projector: string -> bool)
    returns (rows: seq<Row>, ghost origins: seq<Origin>)
    ensures Accounted(live, bindings, projector, rows, origins)
  {
    ghost var ids;
    var kept;
    kept, ids := KeepDurable(live);
    rows, origins := [], [];
    for b := 0 to |bindings|
      invariant Tracks(live, kept, ids)
      invariant Joining(live, bindings, b, ids, origins)
      invariant RowsFollow(live, bindings, projector, rows, origins)
    {
      var index := Position(kept, bindings[b]);
      if index < |kept| {
        JoinClaims(live, bindings, kept, b, ids, origins, index);
        SwapRemoveTracks(live, kept, ids, index);
        rows := rows + [BoundRow(kept[index], bindings[b])];
        origins := origins + [FromBinding(b, Some(ids[index]))];
        kept, ids := SwapRemove(kept, index), SwapRemove(ids, index);
      } else {
        JoinMisses(live, bindings, kept, b, ids, origins);
        rows := rows + [MissingRow(bindings[b])];
        origins := origins + [FromBinding(b, None)];
      }
    }
    rows, origins := AppendUnmatched(live, bindings, projector, kept, rows, ids, origins);
  }
}
