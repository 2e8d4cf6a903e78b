/** Cursor paging over the consumer rows. */
module ConsumerPages {
  import opened Wrappers
  import opened StringOrder
  import opened ConsumerJoin
  import Subjects

  const DEFAULT_LIMIT: nat := 100
  const MAX_LIMIT: nat := 500

  datatype Key = Key(resource: string, stream: string, consumer: string)

  predicate KeyLess(a: Key, b: Key) {
    || Less(a.resource, b.resource)
    || (a.resource == b.resource
        && (Less(a.stream, b.stream) || (a.stream == b.stream && Less(a.consumer, b.consumer))))
  }

  lemma KeyLessIsStrict(a: Key)
    ensures !KeyLess(a, a)
  {
    LessIsIrreflexive(a.resource);
    LessIsIrreflexive(a.stream);
    LessIsIrreflexive(a.consumer);
  }

  lemma KeyLessIsTotal(a: Key, b: Key)
    ensures KeyLess(a, b) || KeyLess(b, a) || a == b
  {
    LessIsTotal(a.resource, b.resource);
    LessIsTotal(a.stream, b.stream);
    LessIsTotal(a.consumer, b.consumer);
  }

  lemma KeyLessIsTransitive(a: Key, b: Key, c: Key)
    requires KeyLess(a, b) && KeyLess(b, c)
    ensures KeyLess(a, c)
  {
    if Less(a.resource, b.resource) && Less(b.resource, c.resource) {
      LessIsTransitive(a.resource, b.resource, c.resource);
    }
    if Less(a.stream, b.stream) && Less(b.stream, c.stream) {
      LessIsTransitive(a.stream, b.stream, c.stream);
    }
    if Less(a.consumer, b.consumer) && Less(b.consumer, c.consumer) {
      LessIsTransitive(a.consumer, b.consumer, c.consumer);
    }
  }

  function KeyOf(row: Row): Key {
    Key(row.resource, row.stream, row.consumer)
  }

  /** What a caller asks for; the page position is not part of it. */
  datatype Query = Query(
    statuses: set<string>,
    subject: Option<string>,
    deployment: Option<string>,
    resource: Option<string>,
    contract: Option<string>)

  predicate Wanted(row: Row, q: Query) {
    && (q.statuses == {} || row.status in q.statuses)
    && (q.deployment.None? || row.deployment == q.deployment)
    && (q.resource.None? || row.resource == q.resource.value)
    && (q.contract.None? || row.contract == q.contract)
    && (q.subject.None? ||
        exists i :: 0 <= i < |row.filters|
                    && Subjects.Intersect(Subjects.Split(row.filters[i]), Subjects.Split(q.subject.value)))
  }

  function Select(rows: seq<Row>, keep: Row -> bool): seq<Row> {
    if rows == [] then []
    else if keep(rows[0]) then [rows[0]] + Select(rows[1..], keep)
    else Select(rows[1..], keep)
  }

  // ----- Sorting by key -----

  function Insert(row: Row, sorted: seq<Row>): seq<Row> {
    if sorted == [] || !KeyLess(KeyOf(sorted[0]), KeyOf(row)) then [row] + sorted
    else [sorted[0]] + Insert(row, sorted[1..])
  }

  /** The stable sort by key. */
  function SortRows(rows: seq<Row>): seq<Row> {
    if rows == [] then [] else Insert(rows[0], SortRows(rows[1..]))
  }

  predicate Ordered(rows: seq<Row>) {
    |rows| > 1 ==> !KeyLess(KeyOf(rows[1]), KeyOf(rows[0])) && Ordered(rows[1..])
  }

  predicate HasKey(rows: seq<Row>, k: Key) {
    rows != [] && (KeyOf(rows[0]) == k || HasKey(rows[1..], k))
  }

  predicate DistinctKeys(rows: seq<Row>) {
    rows != [] ==> !HasKey(rows[1..], KeyOf(rows[0])) && DistinctKeys(rows[1..])
  }

  lemma {:induction false} InsertSorts(row: Row, sorted: seq<Row>)
    requires Ordered(sorted)
    ensures Ordered(Insert(row, sorted))
    ensures multiset(Insert(row, sorted)) == multiset{row} + multiset(sorted)
    ensures forall k :: HasKey(Insert(row, sorted), k) <==> KeyOf(row) == k || HasKey(sorted, k)
    ensures DistinctKeys(Insert(row, sorted)) <==> !HasKey(sorted, KeyOf(row)) && DistinctKeys(sorted)
  {
    var r := Insert(row, sorted);
    if sorted == [] || !KeyLess(KeyOf(sorted[0]), KeyOf(row)) {
      assert r[1..] == sorted;
    } else {
      InsertSorts(row, sorted[1..]);
      KeyLessIsStrict(KeyOf(row));
      NotBothLess(KeyOf(sorted[0]), KeyOf(row));
      assert r[1..] == Insert(row, sorted[1..]);
      assert sorted == [sorted[0]] + sorted[1..];
    }
  }

  lemma NotBothLess(a: Key, b: Key)
    requires KeyLess(a, b)
    ensures !KeyLess(b, a)
  {
    if KeyLess(b, a) {
      KeyLessIsTransitive(a, b, a);
      KeyLessIsStrict(a);
    }
  }

  /** The sort keeps every row and orders them by key. */
  lemma {:induction false} SortSorts(rows: seq<Row>)
    ensures Ordered(SortRows(rows)) && multiset(SortRows(rows)) == multiset(rows)
    ensures forall k :: HasKey(SortRows(rows), k) <==> HasKey(rows, k)
    ensures DistinctKeys(SortRows(rows)) <==> DistinctKeys(rows)
  {
    if rows != [] {
      SortSorts(rows[1..]);
      InsertSorts(rows[0], SortRows(rows[1..]));
      assert rows == [rows[0]] + rows[1..];
    }
  }

  // ----- Pages -----

  function After(rows: seq<Row>, cursor: Option<Key>): (r: seq<Row>)
    ensures |r| <= |rows|
  {
    if rows == [] then []
    else if cursor.None? || KeyLess(cursor.value, KeyOf(rows[0])) then [rows[0]] + After(rows[1..], cursor)
    else After(rows[1..], cursor)
  }

  datatype Page = Page(items: seq<Row>, next: Option<Key>)

  /** The page of `limit` rows after the cursor, with a cursor only when more rows follow. */
  function PageOf(sorted: seq<Row>, cursor: Option<Key>, limit: nat): Page
    requires limit > 0
  {
    var rest := After(sorted, cursor);
    if |rest| > limit then Page(rest[..limit], Some(KeyOf(rest[limit - 1]))) else Page(rest, None)
  }

  lemma {:induction false} AfterOnlyGreater(rows: seq<Row>, cursor: Option<Key>, i: nat)
    requires i < |After(rows, cursor)|
    ensures cursor.Some? ==> KeyLess(cursor.value, KeyOf(After(rows, cursor)[i]))
  {
    var tail := After(rows[1..], cursor);
    if cursor.None? || KeyLess(cursor.value, KeyOf(rows[0])) {
      if i > 0 {
        AfterOnlyGreater(rows[1..], cursor, i - 1);
      }
    } else {
      AfterOnlyGreater(rows[1..], cursor, i);
    }
  }

  /** A later cursor leaves no more rows. */
  lemma {:induction false} LaterLeavesFewer(rows: seq<Row>, cursor: Option<Key>, k: Key)
    requires cursor.Some? ==> KeyLess(cursor.value, k)
    ensures |After(rows, Some(k))| <= |After(rows, cursor)|
  {
    if rows != [] {
      LaterLeavesFewer(rows[1..], cursor, k);
      if cursor.Some? && KeyLess(k, KeyOf(rows[0])) {
        KeyLessIsTransitive(cursor.value, k, KeyOf(rows[0]));
      }
    }
  }

  /** The cursor of a returned row leaves strictly fewer. */
  lemma {:induction false} CursorAdvances(rows: seq<Row>, cursor: Option<Key>, i: nat)
    requires i < |After(rows, cursor)|
    ensures |After(rows, Some(KeyOf(After(rows, cursor)[i])))| < |After(rows, cursor)|
  {
    var k := KeyOf(After(rows, cursor)[i]);
    AfterOnlyGreater(rows, cursor, i);
    if cursor.None? || KeyLess(cursor.value, KeyOf(rows[0])) {
      if i == 0 {
        KeyLessIsStrict(k);
        LaterLeavesFewer(rows[1..], cursor, k);
      } else {
        CursorAdvances(rows[1..], cursor, i - 1);
      }
    } else {
      CursorAdvances(rows[1..], cursor, i);
      if KeyLess(k, KeyOf(rows[0])) {
        KeyLessIsTransitive(cursor.value, k, KeyOf(rows[0]));
      }
    }
  }

  /** All rows a caller sees that follows `next` until there is none, with limit `limits(call)` for each call. */
  function Follow(sorted: seq<Row>, cursor: Option<Key>, limits: nat -> nat, call: nat): seq<Row>
    requires forall n :: limits(n) > 0
    decreases |After(sorted, cursor)|
  {
    var page := PageOf(sorted, cursor, limits(call));
    if page.next.None? then page.items
    else
      CursorAdvances(sorted, cursor, limits(call) - 1);
      page.items + Follow(sorted, page.next, limits, call + 1)
  }

  // ----- Distinct keys: nothing is skipped or repeated -----

  lemma {:induction false} HeadIsLeast(rows: seq<Row>, i: nat)
    requires Ordered(rows) && i < |rows|
    ensures !KeyLess(KeyOf(rows[i]), KeyOf(rows[0]))
  {
    if i == 0 {
      KeyLessIsStrict(KeyOf(rows[0]));
    } else {
      HeadIsLeast(rows[1..], i - 1);
      var a, b, c := KeyOf(rows[0]), KeyOf(rows[1]), KeyOf(rows[i]);
      KeyLessIsTotal(b, c);
      KeyLessIsTotal(a, b);
      if KeyLess(c, a) && KeyLess(a, b) {
        KeyLessIsTransitive(c, a, b);
      }
    }
  }

  lemma {:induction false} KeyAt(rows: seq<Row>, i: nat)
    requires i < |rows|
    ensures HasKey(rows, KeyOf(rows[i]))
  {
    if i > 0 {
      KeyAt(rows[1..], i - 1);
    }
  }

  lemma {:induction false} AfterAll(rows: seq<Row>, k: Key)
    requires forall i :: 0 <= i < |rows| ==> KeyLess(k, KeyOf(rows[i]))
    ensures After(rows, Some(k)) == rows
  {
    if rows != [] {
      AfterAll(rows[1..], k);
    }
  }

  lemma {:induction false} AfterStart(rows: seq<Row>)
    ensures After(rows, None) == rows
  {
    if rows != [] {
      AfterStart(rows[1..]);
    }
  }

  /** With distinct keys, what follows a row's cursor is exactly what follows the row. */
  lemma {:induction false} AfterRow(rows: seq<Row>, n: nat)
    requires Ordered(rows) && DistinctKeys(rows) && n < |rows|
    ensures After(rows, Some(KeyOf(rows[n]))) == rows[n + 1..]
  {
    var k := KeyOf(rows[n]);
    HeadIsLeast(rows, n);
    if n == 0 {
      var tail := rows[1..];
      forall i | 0 <= i < |tail|
        ensures KeyLess(k, KeyOf(tail[i]))
      {
        HeadIsLeast(rows, i + 1);
        KeyLessIsTotal(k, KeyOf(tail[i]));
        KeyAt(tail, i);
      }
      AfterAll(tail, k);
    } else {
      AfterRow(rows[1..], n - 1);
    }
  }

  /** What follows a row's cursor is what follows the row. */
  predicate CursorsAreExact(sorted: seq<Row>) {
    forall n :: 0 <= n < |sorted| ==> CursorIsExact(sorted, n)
  }

  predicate CursorIsExact(sorted: seq<Row>, n: nat)
    requires n < |sorted|
  {
    After(sorted, Some(KeyOf(sorted[n]))) == sorted[n + 1..]
  }

  lemma NextCursor(sorted: seq<Row>, m: nat)
    requires CursorsAreExact(sorted) && 0 < m < |sorted|
    ensures After(sorted, Some(KeyOf(sorted[m - 1]))) == sorted[m..]
  {
    assert CursorIsExact(sorted, m - 1);
  }

  lemma {:induction false} FollowReturnsTheRest(sorted: seq<Row>, cursor: Option<Key>, n: nat, limits: nat -> nat,
                                                call: nat)
    requires CursorsAreExact(sorted) && n <= |sorted| && After(sorted, cursor) == sorted[n..]
    requires forall i :: limits(i) > 0
    ensures Follow(sorted, cursor, limits, call) == sorted[n..]
    decreases |sorted| - n
  {
    var m := n + limits(call);
    if m < |sorted| {
      NextCursor(sorted, m);
      FollowReturnsTheRest(sorted, Some(KeyOf(sorted[m - 1])), m, limits, call + 1);
      FollowOn(sorted, cursor, n, m, limits, call);
    } else {
      FollowEnds(sorted, cursor, n, limits, call);
    }
  }

  lemma FollowOn(sorted: seq<Row>, cursor: Option<Key>, n: nat, m: nat, limits: nat -> nat, call: nat)
    requires forall i :: limits(i) > 0
    requires m == n + limits(call) < |sorted| && After(sorted, cursor) == sorted[n..]
    requires Follow(sorted, Some(KeyOf(sorted[m - 1])), limits, call + 1) == sorted[m..]
    ensures Follow(sorted, cursor, limits, call) == sorted[n..]
  {
    RestPage(sorted, cursor, n, limits(call));
    FollowStep(sorted, cursor, limits, call);
    JoinSlices(sorted, n, m);
  }

  lemma FollowEnds(sorted: seq<Row>, cursor: Option<Key>, n: nat, limits: nat -> nat, call: nat)
    requires forall i :: limits(i) > 0
    requires n <= |sorted| <= n + limits(call) && After(sorted, cursor) == sorted[n..]
    ensures Follow(sorted, cursor, limits, call) == sorted[n..]
  {
    RestPage(sorted, cursor, n, limits(call));
    FollowStep(sorted, cursor, limits, call);
  }

  lemma FollowStep(sorted: seq<Row>, cursor: Option<Key>, limits: nat -> nat, call: nat)
    requires forall i :: limits(i) > 0
    ensures var page := PageOf(sorted, cursor, limits(call));
            Follow(sorted, cursor, limits, call) ==
              if page.next.None? then page.items else page.items + Follow(sorted, page.next, limits, call + 1)
  {
  }

  lemma JoinSlices(sorted: seq<Row>, n: nat, m: nat)
    requires n <= m <= |sorted|
    ensures sorted[n..m] + sorted[m..] == sorted[n..]
  {
  }

  lemma RestPage(sorted: seq<Row>, cursor: Option<Key>, n: nat, limit: nat)
    requires n <= |sorted| && After(sorted, cursor) == sorted[n..] && limit > 0
    ensures PageOf(sorted, cursor, limit) ==
              if |sorted| - n > limit then Page(sorted[n..n + limit], Some(KeyOf(sorted[n + limit - 1])))
              else Page(sorted[n..], None)
  {
    if |sorted| - n > limit {
      assert sorted[n..][..limit] == sorted[n..n + limit];
    }
  }

  // ----- Repeated keys: pages of one row skip the repetitions -----

  lemma {:induction false} SinglePagesHaveDistinctKeys(sorted: seq<Row>, cursor: Option<Key>, single: nat -> nat,
                                                       call: nat)
    requires forall n :: single(n) == 1
    ensures DistinctKeys(Follow(sorted, cursor, single, call))
    ensures forall k :: HasKey(Follow(sorted, cursor, single, call), k) && cursor.Some? ==> KeyLess(cursor.value, k)
    decreases |After(sorted, cursor)|
  {
    var rest := After(sorted, cursor);
    var all := Follow(sorted, cursor, single, call);
    if rest != [] {
      AfterOnlyGreater(sorted, cursor, 0);
    }
    if |rest| > 1 {
      var first := KeyOf(rest[0]);
      CursorAdvances(sorted, cursor, 0);
      SinglePagesHaveDistinctKeys(sorted, Some(first), single, call + 1);
      assert all[1..] == Follow(sorted, Some(first), single, call + 1);
      KeyLessIsStrict(first);
      forall k | HasKey(all[1..], k) && cursor.Some?
        ensures KeyLess(cursor.value, k)
      {
        KeyLessIsTransitive(cursor.value, first, k);
      }
    }
  }

  ghost predicate Allowed(limits: nat -> nat) {
    forall n :: 0 < limits(n) <= MAX_LIMIT
  }

  /** Whatever limits a caller uses, it sees every row once, in key order. */
  ghost predicate PagesAreComplete(sorted: seq<Row>) {
    forall limits: nat -> nat :: Allowed(limits) ==> Follow(sorted, None, limits, 0) == sorted
  }

  lemma SortedPagesAreComplete(sorted: seq<Row>)
    requires Ordered(sorted) && DistinctKeys(sorted)
    ensures PagesAreComplete(sorted)
  {
    AfterStart(sorted);
    forall n | 0 <= n < |sorted|
      ensures After(sorted, Some(KeyOf(sorted[n]))) == sorted[n + 1..]
    {
      AfterRow(sorted, n);
    }
    assert CursorsAreExact(sorted);
    forall limits: nat -> nat | Allowed(limits)
      ensures Follow(sorted, None, limits, 0) == sorted
    {
      FollowReturnsTheRest(sorted, None, 0, limits, 0);
      assert sorted[0..] == sorted;
    }
  }

  lemma CompletePagesHaveDistinctKeys(sorted: seq<Row>)
    requires PagesAreComplete(sorted)
    ensures DistinctKeys(sorted)
  {
    var single: nat -> nat := _ => 1;
    assert Allowed(single);
    SinglePagesHaveDistinctKeys(sorted, None, single, 0);
  }

  /**
   For every filter, following the cursors visits each selected row once, in key order and
   for every choice of limits, exactly when no two selected rows share a key.
   */
  lemma PagingIsCompleteExactly(rows: seq<Row>, keep: Row -> bool)
    ensures var sorted := SortRows(Select(rows, keep));
            && Ordered(sorted) && multiset(sorted) == multiset(Select(rows, keep))
            && (PagesAreComplete(sorted) <==> DistinctKeys(Select(rows, keep)))
  {
    var sorted := SortRows(Select(rows, keep));
    SortSorts(Select(rows, keep));
    if DistinctKeys(sorted) {
      SortedPagesAreComplete(sorted);
    }
    if PagesAreComplete(sorted) {
      CompletePagesHaveDistinctKeys(sorted);
    }
  }

  // ----- When the listing has distinct keys -----

  function BindingKey(b: Binding): Key {
    Key(b.resource, b.stream, b.consumer)
  }

  /** No two bindings give one resource to one consumer of one stream. */
  predicate DistinctBindings(bindings: seq<Binding>) {
    forall i, j :: 0 <= i < j < |bindings| ==> BindingKey(bindings[i]) != BindingKey(bindings[j])
  }

  /** A stream has at most one durable consumer of a name. */
  predicate UniqueConsumers(live: seq<Info>) {
    forall i, j :: 0 <= i < j < |live| && live[i].durable && live[j].durable ==>
      live[i].stream != live[j].stream || live[i].name != live[j].name
  }

  /** Whether claimed or missing, the row of a binding has the binding's key. */
  lemma BindingRowKey(live: seq<Info>, bindings: seq<Binding>, projector: string -> bool, rows: seq<Row>,
                      origins: seq<Origin>, i: nat)
    requires Accounted(live, bindings, projector, rows, origins) && i < |bindings|
    ensures KeyOf(rows[i]) == BindingKey(bindings[i])
  {
    assert origins[i].FromBinding? && origins[i].binding == i;
  }

  /** A consumer that serves a binding stands behind the row of some binding. */
  lemma ServedIsClaimed(live: seq<Info>, bindings: seq<Binding>, projector: string -> bool, rows: seq<Row>,
                        origins: seq<Origin>, i: nat, j: nat)
    requires Accounted(live, bindings, projector, rows, origins) && UniqueConsumers(live)
    requires i < |bindings| && j < |live| && live[j].durable && Serves(live[j], bindings[i])
    ensures exists e :: 0 <= e < |bindings| && Consumer(origins[e]) == Some(j)
  {
    assert origins[i].FromBinding? && origins[i].binding == i && OriginExists(live, bindings, origins[i]);
    if origins[i].claimed.None? {
      assert HasRow(origins[..i], j);
      var e :| 0 <= e < i && Consumer(origins[..i][e]) == Some(j);
      assert Consumer(origins[e]) == Some(j);
    } else {
      assert Serves(live[origins[i].claimed.value], bindings[i]);
      assert Consumer(origins[i]) == Some(j);
    }
  }

  /** So the row of a consumer that no binding claimed never has the key of a binding. */
  lemma UnclaimedIsApart(live: seq<Info>, bindings: seq<Binding>, projector: string -> bool, rows: seq<Row>,
                         origins: seq<Origin>, i: nat, k: nat)
    requires Accounted(live, bindings, projector, rows, origins) && UniqueConsumers(live)
    requires i < |bindings| <= k < |rows|
    ensures BindingKey(bindings[i]) != KeyOf(rows[k])
  {
    assert origins[k].FromLive? && OriginExists(live, bindings, origins[k]);
    var j := origins[k].live;
    if Serves(live[j], bindings[i]) {
      ServedIsClaimed(live, bindings, projector, rows, origins, i, j);
    }
  }

  lemma UnclaimedAreApart(live: seq<Info>, bindings: seq<Binding>, projector: string -> bool, rows: seq<Row>,
                          origins: seq<Origin>, i: nat, k: nat)
    requires Accounted(live, bindings, projector, rows, origins) && UniqueConsumers(live)
    requires |bindings| <= i < k < |rows|
    ensures KeyOf(rows[i]) != KeyOf(rows[k])
  {
    assert origins[i].FromLive? && OriginExists(live, bindings, origins[i]);
    assert origins[k].FromLive? && OriginExists(live, bindings, origins[k]);
    assert Consumer(origins[i]) != Consumer(origins[k]);
  }

  predicate KeysDiffer(rows: seq<Row>) {
    forall i, k :: 0 <= i < k < |rows| ==> KeyOf(rows[i]) != KeyOf(rows[k])
  }

  lemma {:induction false} IndexOfKey(rows: seq<Row>, key: Key) returns (i: nat)
    requires HasKey(rows, key)
    ensures i < |rows| && KeyOf(rows[i]) == key
  {
    if KeyOf(rows[0]) == key {
      i := 0;
    } else {
      i := IndexOfKey(rows[1..], key);
      i := i + 1;
    }
  }

  lemma {:induction false} DistinctByIndex(rows: seq<Row>)
    ensures DistinctKeys(rows) <==> KeysDiffer(rows)
  {
    if rows != [] {
      var rest := rows[1..];
      DistinctByIndex(rest);
      assert forall i :: 0 <= i < |rest| ==> rest[i] == rows[i + 1];
      if KeysDiffer(rows) {
        assert KeysDiffer(rest);
        if HasKey(rest, KeyOf(rows[0])) {
          var i := IndexOfKey(rest, KeyOf(rows[0]));
        }
      } else {
        var i, k :| 0 <= i < k < |rows| && KeyOf(rows[i]) == KeyOf(rows[k]);
        assert rest[k - 1] == rows[k];
        KeyAt(rest, k - 1);
        if i > 0 {
          assert KeyOf(rest[i - 1]) == KeyOf(rest[k - 1]);
        }
      }
    }
  }

  /**
   The joined rows have distinct keys only if the bindings have; and where a stream names its
   consumers uniquely, whenever the bindings have.
   */
  lemma JoinedKeysAreDistinct(live: seq<Info>, bindings: seq<Binding>, projector: string -> bool, rows: seq<Row>,
                              origins: seq<Origin>)
    requires Accounted(live, bindings, projector, rows, origins)
    ensures DistinctKeys(rows) ==> DistinctBindings(bindings)
    ensures UniqueConsumers(live) && DistinctBindings(bindings) ==> DistinctKeys(rows)
  {
    DistinctByIndex(rows);
    BindingRowKeys(live, bindings, projector, rows, origins);
    if UniqueConsumers(live) && DistinctBindings(bindings) {
      forall i, k | 0 <= i < k < |rows|
        ensures KeyOf(rows[i]) != KeyOf(rows[k])
      {
        if i >= |bindings| {
          UnclaimedAreApart(live, bindings, projector, rows, origins, i, k);
        } else if k >= |bindings| {
          UnclaimedIsApart(live, bindings, projector, rows, origins, i, k);
        }
      }
    }
  }

  lemma BindingRowKeys(live: seq<Info>, bindings: seq<Binding>, projector: string -> bool, rows: seq<Row>,
                       origins: seq<Origin>)
    requires Accounted(live, bindings, projector, rows, origins)
    ensures |rows| >= |bindings| && forall i :: 0 <= i < |bindings| ==> KeyOf(rows[i]) == BindingKey(bindings[i])
  {
    forall i | 0 <= i < |bindings|
      ensures KeyOf(rows[i]) == BindingKey(bindings[i])
    {
      BindingRowKey(live, bindings, projector, rows, origins, i);
    }
  }

  lemma {:induction false} SelectKeepsDistinct(rows: seq<Row>, keep: Row -> bool)
    requires DistinctKeys(rows)
    ensures DistinctKeys(Select(rows, keep))
  {
    if rows != [] {
      SelectKeepsDistinct(rows[1..], keep);
      if HasKey(Select(rows[1..], keep), KeyOf(rows[0])) {
        SelectHasKey(rows[1..], keep, KeyOf(rows[0]));
      }
      assert ([rows[0]] + Select(rows[1..], keep))[1..] == Select(rows[1..], keep);
    }
  }

  lemma {:induction false} SelectHasKey(rows: seq<Row>, keep: Row -> bool, key: Key)
    requires HasKey(Select(rows, keep), key)
    ensures HasKey(rows, key)
  {
    if rows != [] && KeyOf(rows[0]) != key {
      assert keep(rows[0]) ==> ([rows[0]] + Select(rows[1..], keep))[1..] == Select(rows[1..], keep);
      SelectHasKey(rows[1..], keep, key);
    }
  }

  lemma {:induction false} SelectAll(rows: seq<Row>)
    ensures Select(rows, row => true) == rows
  {
    if rows != [] {
      SelectAll(rows[1..]);
      assert rows == [rows[0]] + rows[1..];
    }
  }

  /**
   Where a stream names its consumers uniquely, following the cursors visits every row of every
   query exactly when no two bindings give one resource to one consumer of one stream.
   */
  lemma ListingIsCompleteExactly(live: seq<Info>, bindings: seq<Binding>, projector: string -> bool, rows: seq<Row>,
                                 origins: seq<Origin>)
    requires Accounted(live, bindings, projector, rows, origins) && UniqueConsumers(live)
    ensures AllQueriesComplete(rows) <==> DistinctBindings(bindings)
  {
    JoinedKeysAreDistinct(live, bindings, projector, rows, origins);
    CompleteExactlyWhenDistinct(rows);
  }

  ghost predicate AllQueriesComplete(rows: seq<Row>) {
    forall keep: Row -> bool :: PagesAreComplete(SortRows(Select(rows, keep)))
  }

  lemma CompleteExactlyWhenDistinct(rows: seq<Row>)
    ensures AllQueriesComplete(rows) <==> DistinctKeys(rows)
  {
    if DistinctKeys(rows) {
      forall keep: Row -> bool
        ensures PagesAreComplete(SortRows(Select(rows, keep)))
      {
        SelectKeepsDistinct(rows, keep);
        PagingIsCompleteExactly(rows, keep);
      }
    }
    if AllQueriesComplete(rows) {
      PagingIsCompleteExactly(rows, row => true);
      SelectAll(rows);
    }
  }

  // ----- The query -----

  /** Takes one row more than the limit, and drops it again to learn whether there are more. */
  method CutPage(sorted: seq<Row>, cursor: Option<Key>, limit: nat) returns (page: Page)
    requires limit > 0
    ensures page == PageOf(sorted, cursor, limit) && |page.items| <= limit
  {
    var rest := After(sorted, cursor);
    var items := rest[..if |rest| < limit + 1 then |rest| else limit + 1];
    var next := None;
    if |items| > limit {
      items := items[..|items| - 1];
      next := Some(KeyOf(items[|items| - 1]));
    }
    page := Page(items, next);
  }

  datatype Cursor = Cursor(digest: string, after: Key)

  datatype QueryError = InvalidLimit | InvalidCursor

  datatype Reply = Reply(items: seq<Row>, next: Option<Cursor>)

  /** One call: the rows are joined, filtered, sorted and cut to a page. */
  method QueryConsumers(live: seq<Info>, bindings: seq<Binding>, projector: string -> bool, q: Query,
                        requested: Option<nat>, cursor: Option<Cursor>, digest: Query -> string)
    returns (r: Result<Reply, QueryError>, ghost rows: seq<Row>, ghost origins: seq<Origin>)
    ensures r == Err(InvalidLimit) <==> requested.Some? && !(0 < requested.value <= MAX_LIMIT)
    ensures r == Err(InvalidCursor) <==>
              (requested.Some? ==> 0 < requested.value <= MAX_LIMIT) && cursor.Some? && cursor.value.digest != digest(q)
    ensures r.Ok? ==>
              && (cursor.Some? ==> cursor.value.digest == digest(q))
              && Accounted(live, bindings, projector, rows, origins)
              && var limit := if requested.Some? then requested.value else DEFAULT_LIMIT;
                 var page := PageOf(SortRows(Select(rows, row => Wanted(row, q))),
                                    if cursor.Some? then Some(cursor.value.after) else None, limit);
                 && r.value.items == page.items && |r.value.items| <= limit
                 && r.value.next == (if page.next.Some? then Some(Cursor(digest(q), page.next.value)) else None)
  {
    rows, origins := [], [];
    var limit := if requested.Some? then requested.value else DEFAULT_LIMIT;
    if limit == 0 || limit > MAX_LIMIT {
      return Err(InvalidLimit), rows, origins;
    }
    if cursor.Some? && cursor.value.digest != digest(q) {
      return Err(InvalidCursor), rows, origins;
    }
    var joined;
    joined, origins := Join(live, bindings, projector);
    rows := joined;
    var page := CutPage(SortRows(Select(joined, row => Wanted(row, q))),
                        if cursor.Some? then Some(cursor.value.after) else None, limit);
    r := Ok(Reply(page.items, if page.next.Some? then Some(Cursor(digest(q), page.next.value)) else None));
  }
}
