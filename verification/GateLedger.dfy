/**
 What happened to each server record that passed the response gate, and how the gate's
 held and paused collections correspond to it.
 */
module GateLedger {
  import opened Wrappers
  import opened NatsRecords

  datatype Fate = Forwarded | Paused | Resumed | Held | Claimed | Released | Lost

  datatype Entry = Entry(reply: bytes, raw: bytes, route: bytes, requestId: Option<bytes>)

  /** Records that were handed out and the bytes handed out for them, in that order. */
  datatype Output = Output(ids: seq<nat>, raws: seq<bytes>)

  /**
   The records in arrival order with their fates, the indices of the held ones, and the bytes
   that were forwarded, claimed, released and resumed.
   */
  datatype Ledger = Ledger(
    arrivals: seq<Record>,
    fates: seq<Fate>,
    heldIds: seq<nat>,
    forwarded: seq<bytes>,
    claims: Output,
    releases: Output,
    resumed: seq<bytes>)

  const EMPTY := Ledger([], [], [], [], Output([], []), Output([], []), [])

  /** The raw bytes of the records with this fate, in arrival order. */
  function RawsWith(arrivals: seq<Record>, fates: seq<Fate>, fate: Fate): seq<bytes>
    requires |arrivals| == |fates|
  {
    if arrivals == [] then []
    else
      var n := |arrivals| - 1;
      RawsWith(arrivals[..n], fates[..n], fate) + (if fates[n] == fate then [arrivals[n].raw] else [])
  }

  /** `ids` lists exactly the records with this fate, each once. */
  predicate Lists(fates: seq<Fate>, ids: seq<nat>, fate: Fate) {
    && (forall e :: 0 <= e < |ids| ==> ids[e] < |fates| && fates[ids[e]] == fate)
    && (forall e, f :: 0 <= e < f < |ids| ==> ids[e] != ids[f])
    && forall i :: 0 <= i < |fates| && fates[i] == fate ==> i in ids
  }

  predicate ListsHeld(fates: seq<Fate>, ids: seq<nat>) {
    Lists(fates, ids, Held)
  }

  predicate Increasing(ids: seq<nat>) {
    forall e, f :: 0 <= e < f < |ids| ==> ids[e] < ids[f]
  }

  predicate Holds(record: Record, entry: Entry) {
    record.raw == entry.raw && record.subject == Some(entry.reply)
  }

  predicate HoldsRecords(l: Ledger, held: seq<Entry>) {
    && |held| == |l.heldIds|
    && (forall e :: 0 <= e < |held| ==> l.heldIds[e] < |l.arrivals| && Holds(l.arrivals[l.heldIds[e]], held[e]))
    && forall e, f :: 0 <= e < f < |held| ==> held[e].reply != held[f].reply
  }

  /** The forwarded and the paused bytes are those of the records so marked, in arrival order. */
  predicate BytesMatch(arrivals: seq<Record>, fates: seq<Fate>, forwarded: seq<bytes>, paused: seq<bytes>) {
    |fates| == |arrivals| && RawsWith(arrivals, fates, Forwarded) == forwarded
    && RawsWith(arrivals, fates, Paused) == paused
  }

  /** Every record is in exactly one place, and each place holds its records' own bytes. */
  predicate Consistent(l: Ledger, held: seq<Entry>, paused: Option<seq<bytes>>) {
    && BytesMatch(l.arrivals, l.fates, l.forwarded, if paused.Some? then paused.value else [])
    && ListsHeld(l.fates, l.heldIds)
    && HoldsRecords(l, held)
  }

  function Total(held: seq<Entry>): nat {
    if held == [] then 0 else Total(held[..|held| - 1]) + |held[|held| - 1].raw|
  }

  // ----- How the bytes with one fate change -----

  lemma RawsGrow(l: Ledger, record: Record, fate: Fate, of: Fate)
    requires |l.fates| == |l.arrivals|
    ensures RawsWith(l.arrivals + [record], l.fates + [fate], of)
            == RawsWith(l.arrivals, l.fates, of) + (if fate == of then [record.raw] else [])
  {
    assert (l.arrivals + [record])[..|l.arrivals|] == l.arrivals;
    assert (l.fates + [fate])[..|l.fates|] == l.fates;
  }

  lemma {:induction false} RawsIgnore(arrivals: seq<Record>, fates: seq<Fate>, i: nat, fate: Fate, of: Fate)
    requires |arrivals| == |fates| && i < |fates| && fates[i] != of && fate != of
    ensures RawsWith(arrivals, fates[i := fate], of) == RawsWith(arrivals, fates, of)
  {
    var n := |fates| - 1;
    if i < n {
      RawsIgnore(arrivals[..n], fates[..n], i, fate, of);
      assert fates[i := fate][..n] == fates[..n][i := fate];
    } else {
      assert fates[i := fate][..n] == fates[..n];
    }
  }

  /** Every record with one fate gets another. */
  function Refate(fates: seq<Fate>, from: Fate, to: Fate): (r: seq<Fate>)
    ensures |r| == |fates|
  {
    seq(|fates|, i requires 0 <= i < |fates| => if fates[i] == from then to else fates[i])
  }

  lemma {:induction false} RawsRefated(arrivals: seq<Record>, fates: seq<Fate>, from: Fate, to: Fate, of: Fate)
    requires |arrivals| == |fates| && from != to && to != of
    ensures RawsWith(arrivals, Refate(fates, from, to), of) == if from == of then [] else RawsWith(arrivals, fates, of)
  {
    if fates != [] {
      var n := |fates| - 1;
      RawsRefated(arrivals[..n], fates[..n], from, to, of);
      RefateFront(fates, from, to);
      RawsUnfold(arrivals, Refate(fates, from, to), of);
      RawsUnfold(arrivals, fates, of);
    }
  }

  lemma RefateFront(fates: seq<Fate>, from: Fate, to: Fate)
    requires fates != []
    ensures var n := |fates| - 1;
            Refate(fates, from, to)[..n] == Refate(fates[..n], from, to)
            && Refate(fates, from, to)[n] == if fates[n] == from then to else fates[n]
  {
  }

  lemma RawsUnfold(arrivals: seq<Record>, fates: seq<Fate>, of: Fate)
    requires |arrivals| == |fates| && fates != []
    ensures var n := |fates| - 1;
            RawsWith(arrivals, fates, of) ==
              if fates[n] == of then RawsWith(arrivals[..n], fates[..n], of) + [arrivals[n].raw]
              else RawsWith(arrivals[..n], fates[..n], of)
  {
  }

  // ----- A new record -----

  function Arrive(l: Ledger, record: Record, fate: Fate): Ledger {
    l.(arrivals := l.arrivals + [record], fates := l.fates + [fate],
       heldIds := if fate == Held then l.heldIds + [|l.arrivals|] else l.heldIds,
       forwarded := if fate == Forwarded then l.forwarded + [record.raw] else l.forwarded)
  }

  lemma ArriveLists(fates: seq<Fate>, ids: seq<nat>, next: Fate)
    requires ListsHeld(fates, ids)
    ensures ListsHeld(fates + [next], if next == Held then ids + [|fates|] else ids)
  {
    var more := if next == Held then ids + [|fates|] else ids;
    forall i | 0 <= i < |fates + [next]| && (fates + [next])[i] == Held
      ensures i in more
    {
      if i == |fates| {
        assert more[|ids|] == i;
      } else {
        var e :| 0 <= e < |ids| && ids[e] == i;
        assert more[e] == i;
      }
    }
  }

  lemma ForwardKeeps(l: Ledger, held: seq<Entry>, paused: Option<seq<bytes>>, record: Record)
    requires Consistent(l, held, paused)
    ensures Consistent(Arrive(l, record, Forwarded), held, paused)
  {
    ArriveLists(l.fates, l.heldIds, Forwarded);
    ArriveBytes(l, record, Forwarded, l.forwarded, if paused.Some? then paused.value else []);
    ArriveHolds(l, held, record, Forwarded);
  }

  lemma ArriveBytes(l: Ledger, record: Record, fate: Fate, forwarded: seq<bytes>, paused: seq<bytes>)
    requires BytesMatch(l.arrivals, l.fates, forwarded, paused)
    ensures BytesMatch(l.arrivals + [record], l.fates + [fate],
                       if fate == Forwarded then forwarded + [record.raw] else forwarded,
                       if fate == Paused then paused + [record.raw] else paused)
  {
    RawsGrow(l, record, fate, Forwarded);
    RawsGrow(l, record, fate, Paused);
  }

  lemma ArriveHolds(l: Ledger, held: seq<Entry>, record: Record, fate: Fate)
    requires HoldsRecords(l, held) && fate != Held
    ensures HoldsRecords(Arrive(l, record, fate), held)
  {
  }

  lemma PauseKeeps(l: Ledger, held: seq<Entry>, paused: seq<bytes>, record: Record)
    requires Consistent(l, held, Some(paused))
    ensures Consistent(Arrive(l, record, Paused), held, Some(paused + [record.raw]))
  {
    ArriveLists(l.fates, l.heldIds, Paused);
    ArriveBytes(l, record, Paused, l.forwarded, paused);
    ArriveHolds(l, held, record, Paused);
  }

  predicate NotHeld(held: seq<Entry>, reply: bytes) {
    forall e :: 0 <= e < |held| ==> held[e].reply != reply
  }

  lemma HoldKeeps(l: Ledger, held: seq<Entry>, paused: Option<seq<bytes>>, record: Record, entry: Entry)
    requires Consistent(l, held, paused) && Holds(record, entry) && NotHeld(held, entry.reply)
    ensures Consistent(Arrive(l, record, Held), held + [entry], paused)
  {
    ArriveLists(l.fates, l.heldIds, Held);
    ArriveBytes(l, record, Held, l.forwarded, if paused.Some? then paused.value else []);
    HoldHolds(l, held, record, entry);
  }

  lemma HoldHolds(l: Ledger, held: seq<Entry>, record: Record, entry: Entry)
    requires HoldsRecords(l, held) && Holds(record, entry) && NotHeld(held, entry.reply)
    ensures HoldsRecords(Arrive(l, record, Held), held + [entry])
  {
  }

  lemma HoldKeepsOrder(l: Ledger, record: Record)
    requires |l.fates| == |l.arrivals| && ListsHeld(l.fates, l.heldIds) && Increasing(l.heldIds)
    ensures Increasing(Arrive(l, record, Held).heldIds)
  {
  }

  /** The new record takes the place of the held one with the same reply, which is lost. */
  function Overwrite(l: Ledger, e: nat, record: Record): Ledger
    requires e < |l.heldIds| && l.heldIds[e] < |l.fates|
  {
    l.(arrivals := l.arrivals + [record], fates := l.fates[l.heldIds[e] := Lost] + [Held],
       heldIds := l.heldIds[e := |l.arrivals|])
  }

  lemma OverwriteLists(fates: seq<Fate>, ids: seq<nat>, e: nat)
    requires ListsHeld(fates, ids) && e < |ids|
    ensures ListsHeld(fates[ids[e] := Lost] + [Held], ids[e := |fates|])
  {
    var after, more := fates[ids[e] := Lost] + [Held], ids[e := |fates|];
    forall i | 0 <= i < |after| && after[i] == Held
      ensures i in more
    {
      if i == |fates| {
        assert more[e] == i;
      } else {
        var k :| 0 <= k < |ids| && ids[k] == i;
        assert more[k] == i;
      }
    }
  }

  lemma OverwriteKeeps(l: Ledger, held: seq<Entry>, paused: Option<seq<bytes>>, e: nat, record: Record, entry: Entry)
    requires Consistent(l, held, paused) && e < |held| && Holds(record, entry) && held[e].reply == entry.reply
    ensures Consistent(Overwrite(l, e, record), held[e := entry], paused)
  {
    var i := l.heldIds[e];
    OverwriteLists(l.fates, l.heldIds, e);
    RawsIgnore(l.arrivals, l.fates, i, Lost, Forwarded);
    RawsIgnore(l.arrivals, l.fates, i, Lost, Paused);
    ArriveBytes(l.(fates := l.fates[i := Lost]), record, Held, l.forwarded, if paused.Some? then paused.value else []);
    OverwriteHolds(l, held, e, record, entry);
  }

  lemma OverwriteHolds(l: Ledger, held: seq<Entry>, e: nat, record: Record, entry: Entry)
    requires HoldsRecords(l, held) && e < |held| && l.heldIds[e] < |l.fates| && Holds(record, entry)
    requires held[e].reply == entry.reply
    ensures HoldsRecords(Overwrite(l, e, record), held[e := entry])
  {
  }

  // ----- Held records that leave -----

  function Without<T>(s: seq<T>, e: nat): (r: seq<T>)
    requires e < |s|
    ensures |r| == |s| - 1
    ensures forall i :: 0 <= i < |r| ==> r[i] == s[if i < e then i else i + 1]
  {
    s[..e] + s[e + 1..]
  }

  /** The held record at position `e` is claimed, and `raw` is handed out for it. */
  function Claim(l: Ledger, e: nat, raw: bytes): Ledger
    requires e < |l.heldIds| && l.heldIds[e] < |l.fates|
  {
    l.(fates := l.fates[l.heldIds[e] := Claimed], heldIds := Without(l.heldIds, e),
       claims := Output(l.claims.ids + [l.heldIds[e]], l.claims.raws + [raw]))
  }

  lemma ClaimLists(fates: seq<Fate>, ids: seq<nat>, e: nat)
    requires ListsHeld(fates, ids) && e < |ids|
    ensures ListsHeld(fates[ids[e] := Claimed], Without(ids, e))
  {
    var rest := Without(ids, e);
    forall i | 0 <= i < |fates| && fates[ids[e] := Claimed][i] == Held
      ensures i in rest
    {
      var k :| 0 <= k < |ids| && ids[k] == i;
      assert rest[if k < e then k else k - 1] == i;
    }
  }

  lemma ClaimKeeps(l: Ledger, held: seq<Entry>, paused: Option<seq<bytes>>, e: nat)
    requires Consistent(l, held, paused) && e < |held|
    ensures Consistent(Claim(l, e, held[e].raw), Without(held, e), paused)
  {
    var i := l.heldIds[e];
    ClaimLists(l.fates, l.heldIds, e);
    RawsIgnore(l.arrivals, l.fates, i, Claimed, Forwarded);
    RawsIgnore(l.arrivals, l.fates, i, Claimed, Paused);
  }

  lemma {:induction false} TotalWithout(held: seq<Entry>, e: nat)
    requires e < |held|
    ensures Total(Without(held, e)) == Total(held) - |held[e].raw|
  {
    var n := |held| - 1;
    var rest := Without(held, e);
    if e < n {
      TotalWithout(held[..n], e);
      assert rest[..n - 1] == Without(held[..n], e);
    } else {
      assert rest == held[..n];
    }
  }

  lemma {:induction false} TotalReplaced(held: seq<Entry>, e: nat, entry: Entry)
    requires e < |held|
    ensures Total(held[e := entry]) == Total(held) - |held[e].raw| + |entry.raw|
  {
    var n := |held| - 1;
    if e < n {
      TotalReplaced(held[..n], e, entry);
      assert held[e := entry][..n] == held[..n][e := entry];
    } else {
      assert held[e := entry][..n] == held[..n];
    }
  }

  lemma TotalGrows(held: seq<Entry>, entry: Entry)
    ensures Total(held + [entry]) == Total(held) + |entry.raw|
  {
    assert (held + [entry])[..|held|] == held;
  }

  /** The held records are released, and `raws` is handed out for them. */
  function Release(l: Ledger, raws: seq<bytes>): Ledger {
    l.(fates := Refate(l.fates, Held, Released), heldIds := [],
       releases := Output(l.releases.ids + l.heldIds, l.releases.raws + raws))
  }

  lemma ReleaseKeeps(l: Ledger, held: seq<Entry>, paused: Option<seq<bytes>>, raws: seq<bytes>)
    requires Consistent(l, held, paused)
    ensures Consistent(Release(l, raws), [], paused)
  {
    RefatedBytes(l, Held, Released, l.forwarded, if paused.Some? then paused.value else []);
    NoneListed(l.fates, Held, Released);
  }

  lemma RefatedBytes(l: Ledger, from: Fate, to: Fate, forwarded: seq<bytes>, paused: seq<bytes>)
    requires BytesMatch(l.arrivals, l.fates, forwarded, paused) && from != to && from != Forwarded
    requires to != Forwarded && to != Paused
    ensures BytesMatch(l.arrivals, Refate(l.fates, from, to), forwarded, if from == Paused then [] else paused)
  {
    RawsRefated(l.arrivals, l.fates, from, to, Forwarded);
    RawsRefated(l.arrivals, l.fates, from, to, Paused);
  }

  lemma NoneListed(fates: seq<Fate>, from: Fate, to: Fate)
    requires from != to
    ensures Lists(Refate(fates, from, to), [], from)
  {
  }

  /** The paused records go on, and `raws` is handed out for them. */
  function Resume(l: Ledger, raws: seq<bytes>): Ledger {
    l.(fates := Refate(l.fates, Paused, Resumed), resumed := l.resumed + raws)
  }

  lemma ResumeKeeps(l: Ledger, held: seq<Entry>, paused: Option<seq<bytes>>, raws: seq<bytes>)
    requires Consistent(l, held, paused)
    ensures Consistent(Resume(l, raws), held, None)
  {
    RefatedBytes(l, Paused, Resumed, l.forwarded, if paused.Some? then paused.value else []);
  }

  // ----- What was handed out -----

  /** The output names exactly the records with this fate, each once, and holds their own bytes. */
  predicate Delivers(arrivals: seq<Record>, fates: seq<Fate>, out: Output, fate: Fate) {
    && Lists(fates, out.ids, fate) && |out.raws| == |out.ids| && |fates| == |arrivals|
    && forall e :: 0 <= e < |out.ids| ==> out.ids[e] < |arrivals| && out.raws[e] == arrivals[out.ids[e]].raw
  }

  /** Whatever was resumed arrived before whatever is paused. */
  predicate PausedLast(fates: seq<Fate>) {
    forall i, j :: 0 <= i < j < |fates| && fates[i] == Paused ==> fates[j] != Resumed
  }

  /** The claimed and released bytes are those of the records so marked, and the resumed ones in arrival order. */
  predicate HandedOut(l: Ledger) {
    && Delivers(l.arrivals, l.fates, l.claims, Claimed)
    && Delivers(l.arrivals, l.fates, l.releases, Released)
    && RawsWith(l.arrivals, l.fates, Resumed) == l.resumed && PausedLast(l.fates)
  }

  lemma DeliversStill(arrivals: seq<Record>, fates: seq<Fate>, out: Output, fate: Fate, record: Record, next: Fate)
    requires Delivers(arrivals, fates, out, fate) && next != fate
    ensures Delivers(arrivals + [record], fates + [next], out, fate)
  {
  }

  lemma DeliversBeside(arrivals: seq<Record>, fates: seq<Fate>, out: Output, fate: Fate, i: nat, next: Fate)
    requires Delivers(arrivals, fates, out, fate) && i < |fates| && fates[i] != fate && next != fate
    ensures Delivers(arrivals, fates[i := next], out, fate)
  {
  }

  lemma DeliversRefated(arrivals: seq<Record>, fates: seq<Fate>, out: Output, fate: Fate, from: Fate, to: Fate)
    requires Delivers(arrivals, fates, out, fate) && from != fate && to != fate
    ensures Delivers(arrivals, Refate(fates, from, to), out, fate)
  {
  }

  lemma DeliversOneMore(arrivals: seq<Record>, fates: seq<Fate>, out: Output, fate: Fate, i: nat)
    requires Delivers(arrivals, fates, out, fate) && i < |fates| && fates[i] != fate
    ensures Delivers(arrivals, fates[i := fate], Output(out.ids + [i], out.raws + [arrivals[i].raw]), fate)
  {
    ListsOneMore(fates, out.ids, fate, i);
  }

  lemma ListsOneMore(fates: seq<Fate>, ids: seq<nat>, fate: Fate, i: nat)
    requires Lists(fates, ids, fate) && i < |fates| && fates[i] != fate
    ensures Lists(fates[i := fate], ids + [i], fate)
  {
    var more := ids + [i];
    forall j | 0 <= j < |fates| && fates[i := fate][j] == fate
      ensures j in more
    {
      if j == i {
        assert more[|ids|] == i;
      } else {
        var e :| 0 <= e < |ids| && ids[e] == j;
        assert more[e] == j;
      }
    }
  }

  lemma ListsRefated(fates: seq<Fate>, ids: seq<nat>, more: seq<nat>, from: Fate, to: Fate)
    requires Lists(fates, ids, to) && Lists(fates, more, from) && from != to
    ensures Lists(Refate(fates, from, to), ids + more, to)
  {
    var all := ids + more;
    forall i | 0 <= i < |fates| && Refate(fates, from, to)[i] == to
      ensures i in all
    {
      if fates[i] == to {
        var e :| 0 <= e < |ids| && ids[e] == i;
        assert all[e] == i;
      } else {
        var e :| 0 <= e < |more| && more[e] == i;
        assert all[|ids| + e] == i;
      }
    }
  }

  lemma ArriveHandsOut(l: Ledger, record: Record, fate: Fate)
    requires HandedOut(l) && fate != Claimed && fate != Released && fate != Resumed
    ensures HandedOut(Arrive(l, record, fate))
  {
    DeliversStill(l.arrivals, l.fates, l.claims, Claimed, record, fate);
    DeliversStill(l.arrivals, l.fates, l.releases, Released, record, fate);
    RawsGrow(l, record, fate, Resumed);
  }

  /** A held record is marked otherwise, but not as handed out. */
  lemma MarkHandsOut(l: Ledger, i: nat, fate: Fate)
    requires HandedOut(l) && i < |l.fates| && l.fates[i] == Held
    requires fate != Claimed && fate != Released && fate != Resumed && fate != Paused
    ensures HandedOut(l.(fates := l.fates[i := fate]))
  {
    DeliversBeside(l.arrivals, l.fates, l.claims, Claimed, i, fate);
    DeliversBeside(l.arrivals, l.fates, l.releases, Released, i, fate);
    RawsIgnore(l.arrivals, l.fates, i, fate, Resumed);
  }

  lemma OverwriteHandsOut(l: Ledger, e: nat, record: Record)
    requires HandedOut(l) && e < |l.heldIds| && l.heldIds[e] < |l.fates| && l.fates[l.heldIds[e]] == Held
    ensures HandedOut(Overwrite(l, e, record))
  {
    MarkHandsOut(l, l.heldIds[e], Lost);
    var marked := l.(fates := l.fates[l.heldIds[e] := Lost]);
    ArriveHandsOut(marked, record, Held);
    assert Overwrite(l, e, record) == Arrive(marked, record, Held).(heldIds := Overwrite(l, e, record).heldIds);
  }

  lemma ClaimHandsOut(l: Ledger, e: nat, held: seq<Entry>)
    requires HandedOut(l) && ListsHeld(l.fates, l.heldIds) && HoldsRecords(l, held) && e < |held|
    ensures HandedOut(Claim(l, e, held[e].raw))
  {
    var i := l.heldIds[e];
    DeliversOneMore(l.arrivals, l.fates, l.claims, Claimed, i);
    DeliversBeside(l.arrivals, l.fates, l.releases, Released, i, Claimed);
    RawsIgnore(l.arrivals, l.fates, i, Claimed, Resumed);
  }

  lemma ReleaseHandsOut(l: Ledger, held: seq<Entry>, raws: seq<bytes>)
    requires HandedOut(l) && ListsHeld(l.fates, l.heldIds) && HoldsRecords(l, held)
    requires |raws| == |held| && forall e :: 0 <= e < |held| ==> raws[e] == held[e].raw
    ensures HandedOut(Release(l, raws))
  {
    DeliversRefated(l.arrivals, l.fates, l.claims, Claimed, Held, Released);
    ListsRefated(l.fates, l.releases.ids, l.heldIds, Held, Released);
    RawsRefated(l.arrivals, l.fates, Held, Released, Resumed);
  }

  /** The resumed bytes continue in arrival order. */
  lemma {:induction false} RawsResumed(arrivals: seq<Record>, fates: seq<Fate>)
    requires |arrivals| == |fates| && PausedLast(fates)
    ensures RawsWith(arrivals, Refate(fates, Paused, Resumed), Resumed) ==
            RawsWith(arrivals, fates, Resumed) + RawsWith(arrivals, fates, Paused)
  {
    if fates != [] {
      var n := |fates| - 1;
      RawsResumed(arrivals[..n], fates[..n]);
      RefateFront(fates, Paused, Resumed);
      if fates[n] == Resumed {
        NonePaused(arrivals[..n], fates[..n]);
      }
      LastResumed(arrivals, fates, Refate(fates, Paused, Resumed), n);
    }
  }

  lemma LastResumed(arrivals: seq<Record>, fates: seq<Fate>, after: seq<Fate>, n: nat)
    requires |arrivals| == |fates| == |after| == n + 1
    requires after[n] == if fates[n] == Paused then Resumed else fates[n]
    requires fates[n] == Resumed ==> RawsWith(arrivals[..n], fates[..n], Paused) == []
    requires RawsWith(arrivals[..n], after[..n], Resumed) ==
             RawsWith(arrivals[..n], fates[..n], Resumed) + RawsWith(arrivals[..n], fates[..n], Paused)
    ensures RawsWith(arrivals, after, Resumed) ==
            RawsWith(arrivals, fates, Resumed) + RawsWith(arrivals, fates, Paused)
  {
    RawsUnfold(arrivals, after, Resumed);
    RawsUnfold(arrivals, fates, Resumed);
    RawsUnfold(arrivals, fates, Paused);
    ResumedThenLast(RawsWith(arrivals[..n], fates[..n], Resumed), RawsWith(arrivals[..n], fates[..n], Paused),
                    [arrivals[n].raw]);
  }

  lemma ResumedThenLast(resumed: seq<bytes>, paused: seq<bytes>, last: seq<bytes>)
    ensures resumed + paused + last == resumed + (paused + last)
    ensures paused == [] ==> resumed + paused + last == resumed + last + paused
  {
  }

  lemma {:induction false} NonePaused(arrivals: seq<Record>, fates: seq<Fate>)
    requires |arrivals| == |fates| && forall i :: 0 <= i < |fates| ==> fates[i] != Paused
    ensures RawsWith(arrivals, fates, Paused) == []
  {
    if fates != [] {
      NonePaused(arrivals[..|fates| - 1], fates[..|fates| - 1]);
    }
  }

  lemma ResumeHandsOut(l: Ledger, raws: seq<bytes>)
    requires HandedOut(l) && RawsWith(l.arrivals, l.fates, Paused) == raws
    ensures HandedOut(Resume(l, raws))
  {
    DeliversRefated(l.arrivals, l.fates, l.claims, Claimed, Paused, Resumed);
    DeliversRefated(l.arrivals, l.fates, l.releases, Released, Paused, Resumed);
    RawsResumed(l.arrivals, l.fates);
  }
}
