/**
 Publication of generated packages from temporary staging directories. A staging
 directory holds the fresh tree and, later, the set-aside old one; it is deleted when it
 goes out of scope unless it is explicitly kept.
 */
module GeneratedPackages {
  import opened Wrappers
  import opened Publication

  datatype Entry = Entry(index: nat, existed: bool)

  datatype Result = Generated | RolledBack | Stranded

  /** The old output is at its destination or in its staging directory. */
  predicate Saved(before: Files, files: Files, o: Output) {
    o.target in before ==> At(files, o.target) == At(before, o.target) || At(files, o.backup) == At(before, o.target)
  }

  predicate Restored(before: Files, files: Files, o: Output) {
    At(files, o.target) == At(before, o.target)
  }

  /** A published entry that is not yet rolled back: its backup is the old output, if there was one. */
  predicate Pending(before: Files, files: Files, o: Output, existed: bool) {
    (existed <==> o.target in before) && At(files, o.backup) == At(before, o.target)
  }

  predicate OnlyChanged(earlier: Files, files: Files, paths: set<Path>) {
    forall p :: p in earlier.Keys + files.Keys && p !in paths ==> At(files, p) == At(earlier, p)
  }

  /** The entries recorded so far: in order, each for an output that is set aside or replaced. */
  predicate Recorded(before: Files, outputs: seq<Output>, places: seq<Place>, published: seq<Entry>, bound: nat) {
    && |places| == |outputs|
    && (forall e :: 0 <= e < |published| ==> published[e].index < bound <= |outputs|)
    && (forall e, f :: 0 <= e < f < |published| ==> published[e].index < published[f].index)
    && (forall e :: 0 <= e < |published| ==>
          var i := published[e].index;
          && (published[e].existed <==> outputs[i].target in before)
          && (places[i] == Untouched ==> !published[e].existed))
    && forall i :: 0 <= i < |outputs| && places[i] != Untouched ==>
         exists e :: 0 <= e < |published| && published[e].index == i
  }

  /**
   Installs one changed output. It is recorded after the old output is set aside and
   before the fresh one is moved in.
   */
  method InstallChanged(disk: Disk, outputs: seq<Output>, i: nat, published: seq<Entry>, ghost before: Files,
                        ghost places: seq<Place>)
    returns (ok: bool, recorded: seq<Entry>, ghost after: seq<Place>)
    requires Separate(outputs) && i < |outputs|
    requires Arranged(before, disk.files, outputs, places) && places[i] == Untouched
    requires Recorded(before, outputs, places, published, i)
    modifies disk
    ensures Arranged(before, disk.files, outputs, after) && Recorded(before, outputs, after, recorded, i + 1)
    ensures forall j :: 0 <= j < |places| && j != i ==> after[j] == places[j]
    ensures ok ==> after[i] == Replaced
    ensures !ok ==> outputs[i].staged !in before || exists k :: disk.fails(k)
  {
    var o := outputs[i];
    recorded, after := published, places;
    assert Placed(before, disk.files, o, places[i]);
    var existed := o.target in disk.files;
    ok := disk.CreateParents();
    if !ok {
      return;
    }
    if existed {
      ghost var files := disk.files;
      ok := disk.Rename(o.target, o.backup);
      if !ok {
        return;
      }
      RenameMovesOne(before, files, outputs, places, i, o.target, o.backup, SetAside);
      after := places[i := SetAside];
    }
    recorded := published + [Entry(i, existed)];
    NewEntry(before, outputs, places, published, i, after);
    ghost var files, now := disk.files, after;
    assert Placed(before, files, o, now[i]);
    ok := disk.Rename(o.staged, o.target);
    if ok {
      RenameMovesOne(before, files, outputs, now, i, o.staged, o.target, Replaced);
      after := now[i := Replaced];
      NewEntry(before, outputs, places, published, i, after);
    }
  }

  lemma NewEntry(before: Files, outputs: seq<Output>, places: seq<Place>, published: seq<Entry>, i: nat,
                 after: seq<Place>)
    requires Recorded(before, outputs, places, published, i) && i < |outputs|
    requires |after| == |places| && forall j :: 0 <= j < |places| && j != i ==> after[j] == places[j]
    requires after[i] == Untouched ==> outputs[i].target !in before
    ensures Recorded(before, outputs, after, published + [Entry(i, outputs[i].target in before)], i + 1)
  {
    var recorded := published + [Entry(i, outputs[i].target in before)];
    forall j | 0 <= j < |outputs| && after[j] != Untouched
      ensures exists e :: 0 <= e < |recorded| && recorded[e].index == j
    {
      if j == i {
        assert recorded[|published|].index == i;
      } else {
        var e :| 0 <= e < |published| && published[e].index == j;
        assert recorded[e].index == j;
      }
    }
  }

  /** Undoes one entry: the new tree is removed and the old one moved back. */
  method UndoOne(disk: Disk, o: Output, existed: bool, ghost before: Files) returns (ok: bool)
    requires o.target != o.backup && Pending(before, disk.files, o, existed)
    modifies disk
    ensures Saved(before, disk.files, o)
    ensures ok ==> Restored(before, disk.files, o)
    ensures OnlyChanged(old(disk.files), disk.files, {o.target, o.backup})
    ensures !ok ==> exists k :: disk.fails(k)
  {
    ok := true;
    if o.target in disk.files {
      ok := disk.RemoveAll(o.target);
    }
    if existed {
      var moved := disk.Rename(o.backup, o.target);
      ok := ok && moved;
    }
  }

  lemma OneUndone(earlier: Files, files: Files, outputs: seq<Output>, i: nat, j: nat)
    requires Separate(outputs) && i < |outputs| && j < |outputs| && i != j
    requires OnlyChanged(earlier, files, {outputs[i].target, outputs[i].backup})
    ensures At(files, outputs[j].target) == At(earlier, outputs[j].target)
    ensures At(files, outputs[j].backup) == At(earlier, outputs[j].backup)
  {
    assert if i < j then Paths(outputs[i]) !! Paths(outputs[j]) else Paths(outputs[j]) !! Paths(outputs[i]);
  }

  lemma OthersStillKept(before: Files, earlier: Files, files: Files, outputs: seq<Output>, paths: set<Path>)
    requires OthersKept(before, earlier, outputs) && OnlyChanged(earlier, files, paths)
    requires forall p :: p in paths ==> Mentioned(outputs, p)
    ensures OthersKept(before, files, outputs)
  {
  }

  /** With the entries from `k` on undone: the others are pending, and nothing undone is lost. */
  predicate RollingBack(before: Files, files: Files, outputs: seq<Output>, published: seq<Entry>, k: nat, ok: bool)
    requires k <= |published| && forall e :: 0 <= e < |published| ==> published[e].index < |outputs|
  {
    && (forall e :: 0 <= e < k ==> Pending(before, files, outputs[published[e].index], published[e].existed))
    && forall i :: 0 <= i < |outputs| && !Listed(published[..k], i) ==>
         Saved(before, files, outputs[i]) && (ok ==> Restored(before, files, outputs[i]))
  }

  lemma UndoneKeeps(before: Files, earlier: Files, files: Files, outputs: seq<Output>, places: seq<Place>,
                    published: seq<Entry>, k: nat, ok: bool, undone: bool)
    requires Separate(outputs) && Recorded(before, outputs, places, published, |outputs|) && k < |published|
    requires RollingBack(before, earlier, outputs, published, k + 1, ok)
    requires var o := outputs[published[k].index];
             && OnlyChanged(earlier, files, {o.target, o.backup})
             && Saved(before, files, o) && (undone ==> Restored(before, files, o))
    ensures RollingBack(before, files, outputs, published, k, ok && undone)
  {
    var index := published[k].index;
    forall e | 0 <= e < k
      ensures Pending(before, files, outputs[published[e].index], published[e].existed)
    {
      OneUndone(earlier, files, outputs, index, published[e].index);
    }
    forall i | 0 <= i < |outputs| && !Listed(published[..k], i)
      ensures Saved(before, files, outputs[i]) && (ok && undone ==> Restored(before, files, outputs[i]))
    {
      if i != index {
        ListedShrinks(published, k, i);
        OneUndone(earlier, files, outputs, index, i);
      }
    }
  }

  /** Rolls back in reverse; the old outputs are safe under every schedule of failures. */
  method Rollback(disk: Disk, outputs: seq<Output>, published: seq<Entry>, ghost before: Files,
                  ghost places: seq<Place>)
    returns (ok: bool)
    requires Separate(outputs) && Arranged(before, disk.files, outputs, places)
    requires Recorded(before, outputs, places, published, |outputs|)
    modifies disk
    ensures forall i :: 0 <= i < |outputs| ==> Saved(before, disk.files, outputs[i])
    ensures ok ==> forall i :: 0 <= i < |outputs| ==> Restored(before, disk.files, outputs[i])
    ensures OthersKept(before, disk.files, outputs)
  {
    ok := true;
    EntriesArePending(before, disk.files, outputs, places, published);
    assert published[..|published|] == published;
    for k := |published| downto 0
      invariant OthersKept(before, disk.files, outputs)
      invariant RollingBack(before, disk.files, outputs, published, k, ok)
    {
      var o := outputs[published[k].index];
      ghost var earlier := disk.files;
      var undone := UndoOne(disk, o, published[k].existed, before);
      UndoneKeeps(before, earlier, disk.files, outputs, places, published, k, ok, undone);
      assert o.target in Paths(o) && o.backup in Paths(o);
      OthersStillKept(before, earlier, disk.files, outputs, {o.target, o.backup});
      ok := ok && undone;
    }
  }

  predicate Listed(published: seq<Entry>, i: nat) {
    exists e :: 0 <= e < |published| && published[e].index == i
  }

  lemma ListedShrinks(published: seq<Entry>, k: nat, i: nat)
    requires k < |published| && i != published[k].index && !Listed(published[..k], i)
    ensures !Listed(published[..k + 1], i)
  {
    assert forall e :: 0 <= e < k ==> published[..k][e] == published[..k + 1][e];
  }

  /** Before the rollback every recorded entry is pending and every other output is as it was. */
  lemma EntriesArePending(before: Files, files: Files, outputs: seq<Output>, places: seq<Place>, published: seq<Entry>)
    requires Arranged(before, files, outputs, places) && Recorded(before, outputs, places, published, |outputs|)
    ensures forall e :: 0 <= e < |published| ==>
              Pending(before, files, outputs[published[e].index], published[e].existed)
    ensures forall i :: 0 <= i < |outputs| && !Listed(published, i) ==> Restored(before, files, outputs[i])
  {
    forall e | 0 <= e < |published|
      ensures Pending(before, files, outputs[published[e].index], published[e].existed)
    {
      var i := published[e].index;
      assert Placed(before, files, outputs[i], places[i]);
    }
    forall i | 0 <= i < |outputs| && !Listed(published, i)
      ensures Restored(before, files, outputs[i])
    {
      assert Placed(before, files, outputs[i], places[i]);
    }
  }

  /** The staging directories go out of scope; whether a removal fails is not looked at. */
  method DropStaging(disk: Disk, outputs: seq<Output>, ghost before: Files)
    requires Separate(outputs) && OthersKept(before, disk.files, outputs)
    modifies disk
    ensures forall i :: 0 <= i < |outputs| ==>
              At(disk.files, outputs[i].target) == old(At(disk.files, outputs[i].target))
    ensures OthersKept(before, disk.files, outputs)
  {
    for k := 0 to |outputs|
      invariant forall i :: 0 <= i < |outputs| ==>
                  At(disk.files, outputs[i].target) == old(At(disk.files, outputs[i].target))
      invariant OthersKept(before, disk.files, outputs)
    {
      DropOne(disk, outputs[k].staged);
      PathsAreApart(outputs, k);
      DropOne(disk, outputs[k].backup);
      assert Mentioned(outputs, outputs[k].staged) && Mentioned(outputs, outputs[k].backup);
    }
  }

  method DropOne(disk: Disk, p: Path)
    modifies disk
    ensures forall q :: q != p ==> At(disk.files, q) == old(At(disk.files, q))
  {
    if p in disk.files {
      var _ := disk.RemoveAll(p);
    }
  }

  /**
   Publishes every changed output or none. Staging directories are dropped only when each
   old output is back at its destination or is replaced; otherwise they are kept.
   */
  method PublishChanged(disk: Disk, outputs: seq<Output>, changed: seq<bool>) returns (r: Result)
    requires Separate(outputs) && |changed| == |outputs|
    requires forall i :: 0 <= i < |outputs| ==> outputs[i].backup !in disk.files
    modifies disk
    ensures OthersKept(old(disk.files), disk.files, outputs)
    ensures r == Generated ==> forall i :: 0 <= i < |outputs| ==>
              if changed[i]
              then outputs[i].staged in old(disk.files)
              && At(disk.files, outputs[i].target) == old(At(disk.files, outputs[i].staged))
              else Restored(old(disk.files), disk.files, outputs[i])
    ensures r == RolledBack ==> forall i :: 0 <= i < |outputs| ==> Restored(old(disk.files), disk.files, outputs[i])
    ensures r == Stranded ==> forall i :: 0 <= i < |outputs| ==> Saved(old(disk.files), disk.files, outputs[i])
    ensures (forall k :: !disk.fails(k))
            && (forall i :: 0 <= i < |outputs| && changed[i] ==> outputs[i].staged in old(disk.files))
            ==> r == Generated
  {
    ghost var before := disk.files;
    ghost var places := seq(|outputs|, i => Untouched);
    var published: seq<Entry> := [];
    for index := 0 to |outputs|
      invariant Arranged(before, disk.files, outputs, places) && Recorded(before, outputs, places, published, index)
      invariant forall j :: 0 <= j < |places| ==> places[j] == if j < index && changed[j] then Replaced else Untouched
    {
      if changed[index] {
        var ok;
        ok, published, places := InstallChanged(disk, outputs, index, published, before, places);
        if !ok {
          var undone := Rollback(disk, outputs, published, before, places);
          if !undone {
            return Stranded;
          }
          DropStaging(disk, outputs, before);
          return RolledBack;
        }
      }
    }
    forall i | 0 <= i < |outputs|
      ensures Placed(before, disk.files, outputs[i], if changed[i] then Replaced else Untouched)
    {
      assert Placed(before, disk.files, outputs[i], places[i]);
    }
    DropStaging(disk, outputs, before);
    return Generated;
  }
}
