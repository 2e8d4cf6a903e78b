/**
 All-or-nothing publication of directories by renames, with rollback, when any rename or
 removal may fail. A directory tree is one value at one path.
 */
module Publication {
  import opened Wrappers

  type Path = string
  type Content = string
  type Files = map<Path, Content>

  function At(files: Files, p: Path): Option<Content> {
    if p in files then Some(files[p]) else None
  }

  function Renamed(files: Files, from: Path, to: Path): Files
    requires from in files
  {
    (files - {from})[to := files[from]]
  }

  /**
   The disk. The `k`-th operation fails when `fails(k)`; a removal that fails part way
   leaves `damage(k)` behind. Every schedule of failures is some choice of the two.
   */
  class Disk {
    var files: Files
    var calls: nat
    const fails: nat -> bool
    const damage: nat -> Content

    constructor (files: Files, fails: nat -> bool, damage: nat -> Content)
      ensures this.files == files && calls == 0 && this.fails == fails && this.damage == damage
    {
      this.files, this.calls, this.fails, this.damage := files, 0, fails, damage;
    }

    method Rename(from: Path, to: Path) returns (ok: bool)
      modifies this
      ensures calls == old(calls) + 1
      ensures ok <==> from in old(files) && !fails(old(calls))
      ensures files == if ok then Renamed(old(files), from, to) else old(files)
    {
      ok := from in files && !fails(calls);
      if ok {
        files := Renamed(files, from, to);
      }
      calls := calls + 1;
    }

    method RemoveAll(p: Path) returns (ok: bool)
      requires p in files
      modifies this
      ensures calls == old(calls) + 1
      ensures ok <==> !fails(old(calls))
      ensures files == if ok then old(files) - {p} else old(files)[p := damage(old(calls))]
    {
      ok := !fails(calls);
      files := if ok then files - {p} else files[p := damage(calls)];
      calls := calls + 1;
    }

    /** Creates the directories above an output, none of which is itself an output. */
    method CreateParents() returns (ok: bool)
      modifies this
      ensures calls == old(calls) + 1 && files == old(files)
      ensures ok <==> !fails(old(calls))
    {
      ok := !fails(calls);
      calls := calls + 1;
    }
  }

  datatype Output = Output(staged: Path, target: Path, backup: Path)

  function Paths(o: Output): set<Path> {
    {o.staged, o.target, o.backup}
  }

  predicate Separate(outputs: seq<Output>) {
    && (forall i :: 0 <= i < |outputs| ==>
          var o := outputs[i]; o.staged != o.target && o.target != o.backup && o.staged != o.backup)
    && forall i, j :: 0 <= i < j < |outputs| ==> Paths(outputs[i]) !! Paths(outputs[j])
  }

  ghost predicate Mentioned(outputs: seq<Output>, p: Path) {
    exists i :: 0 <= i < |outputs| && p in Paths(outputs[i])
  }

  // ----- Where an output stands -----

  datatype Place = Untouched | SetAside | Replaced

  predicate Placed(before: Files, files: Files, o: Output, place: Place) {
    match place
    case Untouched =>
      && At(files, o.staged) == At(before, o.staged)
      && At(files, o.target) == At(before, o.target)
      && At(files, o.backup) == None
    case SetAside =>
      && o.target in before
      && At(files, o.staged) == At(before, o.staged)
      && At(files, o.target) == None
      && At(files, o.backup) == At(before, o.target)
    case Replaced =>
      && o.staged in before
      && At(files, o.staged) == None
      && At(files, o.target) == At(before, o.staged)
      && At(files, o.backup) == At(before, o.target)
  }

  ghost predicate OthersKept(before: Files, files: Files, outputs: seq<Output>) {
    forall p :: !Mentioned(outputs, p) ==> At(files, p) == At(before, p)
  }

  /** Every output stands where `places` says, and nothing else changed. */
  ghost predicate Arranged(before: Files, files: Files, outputs: seq<Output>, places: seq<Place>) {
    && |places| == |outputs|
    && (forall i :: 0 <= i < |outputs| ==> Placed(before, files, outputs[i], places[i]))
    && OthersKept(before, files, outputs)
  }

  /** A rename inside one output leaves the others where they stand. */
  lemma RenameMovesOne(before: Files, files: Files, outputs: seq<Output>, places: seq<Place>, i: nat, from: Path,
                       to: Path, place: Place)
    requires Separate(outputs) && Arranged(before, files, outputs, places) && i < |outputs|
    requires from in Paths(outputs[i]) && to in Paths(outputs[i]) && from in files
    requires Placed(before, Renamed(files, from, to), outputs[i], place)
    ensures Arranged(before, Renamed(files, from, to), outputs, places[i := place])
  {
    var n := Renamed(files, from, to);
    forall j | 0 <= j < |outputs|
      ensures Placed(before, n, outputs[j], places[i := place][j])
    {
      if j != i {
        assert Paths(outputs[i]) !! Paths(outputs[j]);
        ApartIsKept(before, files, outputs[j], places[j], from, to);
      }
    }
    forall p | !Mentioned(outputs, p)
      ensures At(n, p) == At(before, p)
    {
      assert p !in Paths(outputs[i]);
    }
  }

  lemma ApartIsKept(before: Files, files: Files, o: Output, place: Place, from: Path, to: Path)
    requires Placed(before, files, o, place) && from in files && from !in Paths(o) && to !in Paths(o)
    ensures Placed(before, Renamed(files, from, to), o, place)
  {
  }

  predicate AllUntouched(places: seq<Place>) {
    forall i :: 0 <= i < |places| ==> places[i] == Untouched
  }

  /** The file map is the starting one exactly when every output is untouched. */
  lemma UnchangedExactly(before: Files, files: Files, outputs: seq<Output>, places: seq<Place>)
    requires Arranged(before, files, outputs, places)
    requires forall i :: 0 <= i < |outputs| ==> outputs[i].backup !in before
    ensures files == before <==> AllUntouched(places)
  {
    if AllUntouched(places) {
      forall p: Path
        ensures At(files, p) == At(before, p)
      {
        if Mentioned(outputs, p) {
          var i :| 0 <= i < |outputs| && p in Paths(outputs[i]);
          assert Placed(before, files, outputs[i], places[i]);
        }
      }
      assert forall p :: p in files <==> At(files, p).Some?;
      assert forall p :: p in before <==> At(before, p).Some?;
    } else {
      var i :| 0 <= i < |places| && places[i] != Untouched;
      assert Placed(before, files, outputs[i], places[i]);
    }
  }

  // ----- Publication -----

  datatype Outcome = Published | Refused | Failed(recoveryErrors: nat) | CleanupFailed

  method BackupExists(disk: Disk, outputs: seq<Output>) returns (found: bool)
    ensures found <==> exists i :: 0 <= i < |outputs| && outputs[i].backup in disk.files
  {
    for i := 0 to |outputs|
      invariant forall j :: 0 <= j < i ==> outputs[j].backup !in disk.files
    {
      if outputs[i].backup in disk.files {
        return true;
      }
    }
    found := false;
  }

  /** Sets the target aside and moves the staged tree in; no rename overwrites anything. */
  method Install(disk: Disk, outputs: seq<Output>, i: nat, ghost before: Files, ghost places: seq<Place>)
    returns (ok: bool, ghost place: Place)
    requires Separate(outputs) && i < |outputs|
    requires Arranged(before, disk.files, outputs, places) && places[i] == Untouched
    modifies disk
    ensures Arranged(before, disk.files, outputs, places[i := place])
    ensures if ok then place == Replaced else place == Untouched || place == SetAside
    ensures disk.calls >= old(disk.calls)
    ensures !ok ==> outputs[i].staged !in before || exists k :: disk.fails(k)
  {
    var o := outputs[i];
    place := Untouched;
    assert places[i := Untouched] == places;
    assert Placed(before, disk.files, o, places[i]);
    if o.target in disk.files {
      assert o.backup !in disk.files;
      ghost var files := disk.files;
      ok := disk.Rename(o.target, o.backup);
      if !ok {
        return;
      }
      RenameMovesOne(before, files, outputs, places, i, o.target, o.backup, SetAside);
      place := SetAside;
    }
    ghost var files, now := disk.files, places[i := place];
    assert Placed(before, files, o, now[i]);
    assert o.target !in disk.files;
    ok := disk.Rename(o.staged, o.target);
    if ok {
      RenameMovesOne(before, files, outputs, now, i, o.staged, o.target, Replaced);
      assert now[i := Replaced] == places[i := Replaced];
      place := Replaced;
    }
  }

  /** Puts back the output whose installation failed. */
  method RestoreCurrent(disk: Disk, outputs: seq<Output>, i: nat, ghost before: Files, ghost places: seq<Place>)
    returns (errors: nat, ghost after: seq<Place>)
    requires Separate(outputs) && i < |outputs|
    requires Arranged(before, disk.files, outputs, places) && places[i] != Replaced
    modifies disk
    ensures Arranged(before, disk.files, outputs, after)
    ensures |after| == |places| && after[i] != Replaced
    ensures forall j :: 0 <= j < |places| && j != i ==> after[j] == places[j]
    ensures errors == 0 <==> after[i] == Untouched
  {
    var o := outputs[i];
    errors, after := 0, places;
    assert Placed(before, disk.files, o, places[i]);
    if o.backup in disk.files && o.target !in disk.files {
      ghost var files := disk.files;
      var ok := disk.Rename(o.backup, o.target);
      if ok {
        RenameMovesOne(before, files, outputs, places, i, o.backup, o.target, Untouched);
        after := places[i := Untouched];
      } else {
        errors := 1;
      }
    }
  }

  /** Takes an installed output back to its staging path and restores its backup. */
  method RestoreEarlier(disk: Disk, outputs: seq<Output>, i: nat, ghost before: Files, ghost places: seq<Place>)
    returns (errors: nat, ghost after: seq<Place>)
    requires Separate(outputs) && i < |outputs|
    requires Arranged(before, disk.files, outputs, places) && places[i] == Replaced
    modifies disk
    ensures Arranged(before, disk.files, outputs, after)
    ensures |after| == |places| && forall j :: 0 <= j < |places| && j != i ==> after[j] == places[j]
    ensures errors == 0 <==> after[i] == Untouched
  {
    var o := outputs[i];
    errors, after := 0, places;
    assert Placed(before, disk.files, o, places[i]);
    assert o.staged !in disk.files;
    ghost var files := disk.files;
    var ok := disk.Rename(o.target, o.staged);
    if !ok {
      errors := 1;
      return;
    }
    after := places[i := if o.target in before then SetAside else Untouched];
    RenameMovesOne(before, files, outputs, places, i, o.target, o.staged, after[i]);
    if o.backup in disk.files {
      errors, after := RestoreCurrent(disk, outputs, i, before, after);
    }
  }

  /** Every old output is at its target or its backup, every staged one at its staging path or its target. */
  predicate NothingLost(before: Files, files: Files, o: Output) {
    && (o.target in before ==>
          At(files, o.target) == At(before, o.target) || At(files, o.backup) == At(before, o.target))
    && (o.staged in before ==>
          At(files, o.staged) == At(before, o.staged) || At(files, o.target) == At(before, o.staged))
  }

  method Recover(disk: Disk, outputs: seq<Output>, index: nat, ghost before: Files, ghost places: seq<Place>)
    returns (errors: nat)
    requires Separate(outputs) && index < |outputs|
    requires forall i :: 0 <= i < |outputs| ==> outputs[i].backup !in before
    requires Arranged(before, disk.files, outputs, places) && places[index] != Replaced
    requires forall j :: 0 <= j < index ==> places[j] == Replaced
    requires forall j :: index < j < |places| ==> places[j] == Untouched
    modifies disk
    ensures forall i :: 0 <= i < |outputs| ==> NothingLost(before, disk.files, outputs[i])
    ensures OthersKept(before, disk.files, outputs)
    ensures errors == 0 <==> disk.files == before
  {
    ghost var after;
    errors, after := RestoreCurrent(disk, outputs, index, before, places);
    for k := index downto 0
      invariant Arranged(before, disk.files, outputs, after)
      invariant forall j :: 0 <= j < k ==> after[j] == Replaced
      invariant errors == 0 <==> forall j :: k <= j < |after| ==> after[j] == Untouched
    {
      ghost var earlier := after;
      var more;
      more, after := RestoreEarlier(disk, outputs, k, before, earlier);
      assert forall j :: k < j < |after| ==> after[j] == earlier[j];
      errors := errors + more;
    }
    UnchangedExactly(before, disk.files, outputs, after);
    forall i | 0 <= i < |outputs|
      ensures NothingLost(before, disk.files, outputs[i])
    {
      assert Placed(before, disk.files, outputs[i], after[i]);
    }
  }

  /** The target holds the staged tree and nothing is left at the staging path. */
  predicate Delivered(before: Files, files: Files, o: Output) {
    o.staged in before && At(files, o.target) == At(before, o.staged) && o.staged !in files
  }

  /** Deletes the backups once every output is installed. */
  method RemoveBackups(disk: Disk, outputs: seq<Output>, ghost before: Files) returns (ok: bool)
    requires Separate(outputs)
    requires forall i :: 0 <= i < |outputs| ==> Delivered(before, disk.files, outputs[i])
    requires OthersKept(before, disk.files, outputs)
    modifies disk
    ensures forall i :: 0 <= i < |outputs| ==> Delivered(before, disk.files, outputs[i])
    ensures OthersKept(before, disk.files, outputs)
    ensures ok ==> forall i :: 0 <= i < |outputs| ==> outputs[i].backup !in disk.files
    ensures !ok ==> exists k :: disk.fails(k)
  {
    for k := 0 to |outputs|
      invariant forall i :: 0 <= i < |outputs| ==> Delivered(before, disk.files, outputs[i])
      invariant OthersKept(before, disk.files, outputs)
      invariant forall i :: 0 <= i < k ==> outputs[i].backup !in disk.files
    {
      var o := outputs[k];
      if o.backup in disk.files {
        ghost var files := disk.files;
        PathsAreApart(outputs, k);
        ok := disk.RemoveAll(o.backup);
        assert forall p :: p != o.backup ==> At(disk.files, p) == At(files, p);
        assert forall i :: 0 <= i < |outputs| ==> Delivered(before, files, outputs[i]);
        assert Mentioned(outputs, o.backup);
        if !ok {
          return;
        }
      }
    }
    ok := true;
  }

  lemma PathsAreApart(outputs: seq<Output>, k: nat)
    requires Separate(outputs) && k < |outputs|
    ensures forall i :: 0 <= i < |outputs| ==>
              outputs[i].target != outputs[k].backup && outputs[i].staged != outputs[k].backup
              && outputs[i].target != outputs[k].staged
    ensures forall i :: 0 <= i < |outputs| && i != k ==> outputs[i].backup != outputs[k].backup
  {
    forall i | 0 <= i < |outputs| && i != k
      ensures Paths(outputs[i]) !! Paths(outputs[k])
    {
      if k < i {
        assert Paths(outputs[k]) !! Paths(outputs[i]);
      }
    }
  }

  /**
   Publishes all outputs or none. Under every schedule of failures a failed publication
   loses nothing, and it leaves the starting file map exactly when no recovery step failed.
   */
  method Publish(disk: Disk, outputs: seq<Output>) returns (r: Outcome)
    requires Separate(outputs)
    modifies disk
    ensures r == Refused <==> exists i :: 0 <= i < |outputs| && outputs[i].backup in old(disk.files)
    ensures r == Refused ==> disk.files == old(disk.files)
    ensures OthersKept(old(disk.files), disk.files, outputs)
    ensures r.Failed? ==>
              && (forall i :: 0 <= i < |outputs| ==> NothingLost(old(disk.files), disk.files, outputs[i]))
              && (r.recoveryErrors == 0 <==> disk.files == old(disk.files))
    ensures r == Published || r == CleanupFailed ==>
              forall i :: 0 <= i < |outputs| ==> Delivered(old(disk.files), disk.files, outputs[i])
    ensures r == Published ==> forall i :: 0 <= i < |outputs| ==> outputs[i].backup !in disk.files
    ensures (forall k :: !disk.fails(k)) && (forall i :: 0 <= i < |outputs| ==> outputs[i].staged in old(disk.files))
            ==> r == Published || r == Refused
  {
    ghost var before := disk.files;
    var found := BackupExists(disk, outputs);
    if found {
      return Refused;
    }
    ghost var places := seq(|outputs|, i => Untouched);
    for index := 0 to |outputs|
      invariant Arranged(before, disk.files, outputs, places)
      invariant forall j :: 0 <= j < index ==> places[j] == Replaced
      invariant forall j :: index <= j < |places| ==> places[j] == Untouched
    {
      ghost var place;
      var ok;
      ok, place := Install(disk, outputs, index, before, places);
      places := places[index := place];
      if !ok {
        var errors := Recover(disk, outputs, index, before, places);
        return Failed(errors);
      }
    }
    forall i | 0 <= i < |outputs|
      ensures Delivered(before, disk.files, outputs[i])
    {
      assert Placed(before, disk.files, outputs[i], places[i]);
    }
    var ok := RemoveBackups(disk, outputs, before);
    r := if ok then Published else CleanupFailed;
  }
}
