/**
 Project directories: joining and canonicalising a declared dependency path, and
 recording a canonical directory as text relative to the project root.
 */
module ProjectPaths {
  import opened Wrappers

  /** A piece of a file name: a character, or bytes that are not UTF-8. */
  datatype Piece = Char(c: char) | Stray(content: bytes)

  type Component = seq<Piece>

  /** An absolute canonical directory as its components. */
  type Directory = seq<Component>

  /** What stands for stray bytes when a path is turned into text. */
  const REPLACEMENT: char := '\U{FFFD}'

  function Spelled(text: string): Component {
    seq(|text|, i requires 0 <= i < |text| => Char(text[i]))
  }

  function Lossy(c: Component): string {
    seq(|c|, i requires 0 <= i < |c| => if c[i].Char? then c[i].c else REPLACEMENT)
  }

  predicate IsText(c: Component) {
    forall i :: 0 <= i < |c| ==> c[i].Char?
  }

  lemma LossyOfSpelled(text: string)
    ensures Lossy(Spelled(text)) == text && IsText(Spelled(text))
  {
  }

  /** Turning a name into text keeps it exactly when it is text. */
  lemma LossyKeepsText(c: Component)
    ensures Spelled(Lossy(c)) == c <==> IsText(c)
    ensures !IsText(c) ==> Char(REPLACEMENT) in Spelled(Lossy(c))
  {
    if !IsText(c) {
      var i :| 0 <= i < |c| && !c[i].Char?;
      assert Spelled(Lossy(c))[i] == Char(REPLACEMENT);
    }
  }

  /** The directories that exist, and the symbolic links with their final targets. */
  datatype Tree = Tree(directories: set<Directory>, links: map<Directory, Directory>)

  predicate Ordinary(c: Component) {
    Lossy(c) != "." && Lossy(c) != ".."
  }

  /** Existing directories are canonical: every ancestor exists and none is a link. */
  predicate WellFormed(t: Tree) {
    && (forall d, i :: d in t.directories && 0 <= i < |d| ==> Ordinary(d[i]))
    && (forall d, k :: d in t.directories && 0 <= k <= |d| ==> d[..k] in t.directories && d[..k] !in t.links)
    && (forall l :: l in t.links ==> t.links[l] in t.directories)
  }

  /** Join `path` to `dir` and resolve it component by component, following links. */
  function Canonicalize(t: Tree, dir: Directory, path: seq<string>): Option<Directory>
    decreases |path|
  {
    if path == [] then (if dir in t.directories then Some(dir) else None)
    else if path[0] == "." then Canonicalize(t, dir, path[1..])
    else if path[0] == ".." then Canonicalize(t, if dir == [] then [] else dir[..|dir| - 1], path[1..])
    else
      var next := dir + [Spelled(path[0])];
      if next in t.links then Canonicalize(t, t.links[next], path[1..])
      else if next in t.directories then Canonicalize(t, next, path[1..])
      else None
  }

  function CommonPrefix(a: Directory, b: Directory): (k: nat)
    ensures k <= |a| && k <= |b| && a[..k] == b[..k]
  {
    if a == [] || b == [] || a[0] != b[0] then 0
    else
      assert a == [a[0]] + a[1..] && b == [b[0]] + b[1..];
      1 + CommonPrefix(a[1..], b[1..])
  }

  function Texts(components: seq<Component>): seq<string> {
    seq(|components|, i requires 0 <= i < |components| => Lossy(components[i]))
  }

  predicate AllText(components: seq<Component>) {
    forall i :: 0 <= i < |components| ==> IsText(components[i])
  }

  function Up(n: nat): seq<string> {
    seq(n, i => "..")
  }

  /** The part of `target` below its common ancestor with `base`. */
  function Below(target: Directory, base: Directory): seq<Component> {
    target[CommonPrefix(target, base)..]
  }

  /** The recorded path from `base` to `target`: up to the common ancestor, then down, as text. */
  function Recorded(target: Directory, base: Directory): seq<string> {
    Up(|base| - CommonPrefix(target, base)) + Texts(Below(target, base))
  }

  lemma {:induction false} CanonicalizeUp(t: Tree, dir: Directory, n: nat, rest: seq<string>)
    requires n <= |dir|
    ensures Canonicalize(t, dir, Up(n) + rest) == Canonicalize(t, dir[..|dir| - n], rest)
    decreases n
  {
    if n == 0 {
      assert Up(0) + rest == rest && dir[..|dir|] == dir;
    } else {
      var parent := dir[..|dir| - 1];
      assert (Up(n) + rest)[0] == "..";
      assert (Up(n) + rest)[1..] == Up(n - 1) + rest;
      CanonicalizeUp(t, parent, n - 1, rest);
      assert parent[..|parent| - (n - 1)] == dir[..|dir| - n];
    }
  }

  lemma NextText(target: Directory, k: nat)
    requires k < |target|
    ensures Texts(target[k..]) != [] && Texts(target[k..])[0] == Lossy(target[k])
    ensures Texts(target[k..])[1..] == Texts(target[k + 1..])
  {
  }

  lemma {:induction false} CanonicalizeDown(t: Tree, target: Directory, k: nat)
    requires WellFormed(t) && target in t.directories && k <= |target| && AllText(target[k..])
    ensures Canonicalize(t, target[..k], Texts(target[k..])) == Some(target)
    decreases |target| - k
  {
    if k == |target| {
      assert target[..k] == target && Texts(target[k..]) == [];
    } else {
      NextText(target, k);
      assert target[k..][0] == target[k] && Ordinary(target[k]);
      LossyKeepsText(target[k]);
      assert target[..k] + [target[k]] == target[..k + 1];
      var here, after := target[k..], target[k + 1..];
      assert forall i :: 0 <= i < |after| ==> after[i] == here[i + 1];
      CanonicalizeDown(t, target, k + 1);
    }
  }

  /**
   When the part below the common ancestor is text, the recorded path leads from the project
   root back to the very directory it was recorded for.
   */
  lemma RelativePathRoundTrip(t: Tree, target: Directory, base: Directory)
    requires WellFormed(t) && target in t.directories && base in t.directories && AllText(Below(target, base))
    ensures Canonicalize(t, base, Recorded(target, base)) == Some(target)
  {
    var k := CommonPrefix(target, base);
    CanonicalizeUp(t, base, |base| - k, Texts(Below(target, base)));
    CanonicalizeDown(t, target, k);
  }

  // ----- Names that are not text -----

  /** No symbolic link lies at or below a name that contains the replacement character. */
  predicate PlainLinks(t: Tree) {
    forall l, i :: l in t.links && 0 <= i < |l| ==> Char(REPLACEMENT) !in l[i]
  }

  /** Below a replaced name every step goes down. */
  lemma {:induction false} ReplacedStaysBelow(t: Tree, dir: Directory, path: seq<string>, k: nat)
    requires PlainLinks(t) && k < |dir| && Char(REPLACEMENT) in dir[k]
    requires forall i :: 0 <= i < |path| ==> path[i] != "." && path[i] != ".."
    ensures var r := Canonicalize(t, dir, path); r.Some? ==> k < |r.value| && r.value[k] == dir[k]
    decreases |path|
  {
    if path != [] {
      var next := dir + [Spelled(path[0])];
      assert next[k] == dir[k];
      if next !in t.links && next in t.directories {
        ReplacedStaysBelow(t, next, path[1..], k);
      }
    }
  }

  lemma {:induction false} LossyPathMisses(t: Tree, target: Directory, k: nat)
    requires WellFormed(t) && PlainLinks(t) && target in t.directories && k <= |target| && !AllText(target[k..])
    ensures Canonicalize(t, target[..k], Texts(target[k..])) != Some(target)
    decreases |target| - k
  {
    NextText(target, k);
    LossyKeepsText(target[k]);
    assert target[k..][0] == target[k] && Ordinary(target[k]);
    var next := target[..k] + [Spelled(Lossy(target[k]))];
    if IsText(target[k]) {
      assert next == target[..k + 1];
      var here, after := target[k..], target[k + 1..];
      assert forall i :: 1 <= i < |here| ==> here[i] == after[i - 1];
      LossyPathMisses(t, target, k + 1);
    } else {
      assert next[k] == Spelled(Lossy(target[k]));
      var rest := Texts(target[k + 1..]);
      forall i | 0 <= i < |rest|
        ensures rest[i] != "." && rest[i] != ".."
      {
        assert Ordinary(target[k + 1 + i]);
      }
      assert next !in t.links;
      ReplacedStaysBelow(t, next, rest, k);
    }
  }

  /** Where links do not hide under replaced names, a directory is recorded faithfully exactly when its name is text. */
  lemma RecordedExactlyWhenText(t: Tree, target: Directory, base: Directory)
    requires WellFormed(t) && PlainLinks(t) && target in t.directories && base in t.directories
    ensures Canonicalize(t, base, Recorded(target, base)) == Some(target) <==> AllText(Below(target, base))
  {
    var k := CommonPrefix(target, base);
    CanonicalizeUp(t, base, |base| - k, Texts(Below(target, base)));
    if AllText(Below(target, base)) {
      CanonicalizeDown(t, target, k);
    } else {
      LossyPathMisses(t, target, k);
    }
  }

  const STRAY_NAME: Component := [Stray([255])]

  /** A link to a directory whose name is one stray byte: the declared path arrives, the recorded one does not. */
  lemma StrayNameIsNotFoundAgain(link: string, target: Directory, t: Tree)
    requires link != "." && link != ".." && REPLACEMENT !in link && target == [STRAY_NAME]
    requires t == Tree({[], target}, map[[Spelled(link)] := target])
    ensures WellFormed(t) && Canonicalize(t, [], [link]) == Some(target)
    ensures Canonicalize(t, [], Recorded(target, [])) == None
  {
    StrayTreeIsWellFormed(link, target, t);
    assert [] + [Spelled(link)] == [Spelled(link)];
    var path := Recorded(target, []);
    assert path == Texts(target);
    assert path[0] == Lossy(STRAY_NAME) && path[1..] == [];
    StrayNameIsNew(link, target);
    assert [] + [Spelled(Lossy(STRAY_NAME))] == [Spelled(Lossy(STRAY_NAME))];
  }

  lemma StrayTreeIsWellFormed(link: string, target: Directory, t: Tree)
    requires target == [STRAY_NAME] && t == Tree({[], target}, map[[Spelled(link)] := target])
    ensures WellFormed(t) && [Spelled(link)] != target && Ordinary(STRAY_NAME)
  {
    assert Lossy(STRAY_NAME)[0] == REPLACEMENT;
    assert target[..0] == [] && target[..1] == target;
    assert forall i :: 0 <= i < |Spelled(link)| ==> Spelled(link)[i].Char?;
    assert STRAY_NAME[0].Stray?;
  }

  lemma StrayNameIsNew(link: string, target: Directory)
    requires REPLACEMENT !in link && target == [STRAY_NAME]
    ensures [Spelled(Lossy(STRAY_NAME))] != target && [Spelled(Lossy(STRAY_NAME))] != [Spelled(link)]
  {
    var next := Spelled(Lossy(STRAY_NAME));
    assert next[0] == Char(REPLACEMENT) && STRAY_NAME[0].Stray?;
    assert link != [] ==> Spelled(link)[0] == Char(link[0]);
    assert [next][0] == next && target[0] == STRAY_NAME && [Spelled(link)][0] == Spelled(link);
  }

  lemma {:induction false} CanonicalizeIsCanonical(t: Tree, dir: Directory, path: seq<string>)
    requires WellFormed(t) && dir in t.directories
    ensures var r := Canonicalize(t, dir, path); r.Some? ==> r.value in t.directories
    decreases |path|
  {
    if path != [] {
      if path[0] == "." {
        CanonicalizeIsCanonical(t, dir, path[1..]);
      } else if path[0] == ".." {
        CanonicalizeIsCanonical(t, if dir == [] then [] else dir[..|dir| - 1], path[1..]);
      } else {
        var next := dir + [Spelled(path[0])];
        if next in t.links {
          CanonicalizeIsCanonical(t, t.links[next], path[1..]);
        } else if next in t.directories {
          CanonicalizeIsCanonical(t, next, path[1..]);
        }
      }
    }
  }
}
