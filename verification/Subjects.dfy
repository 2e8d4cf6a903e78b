/** NATS subject patterns: what a filter matches, and when two filters share a subject. */
module Subjects {
  type Tokens = seq<string>

  function Split(s: string): (t: Tokens)
    ensures |t| > 0 && Dotless(t)
  {
    if s == "" then [""]
    else
      var rest := Split(s[1..]);
      if s[0] == '.' then [""] + rest else [[s[0]] + rest[0]] + rest[1..]
  }

  predicate Dotless(t: Tokens) {
    forall i :: 0 <= i < |t| ==> '.' !in t[i]
  }

  function Join(t: Tokens): string
    requires |t| > 0
  {
    if |t| == 1 then t[0] else t[0] + "." + Join(t[1..])
  }

  lemma SplitAfterToken(token: string, rest: string)
    requires '.' !in token
    ensures Split(token + "." + rest) == [token] + Split(rest)
    decreases token
  {
    if token == "" {
      assert (token + "." + rest)[1..] == rest;
    } else {
      SplitAfterToken(token[1..], rest);
      assert (token + "." + rest)[1..] == token[1..] + "." + rest;
      assert token == [token[0]] + token[1..];
    }
  }

  lemma SplitToken(token: string)
    requires '.' !in token
    ensures Split(token) == [token]
  {
    if token != "" {
      SplitToken(token[1..]);
      assert token == [token[0]] + token[1..];
    }
  }

  lemma {:induction false} SplitOfJoin(t: Tokens)
    requires |t| > 0 && Dotless(t)
    ensures Split(Join(t)) == t
  {
    if |t| == 1 {
      SplitToken(t[0]);
    } else {
      SplitOfJoin(t[1..]);
      SplitAfterToken(t[0], Join(t[1..]));
    }
  }

  /** `>` stands for one or more tokens, so only the last token may be it. */
  predicate WellFormed(pattern: Tokens) {
    forall i :: 0 <= i < |pattern| - 1 ==> pattern[i] != ">"
  }

  predicate Concrete(subject: Tokens) {
    "*" !in subject && ">" !in subject
  }

  predicate Fits(token: string, actual: string) {
    token == "*" || token == actual
  }

  /** What a pattern covers, token by token. */
  predicate Covers(pattern: Tokens, subject: Tokens) {
    && WellFormed(pattern)
    && if |pattern| > 0 && pattern[|pattern| - 1] == ">"
       then |subject| >= |pattern| && forall i :: 0 <= i < |pattern| - 1 ==> Fits(pattern[i], subject[i])
       else |subject| == |pattern| && forall i :: 0 <= i < |pattern| ==> Fits(pattern[i], subject[i])
  }

  lemma CoversTail(pattern: Tokens, subject: Tokens)
    requires |pattern| > 0 && |subject| > 0 && pattern[0] != ">" && Fits(pattern[0], subject[0])
    ensures Covers(pattern, subject) <==> Covers(pattern[1..], subject[1..])
  {
    var p, s := pattern[1..], subject[1..];
    assert |p| > 0 ==> p[|p| - 1] == pattern[|pattern| - 1];
    assert forall i :: 1 <= i < |pattern| ==> pattern[i] == p[i - 1];
    assert forall i :: 1 <= i < |subject| ==> subject[i] == s[i - 1];
    assert forall i :: 0 <= i < |p| ==> p[i] == pattern[i + 1];
    assert forall i :: 0 <= i < |s| ==> s[i] == subject[i + 1];
  }

  /** The matcher: it covers exactly the subjects it should, for every filter. */
  method SubjectMatches(filter: string, subject: string) returns (r: bool)
    ensures r <==> Covers(Split(filter), Split(subject))
  {
    var f, s := Split(filter), Split(subject);
    while true
      invariant Covers(Split(filter), Split(subject)) <==> Covers(f, s)
      decreases |f|
    {
      if f != [] && s != [] && f[0] == ">" {
        return |f| == 1;
      } else if f != [] && s != [] && Fits(f[0], s[0]) {
        CoversTail(f, s);
        f, s := f[1..], s[1..];
      } else {
        return f == [] && s == [];
      }
    }
  }

  // ----- Intersection -----

  predicate Intersect(left: Tokens, right: Tokens) {
    if left == [] || right == [] then left == right
    else if left[0] == ">" then |left| == 1
    else if right[0] == ">" then |right| == 1
    else if left[0] == "*" || right[0] == "*" || left[0] == right[0] then Intersect(left[1..], right[1..])
    else false
  }

  method SubjectsIntersect(left: string, right: string) returns (r: bool)
    ensures r <==> Intersect(Split(left), Split(right))
  {
    var l, k := Split(left), Split(right);
    while true
      invariant Intersect(Split(left), Split(right)) <==> Intersect(l, k)
      decreases |l|
    {
      if l != [] && k != [] && l[0] == ">" {
        return |l| == 1;
      } else if l != [] && k != [] && k[0] == ">" {
        return |k| == 1;
      } else if l != [] && k != [] && (l[0] == "*" || k[0] == "*" || l[0] == k[0]) {
        l, k := l[1..], k[1..];
      } else {
        return l == [] && k == [];
      }
    }
  }

  /** A subject in both patterns proves that they intersect and that both are well formed. */
  lemma {:induction false} SharedSubjectIntersects(left: Tokens, right: Tokens, subject: Tokens)
    requires Covers(left, subject) && Covers(right, subject)
    ensures Intersect(left, right)
  {
    if left != [] && right != [] && left[0] != ">" && right[0] != ">" {
      CoversTail(left, subject);
      CoversTail(right, subject);
      SharedSubjectIntersects(left[1..], right[1..], subject[1..]);
    }
  }

  function ConcreteToken(left: string, right: string): string {
    if left != "*" then left else if right != "*" then right else "x"
  }

  /** Every wildcard replaced by a plain token. */
  function Instance(pattern: Tokens): (t: Tokens)
    requires Dotless(pattern)
    ensures |t| == |pattern| && Dotless(t) && Concrete(t)
    ensures forall i :: 0 <= i < |t| ==> pattern[i] != ">" ==> Fits(pattern[i], t[i])
  {
    seq(|pattern|, i requires 0 <= i < |pattern| => if pattern[i] == "*" || pattern[i] == ">" then "x" else pattern[i])
  }

  /** A subject that both patterns cover, when they intersect. */
  function Shared(left: Tokens, right: Tokens): (t: Tokens)
    requires Intersect(left, right) && WellFormed(left) && WellFormed(right) && Dotless(left) && Dotless(right)
    ensures Dotless(t) && Concrete(t) && (left != [] ==> t != [])
  {
    if left == [] then []
    else if left[0] == ">" then Instance(right)
    else if right[0] == ">" then Instance(left)
    else [ConcreteToken(left[0], right[0])] + Shared(left[1..], right[1..])
  }

  lemma {:induction false} SharedIsCovered(left: Tokens, right: Tokens)
    requires Intersect(left, right) && WellFormed(left) && WellFormed(right) && Dotless(left) && Dotless(right)
    ensures Covers(left, Shared(left, right)) && Covers(right, Shared(left, right))
  {
    if left != [] && left[0] != ">" && right[0] != ">" {
      SharedIsCovered(left[1..], right[1..]);
      var t := Shared(left, right);
      assert t[1..] == Shared(left[1..], right[1..]);
      CoversTail(left, t);
      CoversTail(right, t);
    }
  }

  ghost predicate ShareSubject(left: string, right: string) {
    exists subject :: Concrete(Split(subject)) && Covers(Split(left), Split(subject))
                      && Covers(Split(right), Split(subject))
  }

  /**
   Two patterns share a concrete subject exactly when the intersection test holds and both
   are well formed: for well-formed patterns the test is exact.
   */
  lemma IntersectExactly(left: string, right: string)
    ensures ShareSubject(left, right) <==>
              Intersect(Split(left), Split(right)) && WellFormed(Split(left)) && WellFormed(Split(right))
  {
    var l, r := Split(left), Split(right);
    if ShareSubject(left, right) {
      var subject :| Concrete(Split(subject)) && Covers(l, Split(subject)) && Covers(r, Split(subject));
      SharedSubjectIntersects(l, r, Split(subject));
    }
    if Intersect(l, r) && WellFormed(l) && WellFormed(r) {
      var t := Shared(l, r);
      SharedIsCovered(l, r);
      SplitOfJoin(t);
      assert Concrete(Split(Join(t))) && Covers(l, Split(Join(t))) && Covers(r, Split(Join(t)));
    }
  }

  /** For an ill-formed pattern the test can hold although no subject is shared. */
  lemma IllFormedPatternIntersects()
    ensures Intersect(["a", ">", "b"], [">"])
    ensures forall subject :: !Covers(["a", ">", "b"], subject)
  {
    assert ["a", ">", "b"][1] == ">";
  }
}
