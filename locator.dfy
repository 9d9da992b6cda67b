/**
 * The tree locator: `find` of dumpbookmarks.go follows a path of names
 * down from a node, committing at every level to the first child whose
 * name matches and never trying a later sibling.
 */
module Locator {
  import opened Wrappers
  import opened Tree

  /** The index of the first child named `name`, scanning in stored order. */
  function FirstMatch(children: seq<Bookmark>, name: string): (r: Option<nat>)
    ensures r.Some? ==> r.value < |children| && children[r.value].name == name
    ensures r.Some? ==> forall j :: 0 <= j < r.value ==> children[j].name != name
    ensures r.None? <==> forall j :: 0 <= j < |children| ==> children[j].name != name
  {
    if |children| == 0 then None
    else if children[0].name == name then Some(0)
    else match FirstMatch(children[1..], name)
      case None => None
      case Some(i) => Some(i + 1)
  }

  /**
   * The node reached from `b` by following `path`, or None when some level
   * has no child of the wanted name. A successful lookup along a non-empty
   * path ends at a node carrying the last name of the path.
   */
  function Find(b: Bookmark, path: seq<string>): (r: Option<Bookmark>)
    ensures r.Some? && |path| > 0 ==> r.value.name == path[|path| - 1]
    decreases |path|
  {
    if |path| == 0 then Some(b)
    else match FirstMatch(b.children, path[0])
      case None => None
      case Some(i) => Find(b.children[i], path[1..])
  }

  /** The node reached from `b` by taking child number steps[0], then steps[1], and so on. */
  function Follow(b: Bookmark, steps: seq<nat>): Option<Bookmark>
    decreases |steps|
  {
    if |steps| == 0 then Some(b)
    else if steps[0] < |b.children| then Follow(b.children[steps[0]], steps[1..])
    else None
  }

  /**
   * `steps` is a walk from `b` of one step per name of `path` whose step k
   * enters a child named path[k] (any such child, not necessarily the first).
   */
  ghost predicate Labelled(b: Bookmark, steps: seq<nat>, path: seq<string>)
    decreases |steps|
  {
    |steps| == |path| &&
    (|steps| > 0 ==>
      steps[0] < |b.children| && b.children[steps[0]].name == path[0] &&
      Labelled(b.children[steps[0]], steps[1..], path[1..]))
  }

  /**
   * `steps` is a labelled walk that, at every level, enters the earliest
   * child of the wanted name: no sibling before it carries that name.
   */
  ghost predicate FirstChoice(b: Bookmark, steps: seq<nat>, path: seq<string>)
    decreases |steps|
  {
    |steps| == |path| &&
    (|steps| > 0 ==>
      steps[0] < |b.children| && b.children[steps[0]].name == path[0] &&
      (forall j :: 0 <= j < steps[0] ==> b.children[j].name != path[0]) &&
      FirstChoice(b.children[steps[0]], steps[1..], path[1..]))
  }

  /** The empty path locates the starting node itself. */
  lemma FindEmptyPath(b: Bookmark)
    ensures Find(b, []) == Some(b)
  {
  }

  /** With no child named path[0] the lookup fails. */
  lemma FindNoMatch(b: Bookmark, path: seq<string>)
    requires |path| > 0
    requires forall c :: c in b.children ==> c.name != path[0]
    ensures Find(b, path) == None
  {
    assert forall j :: 0 <= j < |b.children| ==> b.children[j] in b.children;
  }

  /** Once the first child named path[0] is found, the rest of the lookup happens below it alone. */
  lemma FindFirstMatchWins(b: Bookmark, path: seq<string>, i: nat)
    requires |path| > 0 && i < |b.children| && b.children[i].name == path[0]
    requires forall j :: 0 <= j < i ==> b.children[j].name != path[0]
    ensures Find(b, path) == Find(b.children[i], path[1..])
  {
    var m := FirstMatch(b.children, path[0]);
    assert m.Some? by {
      assert b.children[i].name == path[0];
    }
    assert !(m.value < i);
    assert !(i < m.value);
  }

  /** A successful lookup took a first-choice walk of exactly |path| steps to the node it returns. */
  lemma {:induction false} FindWalk(b: Bookmark, path: seq<string>) returns (steps: seq<nat>)
    requires Find(b, path).Some?
    ensures |steps| == |path|
    ensures FirstChoice(b, steps, path) && Follow(b, steps) == Find(b, path)
    decreases |path|
  {
    if |path| == 0 {
      steps := [];
    } else {
      var i := FirstMatch(b.children, path[0]).value;
      var rest := FindWalk(b.children[i], path[1..]);
      steps := [i] + rest;
      assert steps[1..] == rest;
    }
  }

  /** Conversely, the node at the end of any first-choice walk is what the lookup returns. */
  lemma {:induction false} FirstChoiceFind(b: Bookmark, steps: seq<nat>, path: seq<string>)
    requires FirstChoice(b, steps, path)
    ensures Find(b, path) == Follow(b, steps)
    ensures Find(b, path).Some?
    decreases |steps|
  {
    if |steps| > 0 {
      FirstChoiceFind(b.children[steps[0]], steps[1..], path[1..]);
    }
  }

  /** The lookup fails exactly when no first-choice walk along the path exists. */
  lemma FindNoneIff(b: Bookmark, path: seq<string>)
    ensures Find(b, path).None? <==> forall steps :: !FirstChoice(b, steps, path)
  {
    if Find(b, path).Some? {
      var steps := FindWalk(b, path);
      assert FirstChoice(b, steps, path);
    } else {
      forall steps ensures !FirstChoice(b, steps, path) {
        if FirstChoice(b, steps, path) {
          FirstChoiceFind(b, steps, path);
        }
      }
    }
  }

  /** Looking up p followed by q is looking up p, then looking up q from where p ended. */
  lemma {:induction false} FindCompose(b: Bookmark, p: seq<string>, q: seq<string>)
    ensures Find(b, p + q) == match Find(b, p) { case None => None case Some(n) => Find(n, q) }
    decreases |p|
  {
    if |p| == 0 {
      assert p + q == q;
    } else {
      assert (p + q)[0] == p[0];
      assert (p + q)[1..] == p[1..] + q;
      match FirstMatch(b.children, p[0])
      case None =>
      case Some(i) => FindCompose(b.children[i], p[1..], q);
    }
  }

  /**
   * A failed lookup along a non-empty path stops at one level k: the prefix
   * path[..k] is found, and the node it reaches has no child named path[k].
   */
  lemma {:induction false} FindFailsAt(b: Bookmark, path: seq<string>) returns (k: nat)
    requires Find(b, path).None?
    ensures k < |path| && Find(b, path[..k]).Some?
    ensures forall c :: c in Find(b, path[..k]).value.children ==> c.name != path[k]
    decreases |path|
  {
    assert |path| > 0;
    match FirstMatch(b.children, path[0])
    case None =>
      k := 0;
      assert path[..0] == [];
      assert forall c :: c in b.children ==> exists j :: 0 <= j < |b.children| && b.children[j] == c;
    case Some(i) =>
      var child := b.children[i];
      var k' := FindFailsAt(child, path[1..]);
      k := k' + 1;
      assert path[..k] == [path[0]] + path[1..][..k'];
      FindCompose(b, [path[0]], path[1..][..k']);
      assert Find(b, [path[0]]) == Find(child, []);
  }

  /**
   * No backtracking: two siblings share the name "a" and only the second
   * holds "b"; a lookup of ["a", "b"] fails although a labelled walk exists.
   */
  lemma NoBacktracking()
    ensures var root := Bookmark("root", "folder", "", [
                          Bookmark("a", "folder", "", []),
                          Bookmark("a", "folder", "", [Bookmark("b", "folder", "", [])])]);
            Labelled(root, [1, 0], ["a", "b"]) && Find(root, ["a", "b"]) == None
  {
    var root := Bookmark("root", "folder", "", [
                  Bookmark("a", "folder", "", []),
                  Bookmark("a", "folder", "", [Bookmark("b", "folder", "", [])])]);
    assert FirstMatch(root.children, "a") == Some(0);
    assert Labelled(root.children[1].children[0], [], []);
  }
}
