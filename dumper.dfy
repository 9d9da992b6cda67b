/**
 * The tree dumper: `dump` of dumpbookmarks.go walks a node's children in
 * stored order, prints the URL of every child whose type is exactly "url"
 * and, when descending, recurses into every other child on the spot. The
 * standard output stream is a sequence of lines to which the walk appends.
 */
module Dumper {
  import opened Tree

  // ---------------------------------------------------------------------
  // The lines printed, as functions
  // ---------------------------------------------------------------------

  /** The lines printed by dumping `b`; only b's children matter, whatever b's own type. */
  function Dump(b: Bookmark, descend: bool): (r: seq<string>)
    ensures !descend ==> |r| <= |b.children|
    decreases b
  {
    DumpChildren(b.children, descend)
  }

  /** The lines printed by one pass of the loop over `cs`. */
  function DumpChildren(cs: seq<Bookmark>, descend: bool): (r: seq<string>)
    ensures !descend ==> |r| <= |cs|
    decreases cs
  {
    if cs == [] then []
    else
      (if cs[0].typ == UrlType then [cs[0].url]
       else if descend then Dump(cs[0], descend)
       else [])
      + DumpChildren(cs[1..], descend)
  }

  // ---------------------------------------------------------------------
  // Reference definitions
  // ---------------------------------------------------------------------

  /** The URLs of the "url"-typed nodes of `ns`, in order. */
  function UrlsOf(ns: seq<Bookmark>): seq<string>
  {
    if ns == [] then []
    else (if ns[0].typ == UrlType then [ns[0].url] else []) + UrlsOf(ns[1..])
  }

  /**
   * The nodes a descending walk from `b` reaches, in depth-first pre-order:
   * each child, followed, unless it is "url"-typed, by what is reached below it.
   */
  function Below(b: Bookmark): seq<Bookmark>
    decreases b
  {
    BelowChildren(b.children)
  }

  function BelowChildren(cs: seq<Bookmark>): seq<Bookmark>
    decreases cs
  {
    if cs == [] then []
    else [cs[0]] + (if cs[0].typ == UrlType then [] else Below(cs[0])) + BelowChildren(cs[1..])
  }

  /** Every node strictly below `b`, in depth-first pre-order, whatever their types. */
  function Subtree(b: Bookmark): seq<Bookmark>
    decreases b
  {
    SubtreeChildren(b.children)
  }

  function SubtreeChildren(cs: seq<Bookmark>): seq<Bookmark>
    decreases cs
  {
    if cs == [] then [] else [cs[0]] + Subtree(cs[0]) + SubtreeChildren(cs[1..])
  }

  /** Every "url"-typed node strictly below `b` has no children (the usual shape of a bookmarks file). */
  ghost predicate UrlsAreLeaves(b: Bookmark)
  {
    forall n :: n in Subtree(b) && n.typ == UrlType ==> n.children == []
  }

  /** `a` is obtained from `s` by deleting elements, keeping the order of the rest. */
  ghost predicate IsSubsequence<T>(a: seq<T>, s: seq<T>)
    decreases |s|
  {
    if a == [] then true
    else if s == [] then false
    else if a[0] == s[0] then IsSubsequence(a[1..], s[1..])
    else IsSubsequence(a, s[1..])
  }

  // ---------------------------------------------------------------------
  // Helper facts
  // ---------------------------------------------------------------------

  lemma {:induction false} DumpChildrenAppend(xs: seq<Bookmark>, ys: seq<Bookmark>, descend: bool)
    ensures DumpChildren(xs + ys, descend) == DumpChildren(xs, descend) + DumpChildren(ys, descend)
    decreases |xs|
  {
    if xs == [] {
      assert xs + ys == ys;
    } else {
      assert (xs + ys)[0] == xs[0];
      assert (xs + ys)[1..] == xs[1..] + ys;
      DumpChildrenAppend(xs[1..], ys, descend);
    }
  }

  lemma {:induction false} UrlsOfAppend(xs: seq<Bookmark>, ys: seq<Bookmark>)
    ensures UrlsOf(xs + ys) == UrlsOf(xs) + UrlsOf(ys)
    decreases |xs|
  {
    if xs == [] {
      assert xs + ys == ys;
    } else {
      assert (xs + ys)[0] == xs[0];
      assert (xs + ys)[1..] == xs[1..] + ys;
      UrlsOfAppend(xs[1..], ys);
    }
  }

  /** UrlsOf has at most one line per node, and it is empty exactly when no node is "url"-typed. */
  lemma {:induction false} UrlsOfBounds(ns: seq<Bookmark>)
    ensures |UrlsOf(ns)| <= |ns|
    ensures UrlsOf(ns) == [] <==> forall n :: n in ns ==> n.typ != UrlType
    decreases |ns|
  {
    if ns != [] {
      UrlsOfBounds(ns[1..]);
      assert forall n :: n in ns ==> n == ns[0] || n in ns[1..];
    }
  }

  /** A line is in UrlsOf(ns) exactly when it is the URL of some "url"-typed node of ns. */
  lemma {:induction false} UrlsOfMembers(ns: seq<Bookmark>, u: string)
    ensures u in UrlsOf(ns) <==> exists n :: n in ns && n.typ == UrlType && n.url == u
    decreases |ns|
  {
    if ns != [] {
      UrlsOfMembers(ns[1..], u);
      assert forall n :: n in ns ==> n == ns[0] || n in ns[1..];
      assert ns[0] in ns;
      assert forall n :: n in ns[1..] ==> n in ns;
    }
  }

  lemma {:induction false} SubsequenceAppend<T>(a: seq<T>, s: seq<T>, b: seq<T>, t: seq<T>)
    requires IsSubsequence(a, s) && IsSubsequence(b, t)
    ensures IsSubsequence(a + b, s + t)
    decreases |s|
  {
    if a == [] {
      assert a + b == b;
      SubsequenceSuffix(b, s, t);
    } else {
      assert s != [];
      assert (s + t)[0] == s[0] && (s + t)[1..] == s[1..] + t;
      assert (a + b)[0] == a[0];
      if a[0] == s[0] {
        assert (a + b)[1..] == a[1..] + b;
        SubsequenceAppend(a[1..], s[1..], b, t);
      } else {
        SubsequenceAppend(a, s[1..], b, t);
      }
    }
  }

  /** A subsequence of t stays one when anything is put in front of t. */
  lemma {:induction false} SubsequenceSuffix<T>(b: seq<T>, s: seq<T>, t: seq<T>)
    requires IsSubsequence(b, t)
    ensures IsSubsequence(b, s + t)
    decreases |s|
  {
    if s == [] {
      assert s + t == t;
    } else if b != [] {
      assert (s + t)[1..] == s[1..] + t;
      SubsequenceSuffix(b, s[1..], t);
      assert (s + t)[0] == s[0];
      if b[0] == s[0] {
        SubsequenceDropHead(b, s[1..] + t);
      }
    }
  }

  /** Dropping the head of a subsequence keeps it a subsequence. */
  lemma {:induction false} SubsequenceDropHead<T>(b: seq<T>, s: seq<T>)
    requires b != [] && IsSubsequence(b, s)
    ensures IsSubsequence(b[1..], s)
    decreases |s|
  {
    assert s != [];
    if b[0] != s[0] {
      SubsequenceDropHead(b, s[1..]);
    }
    assert IsSubsequence(b[1..], s[1..]);
    if b[1..] != [] && b[1..][0] == s[0] {
      // b[1..] matches at the head of s, so its own tail must lie in s[1..]
      SubsequenceDropHead(b[1..], s[1..]);
    }
  }

  // ---------------------------------------------------------------------
  // Properties of dump
  // ---------------------------------------------------------------------

  /**
   * Dumping depends on b's children alone: b's own name, type and URL are
   * never printed or compared, so a located "url" node is dumped like a folder.
   */
  lemma DumpOnlyChildren(b: Bookmark, name: string, typ: string, url: string, descend: bool)
    ensures Dump(Bookmark(name, typ, url, b.children), descend) == Dump(b, descend)
  {
  }

  /**
   * Descending, a "url" child contributes its URL and nothing else: its own
   * children, whatever they are, are never visited.
   */
  lemma UrlChildNotEntered(name: string, typ: string, url: string, c: Bookmark, rest: seq<Bookmark>)
    requires c.typ == UrlType
    ensures Dump(Bookmark(name, typ, url, [c] + rest), true) == [c.url] + DumpChildren(rest, true)
  {
    assert ([c] + rest)[0] == c && ([c] + rest)[1..] == rest;
  }

  /** Without descending, dump prints exactly the URLs of the "url"-typed direct children, in child order. */
  lemma {:induction false} DumpShallow(b: Bookmark)
    ensures Dump(b, false) == UrlsOf(b.children)
  {
    DumpChildrenShallow(b.children);
  }

  lemma {:induction false} DumpChildrenShallow(cs: seq<Bookmark>)
    ensures DumpChildren(cs, false) == UrlsOf(cs)
    decreases |cs|
  {
    if cs != [] {
      DumpChildrenShallow(cs[1..]);
    }
  }

  /**
   * Without descending, dump prints at most one line per direct child, and a
   * line is printed exactly when it is the URL of a "url"-typed direct child.
   */
  lemma DumpShallowLines(b: Bookmark, u: string)
    ensures |Dump(b, false)| <= |b.children|
    ensures u in Dump(b, false) <==> exists c :: c in b.children && c.typ == UrlType && c.url == u
  {
    DumpShallow(b);
    UrlsOfBounds(b.children);
    UrlsOfMembers(b.children, u);
  }

  /**
   * Descending, dump prints the URL of every "url"-typed node the walk
   * reaches, once each, in depth-first pre-order.
   */
  lemma {:induction false} DumpDeep(b: Bookmark)
    ensures Dump(b, true) == UrlsOf(Below(b))
    decreases b, 1
  {
    DumpChildrenDeep(b.children);
  }

  lemma {:induction false} DumpChildrenDeep(cs: seq<Bookmark>)
    ensures DumpChildren(cs, true) == UrlsOf(BelowChildren(cs))
    decreases cs, 0
  {
    if cs != [] {
      var c := cs[0];
      var inner := if c.typ == UrlType then [] else Below(c);
      if c.typ != UrlType {
        DumpDeep(c);
      }
      DumpChildrenDeep(cs[1..]);
      UrlsOfAppend([c] + inner, BelowChildren(cs[1..]));
      UrlsOfAppend([c], inner);
      assert BelowChildren(cs) == [c] + inner + BelowChildren(cs[1..]);
    }
  }

  /** When "url" nodes have no children, the walk reaches the whole subtree. */
  lemma {:induction false} BelowIsSubtree(b: Bookmark)
    requires UrlsAreLeaves(b)
    ensures Below(b) == Subtree(b)
    decreases b, 1
  {
    BelowChildrenIsSubtree(b.children);
  }

  lemma {:induction false} BelowChildrenIsSubtree(cs: seq<Bookmark>)
    requires forall n :: n in SubtreeChildren(cs) && n.typ == UrlType ==> n.children == []
    ensures BelowChildren(cs) == SubtreeChildren(cs)
    decreases cs, 0
  {
    if cs != [] {
      var c := cs[0];
      assert SubtreeChildren(cs) == [c] + Subtree(c) + SubtreeChildren(cs[1..]);
      assert forall n :: n in Subtree(c) ==> n in SubtreeChildren(cs);
      assert forall n :: n in SubtreeChildren(cs[1..]) ==> n in SubtreeChildren(cs);
      assert c in SubtreeChildren(cs);
      BelowIsSubtree(c);
      BelowChildrenIsSubtree(cs[1..]);
      if c.typ == UrlType {
        assert Subtree(c) == [];
      }
    }
  }

  /** For a file whose "url" nodes are leaves, the descending dump prints every bookmark of the subtree, in pre-order. */
  lemma DumpDeepWholeSubtree(b: Bookmark)
    requires UrlsAreLeaves(b)
    ensures Dump(b, true) == UrlsOf(Subtree(b))
  {
    DumpDeep(b);
    BelowIsSubtree(b);
  }

  /** The nodes the walk reaches are all in the subtree. */
  lemma {:induction false} BelowInSubtree(b: Bookmark)
    ensures forall n :: n in Below(b) ==> n in Subtree(b)
    decreases b, 1
  {
    BelowChildrenInSubtree(b.children);
  }

  lemma {:induction false} BelowChildrenInSubtree(cs: seq<Bookmark>)
    ensures forall n :: n in BelowChildren(cs) ==> n in SubtreeChildren(cs)
    decreases cs, 0
  {
    if cs != [] {
      BelowInSubtree(cs[0]);
      BelowChildrenInSubtree(cs[1..]);
    }
  }

  /** The non-descending output is a subsequence of the descending output. */
  lemma DumpShallowSubsequence(b: Bookmark)
    ensures IsSubsequence(Dump(b, false), Dump(b, true))
  {
    DumpChildrenShallowSubsequence(b.children);
  }

  lemma {:induction false} DumpChildrenShallowSubsequence(cs: seq<Bookmark>)
    ensures IsSubsequence(DumpChildren(cs, false), DumpChildren(cs, true))
    decreases |cs|
  {
    if cs != [] {
      var c := cs[0];
      DumpChildrenShallowSubsequence(cs[1..]);
      if c.typ == UrlType {
        assert IsSubsequence([c.url], [c.url]) by {
          assert [c.url][1..] == [];
        }
      }
      SubsequenceAppend(
        if c.typ == UrlType then [c.url] else [], if c.typ == UrlType then [c.url] else Dump(c, true),
        DumpChildren(cs[1..], false), DumpChildren(cs[1..], true));
    }
  }

  /** The descending dump prints nothing exactly when the walk reaches no "url" node. */
  lemma DumpDeepEmptyIff(b: Bookmark)
    ensures Dump(b, true) == [] <==> forall n :: n in Below(b) ==> n.typ != UrlType
  {
    DumpDeep(b);
    UrlsOfBounds(Below(b));
  }

  /** With no "url" node anywhere below b, dumping prints nothing, descending or not. */
  lemma NoUrlsNoOutput(b: Bookmark, descend: bool)
    requires forall n :: n in Subtree(b) ==> n.typ != UrlType
    ensures Dump(b, descend) == []
  {
    BelowInSubtree(b);
    DumpDeepEmptyIff(b);
    DumpShallowSubsequence(b);
  }

  // ---------------------------------------------------------------------
  // dump itself
  // ---------------------------------------------------------------------

  /**
   * dumpbookmarks.go, dump: appends to `stdout` the lines dumping `b` prints,
   * one child at a time, recursing in place into non-"url" children when
   * descending.
   */
  method DumpTo(stdout: seq<string>, b: Bookmark, descend: bool) returns (out: seq<string>)
    ensures out == stdout + Dump(b, descend)
    decreases b
  {
    out := stdout;
    for i := 0 to |b.children|
      invariant out == stdout + DumpChildren(b.children[..i], descend)
    {
      var child := b.children[i];
      if child.typ == UrlType {
        out := out + [child.url];
      } else if descend {
        out := DumpTo(out, child, descend);
      }
      assert b.children[..i + 1] == b.children[..i] + [child];
      DumpChildrenAppend(b.children[..i], [child], descend);
    }
    assert b.children[..|b.children|] == b.children;
  }
}
