/**
 * Concrete trees and what the program does with them: the two-level
 * document with bookmarks "http://a" and "http://b", looked up and dumped
 * in each of the ways the command line allows.
 */
module Scenarios {
  import opened Wrappers
  import opened Tree
  import opened Locator
  import opened Dumper
  import opened Program

  const A: Bookmark := Bookmark("A", "url", "http://a", [])
  const B: Bookmark := Bookmark("B", "url", "http://b", [])
  const Sub: Bookmark := Bookmark("sub", "folder", "", [B])
  const Bar: Bookmark := Bookmark("bar", "folder", "", [A, Sub])
  const Roots: map<string, Bookmark> := map["bookmark_bar" := Bar]

  /** No path: descending prints both URLs in document order, otherwise only the top-level one. */
  lemma WholeBar()
    ensures Start(Roots, []) == Some(Bar)
    ensures Dump(Bar, true) == ["http://a", "http://b"]
    ensures Dump(Bar, false) == ["http://a"]
  {
    assert A.typ == UrlType && Sub.typ != UrlType;
    assert DumpChildren([Sub], true) == Dump(Sub, true) + DumpChildren([], true);
    assert DumpChildren([Sub], false) == [];
    assert DumpChildren([A, Sub], false) == [A.url] + DumpChildren([Sub], false);
    assert DumpChildren([A, Sub], true) == [A.url] + DumpChildren([Sub], true);
    SubDump();
  }

  lemma SubDump()
    ensures Dump(Sub, true) == ["http://b"]
  {
    assert B.typ == UrlType;
    assert DumpChildren([B], true) == [B.url] + DumpChildren([], true);
  }

  /** The path ["sub"] locates the folder, and dumping it prints its one bookmark. */
  lemma SubFolder()
    ensures Start(Roots, ["sub"]) == Some(Sub)
    ensures Dump(Sub, true) == ["http://b"]
  {
    assert FirstMatch(Bar.children, "sub") == Some(1);
    SubDump();
  }

  /** The path ["missing"] is not found, so nothing is dumped. */
  lemma MissingFolder()
    ensures Start(Roots, ["missing"]) == None
  {
  }

  /** Running with the path ["missing"]: no URL, the not-found message, exit status 1. */
  method MissingFolderRun() returns (stdout: seq<string>, stderr: seq<string>, code: int)
    ensures stdout == [] && stderr == [NotFoundMessage] && code == FailureCode
  {
    MissingFolder();
    stdout, stderr, code := Run(Roots, ["missing"], true);
  }

  /** A path naming a bookmark rather than a folder succeeds, and dumping from it prints nothing. */
  lemma PathToBookmark()
    ensures Start(Roots, ["A"]) == Some(A)
    ensures Dump(A, true) == [] && Dump(A, false) == []
  {
  }

  /** Without a bookmark_bar root main dumps from the zero Bookmark and prints nothing. */
  lemma NoBar()
    ensures Start(map[], []) == Some(Empty)
    ensures Dump(Empty, true) == []
  {
  }
}
