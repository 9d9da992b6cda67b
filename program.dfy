/**
 * The decision main makes once the bookmarks file is decoded
 * (dumpbookmarks.go, main): start at the bookmark_bar root, follow the path
 * arguments when there are any, and either report that the requested
 * bookmarks were not found or dump from the node reached.
 */
module Program {
  import opened Wrappers
  import opened Tree
  import opened Locator
  import opened Dumper

  /** The root main starts from. */
  const BarKey: string := "bookmark_bar"

  /** The message bail writes to standard error when the path is not found. */
  const NotFoundMessage: string := "Requested bookmarks not found."

  /** The exit status bail passes to os.Exit. */
  const FailureCode: int := 1

  /** The bookmark_bar root; a missing key gives the zero Bookmark, as a Go map lookup does. */
  function BookmarkBar(roots: map<string, Bookmark>): (r: Bookmark)
    ensures BarKey in roots ==> r == roots[BarKey]
    ensures BarKey !in roots ==> r.children == []
  {
    if BarKey in roots then roots[BarKey] else Empty
  }

  /**
   * The node main dumps from. find is consulted only when there are path
   * arguments, yet the guard changes nothing: the result is always that of
   * find on the whole argument list.
   */
  function Start(roots: map<string, Bookmark>, args: seq<string>): (r: Option<Bookmark>)
    ensures r == Find(BookmarkBar(roots), args)
  {
    if |args| > 0 then Find(BookmarkBar(roots), args) else Some(BookmarkBar(roots))
  }

  /**
   * main after decoding: the lines written to standard output and to
   * standard error, and the exit status. A path that is not found prints no
   * URL, one message and exits with status 1; otherwise main dumps from the
   * node found and exits normally.
   */
  method Run(roots: map<string, Bookmark>, args: seq<string>, descend: bool)
    returns (stdout: seq<string>, stderr: seq<string>, code: int)
    ensures Find(BookmarkBar(roots), args).None? ==>
              code == FailureCode && stdout == [] && stderr == [NotFoundMessage]
    ensures Find(BookmarkBar(roots), args).Some? ==>
              code == 0 && stderr == [] && stdout == Dump(Find(BookmarkBar(roots), args).value, descend)
    ensures |args| == 0 ==> code == 0 && stdout == Dump(BookmarkBar(roots), descend)
  {
    var bookmark := Start(roots, args);
    stdout, stderr, code := [], [], 0;
    if bookmark.None? {
      stderr := stderr + [NotFoundMessage];
      code := FailureCode;
    } else {
      stdout := DumpTo(stdout, bookmark.value, descend);
    }
  }
}
