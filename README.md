# dumpbookmarks, modelled in Dafny

`dumpbookmarks` prints the URLs stored in a Chrome bookmarks file, one per
line. It can start from a sub-folder named by a path of folder names, and it
can print only the top level of that folder when descending is turned off.
This project models the part that does the work: the bookmark tree, the
lookup `find`, the dumper `dump`, and the step in `main` that picks the
starting node and turns a failed lookup into an error exit.

- `tree.dfy` (module `Tree`): the `Bookmark` record with its name, its
  free-form type string, its URL and its ordered children.
- `locator.dfy` (module `Locator`): `find` as the recursive function `Find`.
  At each level it takes the first child whose name equals the next path
  element. It never tries a later sibling. It gives `None` where the Go code
  returns `nil`. Two independent descriptions of a walk of child indices
  (`Labelled` and `FirstChoice`) are used to state what a lookup finds.
- `dumper.dfy` (module `Dumper`): the lines `dump` prints, as the function
  `Dump`. `DumpTo` is `dump` itself as a method: a loop over the children
  that appends each URL to an output sequence standing for standard output,
  and recurses in place into the other children. Its contract ties it to
  `Dump`. Reference definitions (`UrlsOf`, `Below`, `Subtree`) state the
  order and completeness of the output.
- `program.dfy` (module `Program`): the selection in `main` after the file is
  decoded. `Run` gives the standard output lines, the standard error lines
  and the exit status.
- `scenarios.dfy` (module `Scenarios`): a two-level example tree and what
  the program prints for it.
- `wrappers.dfy` (module `Wrappers`): the `Option` type.

Three points of the code's behaviour shape the model:
- A node's type is a free-form string. The code compares it with `"url"`
  (dumpbookmarks.go:73), so any other string, including an unknown one, is
  treated like a folder. The model keeps the string.
- `dump` walks `Children` whatever the node's own type (dumpbookmarks.go:72).
  `Dump` does the same (`DumpOnlyChildren`). Dumping from a located `"url"`
  node prints nothing only because such nodes have no children in practice.
- The children of a `"url"` node are never visited, because the code prints
  the URL instead of recursing (dumpbookmarks.go:73-76). `UrlChildNotEntered`,
  `Below` and `DumpDeep` state this. `DumpDeepWholeSubtree` covers files
  where `"url"` nodes are leaves.

## Model

| member | source | states |
|---|---|---|
| `Locator.FirstMatch` | dumpbookmarks.go:61-66 | the index found is in range, names a child equal to the wanted name, and no earlier child has that name; None exactly when no child has it |
| `Locator.Find` | dumpbookmarks.go:57-67 | a successful lookup along a non-empty path ends at a node whose name is the last path element |
| `Locator.FindEmptyPath` | dumpbookmarks.go:58-60 | the empty path returns the starting node itself, unchanged |
| `Locator.FindNoMatch` | dumpbookmarks.go:61-66 | when no child's name equals the first path element exactly, the lookup returns None |
| `Locator.FindFirstMatchWins` | dumpbookmarks.go:61-65 | the lookup equals the lookup of the rest of the path from the first child carrying the first name |
| `Locator.FindWalk` | dumpbookmarks.go:57-67 | a successful lookup is reached by exactly one child step per path element, each step taking the earliest child of the wanted name |
| `Locator.FirstChoiceFind` | dumpbookmarks.go:57-67 | the end of any earliest-child walk labelled by the path is what the lookup returns, and the lookup succeeds |
| `Locator.FindNoneIff` | dumpbookmarks.go:57-67 | the lookup fails if and only if no earliest-child walk labelled by the path exists |
| `Locator.FindCompose` | dumpbookmarks.go:57-67 | looking up p then q fails when p fails, and otherwise equals looking up q from the node p reaches |
| `Locator.FindFailsAt` | dumpbookmarks.go:61-66 | a failed lookup stops at one level k: the first k names are found and the node reached has no child named by element k |
| `Locator.NoBacktracking` | dumpbookmarks.go:61-65 | with two siblings named "a" of which only the second holds "b", the path a/b exists as a labelled walk yet the lookup fails |
| `Dumper.Dump` | dumpbookmarks.go:71-79 | the lines dump prints, one per Println, in stored child order; without descending there are at most as many as direct children (its other properties are DumpShallow, DumpDeep, DumpShallowSubsequence) |
| `Dumper.DumpChildren` | dumpbookmarks.go:72-78 | the lines one pass of the loop over a list of children prints; without descending at most one per child |
| `Dumper.DumpOnlyChildren` | dumpbookmarks.go:71-72 | the output depends on the node's children alone; its own name, type and URL never matter |
| `Dumper.UrlChildNotEntered` | dumpbookmarks.go:73-76 | descending, a "url" child contributes its own URL and nothing from its children, whatever those children are |
| `Dumper.DumpShallow` | dumpbookmarks.go:72-75 | without descending, the output is exactly the URLs of the direct children typed "url", in child order |
| `Dumper.DumpShallowLines` | dumpbookmarks.go:72-75 | without descending, at most one line per direct child, and a line appears exactly when it is the URL of a "url" child |
| `Dumper.DumpDeep` | dumpbookmarks.go:72-77 | descending, the output is the URL of every "url" node the walk reaches, once each, in depth-first pre-order; a "url" node's children are never reached |
| `Dumper.BelowIsSubtree` | dumpbookmarks.go:72-77 | when "url" nodes are leaves, the walk reaches every node below the start |
| `Dumper.DumpDeepWholeSubtree` | dumpbookmarks.go:72-77 | when "url" nodes are leaves, descending prints the URL of every bookmark below the start, in pre-order |
| `Dumper.BelowInSubtree` | dumpbookmarks.go:72-77 | every node the walk reaches lies below the start |
| `Dumper.DumpShallowSubsequence` | dumpbookmarks.go:72-77 | the non-descending output is a subsequence of the descending output |
| `Dumper.DumpDeepEmptyIff` | dumpbookmarks.go:72-77 | descending prints nothing if and only if the walk reaches no "url" node |
| `Dumper.NoUrlsNoOutput` | dumpbookmarks.go:72-77 | with no "url" node below the start, the output is empty whether descending or not |
| `Dumper.DumpTo` | dumpbookmarks.go:71-79 | the loop appends to the output stream exactly the lines of `Dump`, after what was there before |
| `Program.BookmarkBar` | dumpbookmarks.go:116 | the bookmark_bar root when the key is present, otherwise a node with no children (Go's zero Bookmark) |
| `Program.Start` | dumpbookmarks.go:116-123 | the starting node is the lookup of the arguments from the bookmark_bar root; the no-argument guard changes nothing |
| `Program.Run` | dumpbookmarks.go:116-129 | a failed lookup prints no URL, writes the not-found message to standard error and exits with 1; otherwise it dumps from the node found and exits with 0; with no arguments it dumps the bookmark bar |
| `Scenarios.WholeBar` | dumpbookmarks.go:116-129 | for the example tree and no path, descending prints http://a then http://b, and not descending prints http://a |
| `Scenarios.SubFolder` | dumpbookmarks.go:120-123 | the path sub locates the folder, whose dump prints http://b |
| `Scenarios.MissingFolder` | dumpbookmarks.go:122-126 | the path missing is not found |
| `Scenarios.MissingFolderRun` | dumpbookmarks.go:120-126 | running with the path missing prints no URL, writes the not-found message to standard error and exits with 1 |
| `Scenarios.PathToBookmark` | dumpbookmarks.go:57-79 | a path naming a bookmark is found, and dumping from it prints nothing |
| `Scenarios.NoBar` | dumpbookmarks.go:116-117 | without a bookmark_bar root the start is the zero Bookmark, which prints nothing |

## Left out

- `parseFlags` (dumpbookmarks.go:82-99): reads flags and the home directory through library calls. The descend flag and the path arguments are parameters of `Run`.
- Reading the file and decoding its JSON (dumpbookmarks.go:104-114): file I/O and a library decoder whose code is not shown. The model starts from the already-built map of roots. The error exits of those steps are not modelled.
- `bail` and `os.Exit` (dumpbookmarks.go:47-53): `Run` returns the stderr line and the exit status instead of ending the process. Printing `err` is never needed on the modelled path, because `main` passes `nil` there.
- Writes through `fmt.Println`: the output is a sequence with one element per `Println` call, which the model appends to. A URL containing a newline prints as several physical lines; the model does not split it. Write errors and buffering are not modelled.
- The Go map behind `Roots`: only its lookup result is modelled. A missing key gives the zero Bookmark.
- Strings: names, types, URLs and path arguments are taken as already-decoded character sequences. Go compares byte strings; a path argument holding invalid UTF-8 has no counterpart in the model (in Go it matches no name, since the decoder replaces invalid bytes in names).
- Pointers: `find` returns a pointer to a copy of a child. The tree is never changed, so the model returns the node value.
- Recursion depth and stack limits of the Go runtime.
