/**
 * The bookmark tree as the program holds it after decoding the bookmarks
 * file: every node, folder or bookmark alike, has a name, a free-form type
 * string, a URL and an ordered list of children.
 */
module Tree {
  /** A node of the tree (dumpbookmarks.go, type Bookmark). */
  datatype Bookmark = Bookmark(name: string, typ: string, url: string, children: seq<Bookmark>)

  /** The type string that marks a bookmark whose URL is printed. */
  const UrlType: string := "url"

  /** The zero value of a Bookmark: empty strings and no children. */
  const Empty: Bookmark := Bookmark("", "", "", [])
}
