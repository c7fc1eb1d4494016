/** The directory tree the program lists: one record per file or directory. */
module Entries {

  /**
   * One node of the tree. `contents` is the list of children; a file, or a
   * directory whose `contents` key is missing, has an empty sequence here.
   */
  datatype Entry = Entry(
    name: string,
    permissions: string,
    size: int,
    timeModified: int,
    contents: seq<Entry>)

  /** The exceptions listing can raise. */
  datatype ListError =
    | InvalidFilter(filterType: string)   // ValueError("Invalid filter type")
    | MissingPermissions                  // IndexError on permissions[0] of an empty string
    | InvalidSortKey(sortBy: string)      // KeyError from the sort-key table

  /** The first permission character is `c`: '-' for a regular file, 'd' for a directory. */
  predicate KindIs(e: Entry, c: char) {
    |e.permissions| > 0 && e.permissions[0] == c
  }

  /** Names starting with '.' are hidden unless all entries are requested. */
  predicate IsHidden(e: Entry) {
    |e.name| > 0 && e.name[0] == '.'
  }
}
