# pyls, modelled in Dafny

`pyls` is a small `ls` look-alike. It reads a directory tree stored as JSON
(`structure.json`: each entry has `name`, `permissions`, `size`,
`time_modified` and, for directories, `contents`). It walks to the requested
path and prints that directory's entries. The flags are `-A` (show names
starting with `.`), `-l` (long format, recursing into subdirectories),
`--human` (sizes in K/M/G), `--filter file|dir` (keep one kind and sort),
and a sort direction.

This project models the pure core of `pyls/__main__.py` over an immutable
`Entry` tree:

- `HumanSize`: `human_readable_size`. Integer arithmetic reproduces what
  `:.1f` prints for the exact binary quotient: the nearest tenth, with ties
  going to the even neighbour.
- `FilterSort`: `filter_sort_files`. It keeps files (`-`) or directories
  (`d`) and then does a stable sort by size or by modification time,
  ascending or descending. The three exceptions it can raise are modelled as
  `ListError` values.
- `Listing`: `list_files`. It skips hidden names, prints short or long lines,
  and in long format recurses pre-order into non-empty `contents`. Printing
  is modelled as a sequence of output lines.
- `PathResolution`: the lookup in `main`. It does `str.split('/')`, skips
  empty pieces and takes the first child with each name. A missing name
  produces a single error line that quotes the path exactly as typed.
- `ListingProperties`, `ResolutionProperties`, `Scenarios`: lemmas about the
  above, and concrete trees run through the whole model.
- `Wrappers`, `Seqs`, `Decimal` are support modules: `Option`/`Result`, an
  order-preserving filter, and `str(int)` with its parser.

Things `format_time` and the caller supply are parameters. The time column
is a function `formatTime: int -> string`, and the flags are a `Config`
record.

### Behaviour the model follows from the code

- `list_files` prints each line as it goes, and an exception raised inside a
  subtree ends the whole run. The lines printed before it stay on the output.
  `Walk`/`Output` therefore carry the lines printed so far together with the
  error. In the script as written, when `--filter` is given and the path
  resolves, the run fails at line 45 before anything is printed, because it
  reads `args.reverse` and `args.sort`, which the parser never defines (see
  "Left out"). A path that does not resolve prints its error line and returns
  at lines 91-92 before that lookup is reached. The model passes those two
  values explicitly. With that done, the one exception that can happen after
  some lines were printed is the `IndexError` from an empty permission string,
  raised while a subdirectory is filtered in long format.
- A negative size is not clamped: it fails every threshold test and is
  printed by `str(size)` with its minus sign.
- `filter_sort_files` raises `ValueError` itself for a filter other than
  `file` or `dir`. That path is modelled as `InvalidFilter`.
- Sizes just below 1 MiB or 1 GiB round to `1024.0K` or `1024.0M` and do not
  move up to the next unit (see `HumanReadableSizeRange` and
  `JustBelowMiBExample`).
- The filter reads `permissions[0]` of every child, hidden or not, before
  hidden names are skipped. A hidden child with an empty permission string
  therefore makes a filtered listing fail (`FilterReadsHiddenPermissions`).

## Model

| member | source | states |
|---|---|---|
| Decimal.NatToDecimal | pyls/__main__.py:21 | `str(n)` is a canonical digit string (no leading zero) whose value is `n` |
| Decimal.IntToDecimal | pyls/__main__.py:21 | `str(i)` ends in a digit and parses back to `i`, sign included |
| Decimal.FormatParse | pyls/__main__.py:21 | every canonical digit string is `str` of its value, so spellings and numbers correspond one to one |
| HumanSize.RoundHalfEven | pyls/__main__.py:15-19 | the result is the nearest integer to `num/den`, and a tie goes to the even neighbour |
| HumanSize.NearestEvenUnique | pyls/__main__.py:15-19 | only one integer is the nearest-even rounding, so the rounding used is the one `:.1f` performs |
| HumanSize.TenthsRoundTrip | pyls/__main__.py:15-19 | the `x.y` text reads back as the same number of tenths |
| HumanSize.HumanReadableSize | pyls/__main__.py:13-21 | the last character is `G` iff size ≥ 2^30, `M` iff 2^20 ≤ size < 2^30, `K` iff 2^10 ≤ size < 2^20, and a digit iff size < 1024 |
| HumanSize.HumanReadableSizeValue | pyls/__main__.py:13-21 | below 1024 the text parses back to the size; from 1024 up, the number before the unit letter is `size/unit` rounded to tenths, nearest-even |
| HumanSize.HumanReadableSizeRange | pyls/__main__.py:14-19 | a scaled figure is at least 1.0, and for K and M at most 1024.0 |
| HumanSize.PlainExamples | pyls/__main__.py:18-21 | 0→"0" and 1023→"1023": below 1 KiB the size prints as a plain integer |
| HumanSize.KiBExamples | pyls/__main__.py:18-19 | 1024→"1.0K", 1280→"1.2K" (the tie 1.25 goes to even), 1500→"1.5K", 2048→"2.0K" |
| HumanSize.JustBelowMiBExample | pyls/__main__.py:16-19 | 1048575→"1024.0K": one byte short of 1 MiB stays in K and rounds up to 1024.0 |
| HumanSize.MiBGiBExamples | pyls/__main__.py:14-17 | 2^20→"1.0M" and 2^30→"1.0G": the thresholds are inclusive |
| FilterSort.KeepKindSelects | pyls/__main__.py:30-33 | the kind filter keeps the entries of the requested kind in their original order, with every copy of each, and drops every other entry |
| FilterSort.Insert | pyls/__main__.py:38 | insertion adds exactly one copy of the element and loses nothing |
| FilterSort.InsertOrdered | pyls/__main__.py:38 | inserting into a key-ordered sequence keeps it ordered in the chosen direction |
| FilterSort.InsertWithKey | pyls/__main__.py:38 | the inserted entry comes before the entries that already have its key, and the order of every other key is unchanged |
| FilterSort.PassOver | pyls/__main__.py:38 | an entry moved past a neighbour with a strictly different key leaves the order within every key as it was |
| FilterSort.FilterInsert | pyls/__main__.py:30-37 | inserting an entry into an ordered sequence and then dropping entries gives the same result as dropping first and then inserting the entry if it is kept |
| FilterSort.FilterSortEntries | pyls/__main__.py:30-37 | sorting commutes with any selection: selecting from the sorted list gives the sorted selection |
| FilterSort.InsertionSortPermutes | pyls/__main__.py:38 | the sort loses and adds nothing: its output is a permutation of its input |
| FilterSort.InsertionSortOrdered | pyls/__main__.py:38 | the sort's output is ordered by the key, in the requested direction |
| FilterSort.InsertionSortStable | pyls/__main__.py:38 | entries with equal keys leave the sort in the order they entered it |
| FilterSort.SortEntries | pyls/__main__.py:37-38 | the result is a permutation of the input. Keys are non-decreasing, or non-increasing when reversed. Entries with equal keys keep their input order in both directions |
| FilterSort.FilterSortFiles | pyls/__main__.py:29-39 | an unknown filter fails with ValueError. Otherwise an empty permission string fails with IndexError. Otherwise an unknown sort name fails with KeyError. Success holds exactly when none of these happens. Then the result holds exactly the entries of the requested kind, as a permutation, sorted by the key, stable |
| FilterSort.FilterSortFilesValid | pyls/__main__.py:29-39 | with a valid filter and sort name, and permissions on every entry, the result is the kept entries of that kind, sorted |
| Listing.Items | pyls/__main__.py:43-45 | with no filter a level iterates over all children in document order. When a filter succeeds, it iterates over exactly the children of that kind |
| Listing.WalkLevel | pyls/__main__.py:42-59 | every entry a listing prints is visible: without -A no printed name starts with '.' |
| Listing.WalkItems | pyls/__main__.py:47-59 | the same visibility guarantee for the loop over one level's items |
| Listing.SizeText | pyls/__main__.py:52 | the size column is non-empty. Under --human it is the scaled text, and otherwise it is `str(size)`, which parses back to the size |
| Listing.LineOf | pyls/__main__.py:51-56 | short format prints the bare name. A long line has the permissions, the size column, the formatted time and the name, separated by single spaces (`HasColumns`) |
| Listing.Lines | pyls/__main__.py:51-56 | one output line per printed entry, in order, the i-th being that entry's line |
| Listing.ListFiles | pyls/__main__.py:42-59 | one line per listed entry. Short format prints the bare name. A long line starts with the permissions and a space, ends with a space and the name, and holds the size column, a space and the formatted time in between |
| Listing.LongLineShape | pyls/__main__.py:52-54 | the f-string of line 54 reads back column by column: it begins with the permissions and a space and ends with a space and the name. Between them are exactly the size column (`str(size)`, or the scaled form under --human), a space and the formatted time |
| ListingProperties.ShownReached | pyls/__main__.py:47-59 | every printed entry is reached through visible entries of the filtered kind only, so nothing below a hidden name is printed |
| ListingProperties.ShownReachedItems | pyls/__main__.py:47-59 | the same, for the loop over one level |
| ListingProperties.ReachedShown | pyls/__main__.py:47-59 | a listing that ran to completion prints every entry reached through visible entries of the filtered kind |
| ListingProperties.ItemListed | pyls/__main__.py:47-59 | a visible item of a completed loop is printed, and so is its whole subtree listing in long format |
| ListingProperties.ShortForm | pyls/__main__.py:51-59 | once the level's entries are obtained (the filter raised nothing), short format prints exactly the visible entries in the level's order, never descends and raises nothing further |
| ListingProperties.ShortFormItems | pyls/__main__.py:47-56 | the same, for the loop over one level |
| ListingProperties.NoFilterNoError | pyls/__main__.py:43-45 | without --filter the listing always runs to completion |
| ListingProperties.NoFilterNoErrorItems | pyls/__main__.py:47-59 | the same, for the loop over one level |
| ListingProperties.PruneItems | pyls/__main__.py:47-49 | dropping the hidden items from a loop without -A changes nothing it prints |
| ListingProperties.HiddenSubtreesPruned | pyls/__main__.py:43-49 | without -A, removing a node's hidden children and their subtrees leaves its listing unchanged. Under --filter this needs only the hidden children to have a non-empty permission string, because the filter reads it before hidden names are skipped. A visible child without one stays after pruning, so both listings fail alike |
| ListingProperties.UnhiddenSorted | pyls/__main__.py:30-37 | dropping hidden entries commutes with the kind filter and the stable sort |
| ListingProperties.ThenAssociative | pyls/__main__.py:47-59 | running three parts of a listing one after another does not depend on how they are grouped; an exception stops everything after it |
| ListingProperties.WalkItemsAppend | pyls/__main__.py:47-59 | the loop over `a + b` is the loop over `a` followed by the loop over `b`: the later items' lines follow the earlier ones', and an exception in the earlier part stops the rest |
| ListingProperties.LongFormSubtreeFollows | pyls/__main__.py:51-59 | in long format a visible entry's line is followed immediately by its subtree's lines when its contents are non-empty (pre-order) |
| ListingProperties.LongFormLeavesOnly | pyls/__main__.py:58-59 | long format recurses only into non-empty contents. Over a level of leaves it prints the same entries as short format |
| ListingProperties.NoContentsItems | pyls/__main__.py:58-59 | over items none of which has contents, the long-format loop prints the same entries, and ends the same way, as the short-format loop |
| Seqs.FilterSubsequence | pyls/__main__.py:30-32 | a list comprehension with a condition keeps the kept elements in their original order |
| Seqs.FilterMultiset | pyls/__main__.py:30-32 | a list comprehension with a condition keeps every copy of a kept element and no copy of any other |
| Seqs.FilterCommute | pyls/__main__.py:30-48 | two selections give the same result in either order |
| PathResolution.Split | pyls/__main__.py:83 | `str.split('/')` gives at least one piece, no piece contains '/', and joining the pieces with '/' gives the path back |
| PathResolution.SplitPrefix | pyls/__main__.py:83 | text without a separator in front of a string becomes part of the string's first piece |
| PathResolution.SplitJoin | pyls/__main__.py:83 | splitting undoes joining separator-free pieces, so split and join are inverse |
| PathResolution.FindChild | pyls/__main__.py:87 | the result is None iff no child has the name. Otherwise it is the first child with exactly that name |
| PathResolution.ResolveSegments | pyls/__main__.py:85-92 | the loop over the path's pieces can fail only at a non-empty piece. When the last piece is non-empty, the node reached carries it as its name. The lemmas in `ResolutionProperties` state the rest: empty pieces are skipped, lookups compose, and the walk only descends |
| PathResolution.Resolve | pyls/__main__.py:82-94 | a failed lookup carries the requested path unchanged |
| PathResolution.Run | pyls/__main__.py:82-96 | a path that names nothing prints exactly the error line and lists nothing. Otherwise the named node is listed |
| ResolutionProperties.EmptyPathShortcut | pyls/__main__.py:82-94 | the empty-path shortcut agrees with splitting, because "" splits into one empty piece |
| ResolutionProperties.EmptySegmentsIgnored | pyls/__main__.py:85-86 | empty pieces from leading, trailing or doubled slashes do not affect the lookup |
| ResolutionProperties.ResolveSegmentsAppend | pyls/__main__.py:85-92 | looking up `a + b` is looking up `b` from where `a` led |
| ResolutionProperties.SlashesSplitEmpty | pyls/__main__.py:83 | splitting a string of slashes yields only empty pieces |
| ResolutionProperties.EmptySegmentsStay | pyls/__main__.py:85-86 | a list made only of empty pieces leaves the lookup where it started |
| ResolutionProperties.SlashesOnlyResolveToRoot | pyls/__main__.py:82-94 | an empty path or one made only of slashes names the root |
| ResolutionProperties.JoinAppend | pyls/__main__.py:83 | joining one more piece appends a separator and that piece |
| ResolutionProperties.ExtraSlashesIgnored | pyls/__main__.py:82-94 | a leading or trailing slash does not change whether or to what a path resolves |
| ResolutionProperties.SegmentsDescend | pyls/__main__.py:85-89 | following pieces only ever moves down the tree |
| ResolutionProperties.ResolvedDescends | pyls/__main__.py:82-94 | a path names the root or an entry below it |
| ResolutionProperties.SegmentsName | pyls/__main__.py:87-89 | the node reached by non-empty pieces is named by the last piece |
| ResolutionProperties.ResolvedName | pyls/__main__.py:82-94 | the named node carries the path's last non-empty piece as its name |
| ResolutionProperties.NotFoundPrintsOneLine | pyls/__main__.py:90-92 | a missing path prints exactly `error: cannot access '<path>': No such file or directory`, with no error raised |
| Scenarios.LongHumanOneFile | pyls/__main__.py:51-54 | `-l --human` on a root holding a 2048-byte `f.txt` prints the one line `-rw- 2.0K <time> f.txt` |
| Scenarios.LookupAB | pyls/__main__.py:82-92 | in root→a→b, "a/b" names b. "a/c" fails carrying "a/c", not "c", and prints only the error line for "a/c" |
| Scenarios.HiddenDirectory | pyls/__main__.py:47-59 | without -A, `.git` and its file are absent from a long listing. With -A they are printed pre-order |
| Scenarios.KeepFilesTail | pyls/__main__.py:31 | the file filter drops a directory and keeps the files in order |
| Scenarios.KeepFiles | pyls/__main__.py:31 | the file filter keeps exactly the three files of a mixed level, in document order |
| Scenarios.SortBySizeUp | pyls/__main__.py:38 | sizes 2,3,1 sort ascending to 1,2,3 |
| Scenarios.SortBySizeDown | pyls/__main__.py:38 | sizes 2,3,1 sort descending to 3,2,1 |
| Scenarios.SortByTimeUp | pyls/__main__.py:37-38 | sorting by time orders by modification time, not by size |
| Scenarios.FilterFilesBySizeUp | pyls/__main__.py:29-39 | `--filter file` keeps the three files of a mixed level and sorts them by size, ascending |
| Scenarios.FilterFilesBySizeDown | pyls/__main__.py:29-39 | with reverse, the same files come largest first |
| Scenarios.FilterFilesByTime | pyls/__main__.py:29-39 | sorting by "time" uses `time_modified` |
| Scenarios.FilterReadsHiddenPermissions | pyls/__main__.py:30-48 | under `--filter file`, a hidden child with an empty permission string makes the level fail with IndexError before anything is printed. Without that child, the level lists the file |
| Scenarios.FilterNoMatch | pyls/__main__.py:29-39 | a filter that matches nothing prints nothing and is not an error |

## Left out

- Loading `structure.json` (`read_json`, pyls/__main__.py:8-10, 79). This is file I/O, so the model starts from an `Entry` tree that has already been built. The unused `strupath` string (76-77) is dead code.
- `format_time` (24-26). It depends on the local time zone and `strftime`. It is the parameter `formatTime`, which always returns a string. The real `datetime.fromtimestamp` can raise on an out-of-range timestamp, which would stop a long listing partway (line 53). That exception path is not modelled.
- Argument parsing (63-73), including `--helpp`. The flags arrive as a `Config` record. `-t` is declared but never read by the listing code.
- The attribute lookups `args.reverse` and `args.sort` at line 45. The parser defines only `r` and `t`, so the real script raises `AttributeError` whenever `--filter` is given and the path resolves. A path that does not resolve returns at line 92 first. The model passes the sort direction and sort name explicitly as `Config.reverse` and `Config.sortBy`. This divergence is deliberate.
- The `path` argument of `list_files` (`os.path.join`, line 59). It never reaches the output.
- `print`. Output is the returned sequence of lines.
- HumanSize.HumanReadableSize: it rounds the exact quotient `size/unit`. Python first divides in double precision. The two are guaranteed to agree for every size below 2^53 bytes. Above that, Python's rounded quotient can print differently, although it often agrees (2^60 prints `1073741824.0G` either way). Such sizes are not modelled as Python prints them.
- Malformed JSON content: missing keys (`KeyError`), non-integer sizes or times, and recursion deeper than Python's recursion limit. Every `Entry` has all fields, with integer size and time.
