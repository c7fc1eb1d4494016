/**
 * `list_files`: the entries of one directory level, optionally filtered and
 * sorted, with hidden names skipped; in long format each entry with a
 * non-empty `contents` is followed by its own listing (depth-first, pre-order).
 */
module Listing {
  import opened Wrappers
  import opened Seqs
  import opened Decimal
  import opened HumanSize
  import opened Entries
  import opened FilterSort

  /**
   * The options that shape a listing: -A, -l, --human, --filter, the sort
   * direction and the sort name. `filter` is "" when no filter was given.
   */
  datatype Config = Config(
    all: bool,
    long: bool,
    human: bool,
    filter: string,
    reverse: bool,
    sortBy: string)

  /** The entries printed, in order, and the exception that ended the listing early, if any. */
  datatype Walk = Walk(shown: seq<Entry>, error: Option<ListError>)

  predicate Visible(e: Entry, cfg: Config) {
    cfg.all || !IsHidden(e)
  }

  /** `e` survives the kind filter of `cfg` (every entry does when there is none). */
  predicate KindOk(e: Entry, cfg: Config) {
    cfg.filter == "" || (FilterChar(cfg.filter).Some? && KindIs(e, FilterChar(cfg.filter).value))
  }

  /** The entries one level iterates over: all children, or the filtered and sorted ones. */
  function Items(node: Entry, cfg: Config): (r: Result<seq<Entry>, ListError>)
    ensures cfg.filter == "" ==> r == Success(node.contents)
    ensures r.Success? ==> forall e :: e in r.value <==> e in node.contents && KindOk(e, cfg)
  {
    if cfg.filter != "" then FilterSortFiles(node.contents, cfg.filter, cfg.reverse, cfg.sortBy)
    else Success(node.contents)
  }

  /** Runs `first`, then `second` unless `first` raised: what a sequence of prints does. */
  function Then(first: Walk, second: Walk): (w: Walk)
    ensures forall e :: e in w.shown ==> e in first.shown || e in second.shown
  {
    if first.error.Some? then first else Walk(first.shown + second.shown, second.error)
  }

  function WalkLevel(node: Entry, cfg: Config): (w: Walk)
    ensures forall e :: e in w.shown ==> Visible(e, cfg)
    decreases node, 1
  {
    match Items(node, cfg)
    case Failure(err) => Walk([], Some(err))
    case Success(items) => WalkItems(node, items, cfg)
  }

  /**
   * The loop over one level's items. An entry is printed before its subtree
   * is listed, so an exception raised inside the subtree leaves the entry and
   * whatever the subtree printed before it on the output.
   */
  function WalkItems(parent: Entry, items: seq<Entry>, cfg: Config): (w: Walk)
    requires forall e :: e in items ==> e in parent.contents
    ensures forall e :: e in w.shown ==> Visible(e, cfg)
    decreases parent, 0, |items|
  {
    if items == [] then Walk([], None)
    else
      var e := items[0];
      var rest := WalkItems(parent, items[1..], cfg);
      if !Visible(e, cfg) then rest
      else if cfg.long && |e.contents| > 0 then
        assert e in parent.contents;
        Then(Walk([e], None), Then(WalkLevel(e, cfg), rest))
      else Then(Walk([e], None), rest)
  }

  /** The size column: `str(size)` of the raw bytes, or the scaled form under --human. */
  function SizeText(size: int, human: bool): (s: string)
    ensures |s| >= 1
    ensures human ==> s == HumanReadableSize(size)
    ensures !human ==> ParseInt(s) == Some(size)
  {
    if human then HumanReadableSize(size) else IntToDecimal(size)
  }

  /** The printed line for one entry; the time column comes from `formatTime`. */
  function LineOf(e: Entry, cfg: Config, formatTime: int -> string): (r: string)
    ensures cfg.long ==> HasColumns(r, e, cfg, formatTime)
    ensures !cfg.long ==> r == e.name
  {
    if cfg.long then
      LongLineShape(e, cfg, formatTime);
      e.permissions + " " + SizeText(e.size, cfg.human) + " " + formatTime(e.timeModified) + " " + e.name
    else e.name
  }

  /** The printed lines and the exception that ended the run early, if any. */
  datatype Output = Output(lines: seq<string>, error: Option<ListError>)

  /** One printed line per entry, in order. */
  function Lines(shown: seq<Entry>, cfg: Config, formatTime: int -> string): (r: seq<string>)
    ensures |r| == |shown|
    ensures forall i :: 0 <= i < |r| ==> r[i] == LineOf(shown[i], cfg, formatTime)
  {
    if shown == [] then []
    else
      var rest := Lines(shown[1..], cfg, formatTime);
      var r := [LineOf(shown[0], cfg, formatTime)] + rest;
      assert forall i :: 1 <= i < |r| ==> r[i] == rest[i - 1];
      r
  }

  /** `line` starts with the entry's permissions and a space, and ends with a space and its name. */
  predicate IsLongLineOf(line: string, e: Entry) {
    && |line| > |e.permissions| + |e.name| + 1
    && line[..|e.permissions| + 1] == e.permissions + " "
    && line[|line| - |e.name| - 1..] == " " + e.name
  }

  /** What a long line holds between the permissions and the name. */
  function Middle(line: string, e: Entry): string
    requires IsLongLineOf(line, e)
  {
    line[|e.permissions| + 1 .. |line| - |e.name| - 1]
  }

  /** The middle of `e`'s long line: the size column, a space, and the time column. */
  predicate HasColumns(line: string, e: Entry, cfg: Config, formatTime: int -> string) {
    && IsLongLineOf(line, e)
    && Middle(line, e) == SizeText(e.size, cfg.human) + " " + formatTime(e.timeModified)
  }

  /**
   * What `list_files` prints for `node`, and the exception it raised, if any:
   * one line per listed entry; a bare name in short format, and in long
   * format the permissions, the size column, the time column and the name.
   */
  function ListFiles(node: Entry, cfg: Config, formatTime: int -> string): (out: Output)
    ensures out.error == WalkLevel(node, cfg).error
    ensures |out.lines| == |WalkLevel(node, cfg).shown|
    ensures !cfg.long ==> forall i :: 0 <= i < |out.lines| ==> out.lines[i] == WalkLevel(node, cfg).shown[i].name
    ensures cfg.long ==> forall i :: 0 <= i < |out.lines| ==> HasColumns(out.lines[i], WalkLevel(node, cfg).shown[i], cfg, formatTime)
  {
    var w := WalkLevel(node, cfg);
    Output(Lines(w.shown, cfg, formatTime), w.error)
  }

  /**
   * The permissions, the size column, the time column and the name joined by
   * single spaces, as line 54 prints them, can be read back column by column.
   */
  lemma LongLineShape(e: Entry, cfg: Config, formatTime: int -> string)
    ensures HasColumns(e.permissions + " " + SizeText(e.size, cfg.human) + " " + formatTime(e.timeModified) + " " + e.name,
                       e, cfg, formatTime)
  {
    var size := SizeText(e.size, cfg.human);
    var front := e.permissions + " ";
    var middle := size + " " + formatTime(e.timeModified);
    var back := " " + e.name;
    var line := e.permissions + " " + size + " " + formatTime(e.timeModified) + " " + e.name;
    assert line == front + middle + back;
    assert |size| >= 1;
    Columns(front, middle, back);
  }

  /** The three parts of a concatenation are its slices at the part boundaries. */
  lemma Columns(front: string, middle: string, back: string)
    ensures var line := front + middle + back;
      && line[..|front|] == front
      && line[|front|..|line| - |back|] == middle
      && line[|line| - |back|..] == back
  {
    var line := front + middle + back;
    assert line[..|front|] == front;
    assert line[|front|..|line| - |back|] == middle;
    assert line[|line| - |back|..] == back;
  }
}
