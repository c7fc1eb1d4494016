/** What a listing contains, in what order, and when it stops early. */
module ListingProperties {
  import opened Wrappers
  import opened Seqs
  import opened Entries
  import opened FilterSort
  import opened Listing

  /**
   * `e` is listed under `node`: it is a visible child of the requested kind,
   * or, in long format, lies below such a child that has contents.
   */
  ghost predicate Reaches(node: Entry, e: Entry, cfg: Config)
    decreases node
  {
    exists c :: c in node.contents && Visible(c, cfg) && KindOk(c, cfg) &&
      (e == c || (cfg.long && |c.contents| > 0 && Reaches(c, e, cfg)))
  }

  /** Every printed entry is reached through visible entries only: nothing under a hidden name is printed. */
  lemma {:induction false} ShownReached(node: Entry, cfg: Config, e: Entry)
    requires e in WalkLevel(node, cfg).shown
    ensures Reaches(node, e, cfg)
    decreases node, 1
  {
    if Items(node, cfg).Success? {
      ShownReachedItems(node, Items(node, cfg).value, cfg, e);
    }
  }

  lemma {:induction false} ShownReachedItems(node: Entry, items: seq<Entry>, cfg: Config, e: Entry)
    requires forall c :: c in items ==> c in node.contents && KindOk(c, cfg)
    requires e in WalkItems(node, items, cfg).shown
    ensures Reaches(node, e, cfg)
    decreases node, 0, |items|
  {
    var c := items[0];
    assert c in node.contents && KindOk(c, cfg);
    if Visible(c, cfg) && e == c {
    } else if Visible(c, cfg) && cfg.long && |c.contents| > 0 && e in WalkLevel(c, cfg).shown {
      ShownReached(c, cfg, e);
    } else {
      ShownReachedItems(node, items[1..], cfg, e);
    }
  }

  /** A listing that ran to completion prints every entry it reaches. */
  lemma {:induction false} ReachedShown(node: Entry, cfg: Config, e: Entry)
    requires WalkLevel(node, cfg).error == None
    requires Reaches(node, e, cfg)
    ensures e in WalkLevel(node, cfg).shown
    decreases node
  {
    var c :| c in node.contents && Visible(c, cfg) && KindOk(c, cfg) &&
      (e == c || (cfg.long && |c.contents| > 0 && Reaches(c, e, cfg)));
    var items := Items(node, cfg).value;
    ItemListed(node, items, cfg, c);
    if e != c {
      ReachedShown(c, cfg, e);
    }
  }

  lemma {:induction false} ItemListed(parent: Entry, items: seq<Entry>, cfg: Config, c: Entry)
    requires forall x :: x in items ==> x in parent.contents
    requires WalkItems(parent, items, cfg).error == None
    requires c in items && Visible(c, cfg)
    ensures c in WalkItems(parent, items, cfg).shown
    ensures cfg.long && |c.contents| > 0 ==>
      && WalkLevel(c, cfg).error == None
      && forall x :: x in WalkLevel(c, cfg).shown ==> x in WalkItems(parent, items, cfg).shown
    decreases |items|
  {
    if items[0] != c {
      ItemListed(parent, items[1..], cfg, c);
    }
  }

  /** The visible entries of `s`, in order. */
  function VisibleOnly(s: seq<Entry>, cfg: Config): seq<Entry> {
    Filter((e: Entry) => Visible(e, cfg), s)
  }

  lemma {:induction false} ShortFormItems(parent: Entry, items: seq<Entry>, cfg: Config)
    requires !cfg.long
    requires forall x :: x in items ==> x in parent.contents
    ensures WalkItems(parent, items, cfg) == Walk(VisibleOnly(items, cfg), None)
    decreases |items|
  {
    if items != [] {
      ShortFormItems(parent, items[1..], cfg);
    }
  }

  /**
   * Short format prints exactly the visible entries of the level, in the
   * level's (filtered and sorted) order, and never descends.
   */
  lemma ShortForm(node: Entry, cfg: Config)
    requires !cfg.long && Items(node, cfg).Success?
    ensures WalkLevel(node, cfg) == Walk(VisibleOnly(Items(node, cfg).value, cfg), None)
    ensures cfg.filter == "" ==> WalkLevel(node, cfg) == Walk(VisibleOnly(node.contents, cfg), None)
  {
    ShortFormItems(node, Items(node, cfg).value, cfg);
  }

  /** Only the filter can raise: without one a listing always runs to completion. */
  lemma {:induction false} NoFilterNoError(node: Entry, cfg: Config)
    requires cfg.filter == ""
    ensures WalkLevel(node, cfg).error == None
    decreases node, 1
  {
    NoFilterNoErrorItems(node, node.contents, cfg);
  }

  lemma {:induction false} NoFilterNoErrorItems(parent: Entry, items: seq<Entry>, cfg: Config)
    requires cfg.filter == ""
    requires forall x :: x in items ==> x in parent.contents
    ensures WalkItems(parent, items, cfg).error == None
    decreases parent, 0, |items|
  {
    if items != [] {
      var c := items[0];
      assert c in parent.contents;
      if Visible(c, cfg) && cfg.long && |c.contents| > 0 {
        NoFilterNoError(c, cfg);
      }
      NoFilterNoErrorItems(parent, items[1..], cfg);
    }
  }

  /** The entries of `s` whose names do not start with '.'. */
  function Unhidden(s: seq<Entry>): seq<Entry> {
    Filter((e: Entry) => !IsHidden(e), s)
  }

  lemma {:induction false} PruneItems(p1: Entry, items: seq<Entry>, p2: Entry, cfg: Config)
    requires !cfg.all
    requires forall x :: x in items ==> x in p1.contents
    requires forall x :: x in Unhidden(items) ==> x in p2.contents
    ensures WalkItems(p1, items, cfg) == WalkItems(p2, Unhidden(items), cfg)
    decreases |items|
  {
    if items != [] {
      var c, u := items[0], Unhidden(items[1..]);
      assert Unhidden(items) == (if !IsHidden(c) then [c] else []) + u;
      PruneItems(p1, items[1..], p2, cfg);
      if !IsHidden(c) {
        var ui := Unhidden(items);
        assert ui[0] == c;
        assert ui[1..] == u;
        assert WalkItems(p2, u, cfg) == WalkItems(p1, items[1..], cfg);
      } else {
        assert Unhidden(items) == u;
      }
    }
  }

  /**
   * Without -A, hidden children contribute nothing, not even their subtrees:
   * listing the node with its hidden children removed prints the same. Under
   * --filter this needs the hidden children to have permissions, because the
   * filter reads them before hidden names are skipped.
   */
  lemma HiddenSubtreesPruned(node: Entry, cfg: Config)
    requires !cfg.all
    requires cfg.filter != "" ==> forall e :: e in node.contents && IsHidden(e) ==> e.permissions != []
    ensures WalkLevel(node, cfg) == WalkLevel(node.(contents := Unhidden(node.contents)), cfg)
  {
    var pruned := node.(contents := Unhidden(node.contents));
    if cfg.filter == "" {
      PruneItems(node, node.contents, pruned, cfg);
    } else if FilterChar(cfg.filter).None? {
      assert Items(node, cfg) == Items(pruned, cfg);
    } else if exists e :: e in node.contents && e.permissions == [] {
      var e :| e in node.contents && e.permissions == [];
      PrunedStillFails(node, cfg, e);
    } else if ParseSortKey(cfg.sortBy).Some? {
      PrunedSorted(node, cfg);
    }
  }

  /** A visible child without permissions survives pruning, so both listings fail alike. */
  lemma PrunedStillFails(node: Entry, cfg: Config, e: Entry)
    requires cfg.filter != "" && FilterChar(cfg.filter).Some?
    requires e in node.contents && e.permissions == [] && !IsHidden(e)
    ensures Items(node, cfg) == Failure(MissingPermissions)
    ensures Items(node.(contents := Unhidden(node.contents)), cfg) == Failure(MissingPermissions)
  {
    assert e in Unhidden(node.contents);
  }

  /** With valid names and permissions everywhere, pruning commutes with the filter and sort. */
  lemma PrunedSorted(node: Entry, cfg: Config)
    requires !cfg.all && cfg.filter != ""
    requires FilterChar(cfg.filter).Some? && ParseSortKey(cfg.sortBy).Some?
    requires forall e :: e in node.contents ==> e.permissions != []
    ensures WalkLevel(node, cfg) == WalkLevel(node.(contents := Unhidden(node.contents)), cfg)
  {
    var pruned := node.(contents := Unhidden(node.contents));
    var c, k := FilterChar(cfg.filter).value, ParseSortKey(cfg.sortBy).value;
    var items := SortEntries(KeepKind(node.contents, c), k, cfg.reverse);
    FilterSortFilesValid(node.contents, cfg.filter, cfg.reverse, cfg.sortBy, c, k);
    FilterSortFilesValid(pruned.contents, cfg.filter, cfg.reverse, cfg.sortBy, c, k);
    assert Items(node, cfg) == Success(items);
    UnhiddenSorted(node.contents, c, k, cfg.reverse);
    assert Items(pruned, cfg) == Success(Unhidden(items));
    PruneItems(node, items, pruned, cfg);
  }

  /** Dropping hidden entries commutes with the kind filter and the sort. */
  lemma UnhiddenSorted(s: seq<Entry>, c: char, k: SortKey, reverse: bool)
    ensures Unhidden(SortEntries(KeepKind(s, c), k, reverse)) == SortEntries(KeepKind(Unhidden(s), c), k, reverse)
  {
    var shown := (e: Entry) => !IsHidden(e);
    var kind := (e: Entry) => KindIs(e, c);
    assert KeepKind(s, c) == Filter(kind, s);
    assert KeepKind(Unhidden(s), c) == Filter(kind, Filter(shown, s));
    FilterSortEntries(shown, KeepKind(s, c), k, reverse);
    FilterCommute(shown, kind, s);
  }

  /**
   * The loop over a level is sequential: the items after a prefix are printed
   * after everything the prefix printed, and an exception in the prefix stops
   * the rest.
   */
  lemma ThenAssociative(x: Walk, y: Walk, z: Walk)
    ensures Then(Then(x, y), z) == Then(x, Then(y, z))
  {
    if x.error.None? && y.error.None? {
      assert x.shown + y.shown + z.shown == x.shown + (y.shown + z.shown);
    }
  }

  lemma {:induction false} WalkItemsAppend(parent: Entry, a: seq<Entry>, b: seq<Entry>, cfg: Config)
    requires forall x :: x in a + b ==> x in parent.contents
    ensures WalkItems(parent, a + b, cfg) == Then(WalkItems(parent, a, cfg), WalkItems(parent, b, cfg))
    decreases |a|
  {
    var wb := WalkItems(parent, b, cfg);
    if a == [] {
      assert a + b == b;
      assert [] + wb.shown == wb.shown;
    } else {
      var c, ab := a[0], a + b;
      assert ab[0] == c;
      assert ab[1..] == a[1..] + b;
      assert forall x :: x in a ==> x in ab;
      WalkItemsAppend(parent, a[1..], b, cfg);
      var ra := WalkItems(parent, a[1..], cfg);
      var head := Walk([c], None);
      if Visible(c, cfg) && cfg.long && |c.contents| > 0 {
        var sub := WalkLevel(c, cfg);
        ThenAssociative(sub, ra, wb);
        ThenAssociative(head, Then(sub, ra), wb);
      } else if Visible(c, cfg) {
        ThenAssociative(head, ra, wb);
      }
    }
  }

  /**
   * Long format is pre-order: a visible entry's line is followed immediately
   * by its subtree's lines when its contents are non-empty, and by nothing
   * of its own otherwise.
   */
  lemma LongFormSubtreeFollows(parent: Entry, a: seq<Entry>, c: Entry, b: seq<Entry>, cfg: Config)
    requires forall x :: x in a + [c] + b ==> x in parent.contents
    requires cfg.long && Visible(c, cfg)
    requires WalkItems(parent, a, cfg).error == None
    ensures var w := WalkItems(parent, a + [c] + b, cfg);
      var n := |WalkItems(parent, a, cfg).shown|;
      var block := [c] + (if |c.contents| > 0 then WalkLevel(c, cfg).shown else []);
      n + |block| <= |w.shown| && w.shown[n..n + |block|] == block
  {
    var cb := [c] + b;
    assert a + [c] + b == a + cb;
    WalkItemsAppend(parent, a, cb, cfg);
    var wa, wcb := WalkItems(parent, a, cfg), WalkItems(parent, cb, cfg);
    assert WalkItems(parent, a + cb, cfg).shown == wa.shown + wcb.shown;
    BlockStarts(parent, c, b, cfg);
    SliceAfter(wa.shown, wcb.shown, [c] + (if |c.contents| > 0 then WalkLevel(c, cfg).shown else []));
  }

  /** A loop whose first item is visible starts with that item's line and, in long format, its subtree's lines. */
  lemma BlockStarts(parent: Entry, c: Entry, b: seq<Entry>, cfg: Config)
    requires forall x :: x in [c] + b ==> x in parent.contents
    requires cfg.long && Visible(c, cfg)
    ensures var block := [c] + (if |c.contents| > 0 then WalkLevel(c, cfg).shown else []);
      var w := WalkItems(parent, [c] + b, cfg);
      |block| <= |w.shown| && w.shown[..|block|] == block
  {
    var cb := [c] + b;
    assert cb[0] == c;
    assert cb[1..] == b;
    var rb := WalkItems(parent, b, cfg);
    if |c.contents| > 0 {
      var sub := WalkLevel(c, cfg);
      var rest := Then(sub, rb);
      assert WalkItems(parent, cb, cfg) == Then(Walk([c], None), rest);
      assert rest.shown[..|sub.shown|] == sub.shown;
      assert ([c] + rest.shown)[..1 + |sub.shown|] == [c] + sub.shown;
    } else {
      assert WalkItems(parent, cb, cfg) == Then(Walk([c], None), rb);
    }
  }

  /** A prefix of `y` sits in `x + y` right after `x`. */
  lemma SliceAfter<T>(x: seq<T>, y: seq<T>, z: seq<T>)
    requires |z| <= |y| && y[..|z|] == z
    ensures |x| + |z| <= |x + y| && (x + y)[|x|..|x| + |z|] == z
  {
    assert (x + y)[|x|..|x| + |z|] == y[..|z|];
  }

  lemma {:induction false} NoContentsItems(parent: Entry, items: seq<Entry>, cfg: Config)
    requires forall x :: x in items ==> x in parent.contents && |x.contents| == 0
    ensures WalkItems(parent, items, cfg) == WalkItems(parent, items, cfg.(long := false))
    decreases |items|
  {
    if items != [] {
      NoContentsItems(parent, items[1..], cfg);
    }
  }

  /** Long format descends only into entries with non-empty contents: over such leaves it lists what short format lists. */
  lemma LongFormLeavesOnly(node: Entry, cfg: Config)
    requires forall x :: x in node.contents ==> |x.contents| == 0
    ensures WalkLevel(node, cfg) == WalkLevel(node, cfg.(long := false))
  {
    var short := cfg.(long := false);
    assert Items(node, cfg) == Items(node, short);
    if Items(node, cfg).Success? {
      NoContentsItems(node, Items(node, cfg).value, cfg);
    }
  }
}
