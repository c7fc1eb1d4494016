/**
 * `filter_sort_files`: keep the files or the directories of one level, then
 * stable-sort them by size or by modification time, ascending or descending.
 */
module FilterSort {
  import opened Wrappers
  import opened Seqs
  import opened Entries

  datatype SortKey = BySize | ByTime

  function KeyOf(e: Entry, k: SortKey): int {
    match k
    case BySize => e.size
    case ByTime => e.timeModified
  }

  /** The filter names the program accepts and the permission character each keeps. */
  function FilterChar(filterType: string): Option<char> {
    if filterType == "file" then Some('-')
    else if filterType == "dir" then Some('d')
    else None
  }

  /** The sort names the program's key table knows. */
  function ParseSortKey(sortBy: string): Option<SortKey> {
    if sortBy == "size" then Some(BySize)
    else if sortBy == "time" then Some(ByTime)
    else None
  }

  /** The entries of kind `c`, in their original order. */
  function KeepKind(files: seq<Entry>, c: char): seq<Entry> {
    Filter((e: Entry) => KindIs(e, c), files)
  }

  /**
   * The kind filter keeps the entries of kind `c` in their original order,
   * with every copy of each, and nothing else.
   */
  lemma KeepKindSelects(files: seq<Entry>, c: char)
    ensures IsSubsequence(KeepKind(files, c), files)
    ensures forall e :: multiset(KeepKind(files, c))[e] == (if KindIs(e, c) then multiset(files)[e] else 0)
  {
    var kind := (e: Entry) => KindIs(e, c);
    assert KeepKind(files, c) == Filter(kind, files);
    FilterSubsequence(kind, files);
    FilterMultiset(kind, files);
  }

  /** The entries whose key is `v`, in their order in `s`. */
  function WithKey(s: seq<Entry>, k: SortKey, v: int): seq<Entry> {
    if s == [] then []
    else (if KeyOf(s[0], k) == v then [s[0]] else []) + WithKey(s[1..], k, v)
  }

  /** `a` may precede `b`: its key is no larger (no smaller when `reverse`). */
  predicate InOrder(a: Entry, b: Entry, k: SortKey, reverse: bool) {
    if reverse then KeyOf(a, k) >= KeyOf(b, k) else KeyOf(a, k) <= KeyOf(b, k)
  }

  /** Keys never decrease along `s` (never increase when `reverse`). */
  predicate Ordered(s: seq<Entry>, k: SortKey, reverse: bool) {
    forall i, j :: 0 <= i < j < |s| ==> InOrder(s[i], s[j], k, reverse)
  }

  /** Entries with equal keys appear in `out` in the order they had in `input`. */
  ghost predicate Stable(out: seq<Entry>, input: seq<Entry>, k: SortKey) {
    forall v :: WithKey(out, k, v) == WithKey(input, k, v)
  }

  lemma WithKeyCons(y: Entry, t: seq<Entry>, k: SortKey, v: int)
    ensures WithKey([y] + t, k, v) == (if KeyOf(y, k) == v then [y] else []) + WithKey(t, k, v)
  {
    assert ([y] + t)[0] == y;
    assert ([y] + t)[1..] == t;
  }

  lemma OrderedHead(s: seq<Entry>, k: SortKey, reverse: bool)
    requires |s| > 0 && Ordered(s, k, reverse)
    ensures Ordered(s[1..], k, reverse)
    ensures forall z :: z in s[1..] ==> InOrder(s[0], z, k, reverse)
  {
    forall z | z in s[1..]
      ensures InOrder(s[0], z, k, reverse)
    {
      var j :| 0 <= j < |s[1..]| && s[1..][j] == z;
      assert s[j + 1] == z;
    }
  }

  lemma OrderedCons(y: Entry, t: seq<Entry>, k: SortKey, reverse: bool)
    requires Ordered(t, k, reverse)
    requires forall z :: z in t ==> InOrder(y, z, k, reverse)
    ensures Ordered([y] + t, k, reverse)
  {
    var r := [y] + t;
    forall i, j | 0 <= i < j < |r|
      ensures InOrder(r[i], r[j], k, reverse)
    {
      assert r[j] == t[j - 1];
      if i > 0 {
        assert r[i] == t[i - 1];
      }
    }
  }

  /** `x` belongs strictly after `b` in the requested direction. */
  predicate After(x: Entry, b: Entry, k: SortKey, reverse: bool) {
    !InOrder(x, b, k, reverse)
  }

  /** Places `x` in front of the first element of `s` that does not belong strictly before it. */
  function Insert(x: Entry, s: seq<Entry>, k: SortKey, reverse: bool): (r: seq<Entry>)
    ensures multiset(r) == multiset(s) + multiset{x}
  {
    if s == [] then [x]
    else if After(x, s[0], k, reverse) then
      assert s == [s[0]] + s[1..];
      [s[0]] + Insert(x, s[1..], k, reverse)
    else [x] + s
  }

  /** Inserting into an ordered sequence keeps it ordered. */
  lemma {:induction false} InsertOrdered(x: Entry, s: seq<Entry>, k: SortKey, reverse: bool)
    requires Ordered(s, k, reverse)
    ensures Ordered(Insert(x, s, k, reverse), k, reverse)
  {
    if s == [] {
    } else {
      OrderedHead(s, k, reverse);
      if After(x, s[0], k, reverse) {
        var rest := Insert(x, s[1..], k, reverse);
        InsertOrdered(x, s[1..], k, reverse);
        assert forall z :: z in rest ==> z in multiset(s[1..]) + multiset{x};
        OrderedCons(s[0], rest, k, reverse);
      } else {
        assert s == [s[0]] + s[1..];
        OrderedCons(x, s, k, reverse);
      }
    }
  }

  /**
   * `x` lands after every entry of `s` with a smaller key and before every
   * entry with an equal one: among equal keys it comes first.
   */
  lemma {:induction false} InsertWithKey(x: Entry, s: seq<Entry>, k: SortKey, reverse: bool, v: int)
    ensures WithKey(Insert(x, s, k, reverse), k, v) == (if KeyOf(x, k) == v then [x] else []) + WithKey(s, k, v)
  {
    if s == [] {
      assert Insert(x, s, k, reverse) == [x] + [];
      WithKeyCons(x, [], k, v);
    } else if After(x, s[0], k, reverse) {
      var rest := Insert(x, s[1..], k, reverse);
      assert Insert(x, s, k, reverse) == [s[0]] + rest;
      InsertWithKey(x, s[1..], k, reverse, v);
      PassOver(x, s[0], s[1..], rest, k, reverse, v);
      assert s == [s[0]] + s[1..];
    } else {
      assert Insert(x, s, k, reverse) == [x] + s;
      WithKeyCons(x, s, k, v);
    }
  }

  /** The step of `InsertWithKey` where `x` moves past `b`: the two keys differ, so order within a key is kept. */
  lemma PassOver(x: Entry, b: Entry, t: seq<Entry>, rest: seq<Entry>, k: SortKey, reverse: bool, v: int)
    requires After(x, b, k, reverse)
    requires WithKey(rest, k, v) == (if KeyOf(x, k) == v then [x] else []) + WithKey(t, k, v)
    ensures WithKey([b] + rest, k, v) == (if KeyOf(x, k) == v then [x] else []) + WithKey([b] + t, k, v)
  {
    WithKeyCons(b, rest, k, v);
    WithKeyCons(b, t, k, v);
    if KeyOf(x, k) == v {
      assert KeyOf(b, k) != v;
    }
  }

  /** Insertion sort: each entry, last to first, is inserted into the sorted rest. */
  function InsertionSort(s: seq<Entry>, k: SortKey, reverse: bool): seq<Entry> {
    if s == [] then [] else Insert(s[0], InsertionSort(s[1..], k, reverse), k, reverse)
  }

  lemma {:induction false} InsertionSortPermutes(s: seq<Entry>, k: SortKey, reverse: bool)
    ensures multiset(InsertionSort(s, k, reverse)) == multiset(s)
  {
    if s != [] {
      InsertionSortPermutes(s[1..], k, reverse);
      assert s == [s[0]] + s[1..];
    }
  }

  lemma {:induction false} InsertionSortOrdered(s: seq<Entry>, k: SortKey, reverse: bool)
    ensures Ordered(InsertionSort(s, k, reverse), k, reverse)
  {
    if s != [] {
      InsertionSortOrdered(s[1..], k, reverse);
      InsertOrdered(s[0], InsertionSort(s[1..], k, reverse), k, reverse);
    }
  }

  lemma {:induction false} InsertionSortStable(s: seq<Entry>, k: SortKey, reverse: bool)
    ensures Stable(InsertionSort(s, k, reverse), s, k)
  {
    if s != [] {
      var rest := InsertionSort(s[1..], k, reverse);
      InsertionSortStable(s[1..], k, reverse);
      assert s == [s[0]] + s[1..];
      forall v
        ensures WithKey(Insert(s[0], rest, k, reverse), k, v) == WithKey(s, k, v)
      {
        InsertWithKey(s[0], rest, k, reverse, v);
        WithKeyCons(s[0], s[1..], k, v);
      }
    }
  }

  /** Stable sort in the requested direction. */
  function SortEntries(s: seq<Entry>, k: SortKey, reverse: bool): (r: seq<Entry>)
    ensures multiset(r) == multiset(s)
    ensures Ordered(r, k, reverse)
    ensures Stable(r, s, k)
  {
    InsertionSortPermutes(s, k, reverse);
    InsertionSortOrdered(s, k, reverse);
    InsertionSortStable(s, k, reverse);
    InsertionSort(s, k, reverse)
  }

  /** `InOrder` is transitive, so an entry in order before the head of an ordered sequence is in order before all of it. */
  lemma InOrderTrans(a: Entry, b: Entry, c: Entry, k: SortKey, reverse: bool)
    requires InOrder(a, b, k, reverse) && InOrder(b, c, k, reverse)
    ensures InOrder(a, c, k, reverse)
  {
  }

  /** Dropping entries and then inserting `x` is the same as inserting `x` and then dropping entries. */
  lemma {:induction false} FilterInsert(p: Entry -> bool, x: Entry, s: seq<Entry>, k: SortKey, reverse: bool)
    requires Ordered(s, k, reverse)
    ensures Filter(p, Insert(x, s, k, reverse)) ==
      (if p(x) then Insert(x, Filter(p, s), k, reverse) else Filter(p, s))
  {
    if s == [] {
      assert Insert(x, s, k, reverse) == [x] + s;
      FilterInsertHere(p, x, s, k, reverse);
    } else {
      var b := s[0];
      OrderedHead(s, k, reverse);
      if After(x, b, k, reverse) {
        var rest := Insert(x, s[1..], k, reverse);
        assert Insert(x, s, k, reverse) == [b] + rest;
        assert s == [b] + s[1..];
        FilterInsert(p, x, s[1..], k, reverse);
        FilterInsertPass(p, x, b, s[1..], rest, k, reverse);
      } else {
        forall z | z in s
          ensures InOrder(x, z, k, reverse)
        {
          if z != b {
            InOrderTrans(x, b, z, k, reverse);
          }
        }
        assert Insert(x, s, k, reverse) == [x] + s;
        FilterInsertHere(p, x, s, k, reverse);
      }
    }
  }

  /** The step of `FilterInsert` where `x` moves past `b`. */
  lemma FilterInsertPass(p: Entry -> bool, x: Entry, b: Entry, t: seq<Entry>, rest: seq<Entry>, k: SortKey, reverse: bool)
    requires After(x, b, k, reverse)
    requires Filter(p, rest) == (if p(x) then Insert(x, Filter(p, t), k, reverse) else Filter(p, t))
    ensures Filter(p, [b] + rest) ==
      (if p(x) then Insert(x, Filter(p, [b] + t), k, reverse) else Filter(p, [b] + t))
  {
    FilterCons(p, b, rest);
    FilterCons(p, b, t);
    var ft := Filter(p, t);
    if p(b) {
      assert Filter(p, [b] + rest) == [b] + Filter(p, rest);
      assert Filter(p, [b] + t) == [b] + ft;
      if p(x) {
        var bt := [b] + ft;
        assert bt[0] == b;
        assert bt[1..] == ft;
        assert Insert(x, bt, k, reverse) == [b] + Insert(x, ft, k, reverse);
      }
    } else {
      assert Filter(p, [b] + rest) == Filter(p, rest);
      assert Filter(p, [b] + t) == ft;
    }
  }

  /** The step of `FilterInsert` where `x` stops in front of entries it is in order before. */
  lemma FilterInsertHere(p: Entry -> bool, x: Entry, s: seq<Entry>, k: SortKey, reverse: bool)
    requires forall z :: z in s ==> InOrder(x, z, k, reverse)
    ensures Filter(p, [x] + s) == (if p(x) then Insert(x, Filter(p, s), k, reverse) else Filter(p, s))
  {
    FilterCons(p, x, s);
    var fs := Filter(p, s);
    if p(x) && fs != [] {
      assert fs[0] in s;
    }
  }

  /** Sorting commutes with dropping entries: a stable sort of a selection is the selection of the sort. */
  lemma FilterSortEntries(p: Entry -> bool, s: seq<Entry>, k: SortKey, reverse: bool)
    ensures Filter(p, SortEntries(s, k, reverse)) == SortEntries(Filter(p, s), k, reverse)
  {
    FilterInsertionSort(p, s, k, reverse);
  }

  lemma {:induction false} FilterInsertionSort(p: Entry -> bool, s: seq<Entry>, k: SortKey, reverse: bool)
    ensures Filter(p, InsertionSort(s, k, reverse)) == InsertionSort(Filter(p, s), k, reverse)
  {
    if s != [] {
      var x := s[0];
      var sorted := InsertionSort(s[1..], k, reverse);
      InsertionSortOrdered(s[1..], k, reverse);
      FilterInsert(p, x, sorted, k, reverse);
      FilterInsertionSort(p, s[1..], k, reverse);
      assert InsertionSort(s, k, reverse) == Insert(x, sorted, k, reverse);
      assert s == [x] + s[1..];
      SortConsFiltered(p, x, s[1..], k, reverse);
    }
  }

  /** Sorting the selection of `[x] + t` inserts `x` into the sorted selection of `t` exactly when `x` is kept. */
  lemma SortConsFiltered(p: Entry -> bool, x: Entry, t: seq<Entry>, k: SortKey, reverse: bool)
    ensures InsertionSort(Filter(p, [x] + t), k, reverse) ==
      (if p(x) then Insert(x, InsertionSort(Filter(p, t), k, reverse), k, reverse)
       else InsertionSort(Filter(p, t), k, reverse))
  {
    FilterCons(p, x, t);
    var ft := Filter(p, t);
    if p(x) {
      var xt := [x] + ft;
      assert Filter(p, [x] + t) == xt;
      assert xt[0] == x && xt[1..] == ft;
    } else {
      assert Filter(p, [x] + t) == ft;
    }
  }

  /** Sorting keeps exactly the entries it was given. */
  lemma SortedMembers(s: seq<Entry>, k: SortKey, reverse: bool)
    ensures forall e :: e in SortEntries(s, k, reverse) <==> e in s
  {
    var sorted := SortEntries(s, k, reverse);
    assert forall e :: e in sorted <==> e in multiset(sorted);
    assert forall e :: e in s <==> e in multiset(s);
  }

  /** When both names are valid and every entry has permissions, the result is the sorted kept entries. */
  lemma FilterSortFilesValid(files: seq<Entry>, filterType: string, reverse: bool, sortBy: string, c: char, k: SortKey)
    requires FilterChar(filterType) == Some(c) && ParseSortKey(sortBy) == Some(k)
    requires forall e :: e in files ==> e.permissions != []
    ensures FilterSortFiles(files, filterType, reverse, sortBy) == Success(SortEntries(KeepKind(files, c), k, reverse))
  {
  }

  /**
   * Validates the filter, keeps the entries of its kind, validates the sort
   * name, then sorts. Every entry's first permission character is read while
   * filtering, so an empty permission string fails even if it would not be kept.
   */
  function FilterSortFiles(files: seq<Entry>, filterType: string, reverse: bool, sortBy: string)
    : (r: Result<seq<Entry>, ListError>)
    ensures FilterChar(filterType).None? ==> r == Failure(InvalidFilter(filterType))
    ensures FilterChar(filterType).Some? && (exists e :: e in files && e.permissions == []) ==>
      r == Failure(MissingPermissions)
    ensures (&& FilterChar(filterType).Some?
             && (forall e :: e in files ==> e.permissions != [])
             && ParseSortKey(sortBy).None?) ==> r == Failure(InvalidSortKey(sortBy))
    ensures r.Success? ==>
      && FilterChar(filterType).Some? && ParseSortKey(sortBy).Some?
      && var c, k := FilterChar(filterType).value, ParseSortKey(sortBy).value;
      && (forall e :: e in r.value <==> e in files && KindIs(e, c))
      && multiset(r.value) == multiset(KeepKind(files, c))
      && Ordered(r.value, k, reverse)
      && Stable(r.value, KeepKind(files, c), k)
    ensures (&& FilterChar(filterType).Some?
             && (forall e :: e in files ==> e.permissions != [])
             && ParseSortKey(sortBy).Some?) ==> r.Success?
  {
    match FilterChar(filterType)
    case None => Failure(InvalidFilter(filterType))
    case Some(c) =>
      if exists e :: e in files && e.permissions == [] then Failure(MissingPermissions)
      else
        var kept := KeepKind(files, c);
        match ParseSortKey(sortBy)
        case None => Failure(InvalidSortKey(sortBy))
        case Some(k) =>
          var sorted := SortEntries(kept, k, reverse);
          SortedMembers(kept, k, reverse);
          Success(sorted)
  }
}
