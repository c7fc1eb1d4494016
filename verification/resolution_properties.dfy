/** How path lookup treats slashes, names and missing entries. */
module ResolutionProperties {
  import opened Wrappers
  import opened Seqs
  import opened Entries
  import opened Listing
  import opened PathResolution

  /** The pieces of a path that name something. */
  function NonEmpty(segs: seq<string>): seq<string> {
    Filter((s: string) => s != "", segs)
  }

  /** `e` is `node` or lies somewhere below it. */
  ghost predicate Descends(node: Entry, e: Entry)
    decreases node
  {
    e == node || exists c :: c in node.contents && Descends(c, e)
  }

  /** The shortcut for an empty path agrees with splitting it: "" splits into one empty piece. */
  lemma EmptyPathShortcut(root: Entry, path: string)
    ensures Resolve(root, path).Success? <==> ResolveSegments(root, Split(path, '/')).Some?
    ensures Resolve(root, path).Success? ==>
      Resolve(root, path).value == ResolveSegments(root, Split(path, '/')).value
  {
  }

  /** Empty pieces (leading, trailing or doubled slashes) are skipped. */
  lemma {:induction false} EmptySegmentsIgnored(node: Entry, segs: seq<string>)
    ensures ResolveSegments(node, segs) == ResolveSegments(node, NonEmpty(segs))
    decreases segs
  {
    if segs != [] {
      if segs[0] == "" {
        assert NonEmpty(segs) == NonEmpty(segs[1..]);
        EmptySegmentsIgnored(node, segs[1..]);
      } else {
        var ne := NonEmpty(segs);
        assert ne[0] == segs[0];
        assert ne[1..] == NonEmpty(segs[1..]);
        match FindChild(node.contents, segs[0])
        case None =>
        case Some(child) => EmptySegmentsIgnored(child, segs[1..]);
      }
    }
  }

  /** Looking up `a` then `b` from where `a` led is looking up `a + b`. */
  lemma {:induction false} ResolveSegmentsAppend(node: Entry, a: seq<string>, b: seq<string>)
    ensures ResolveSegments(node, a + b) ==
      match ResolveSegments(node, a)
      case None => None
      case Some(m) => ResolveSegments(m, b)
    decreases a
  {
    if a == [] {
      assert a + b == b;
    } else {
      assert (a + b)[0] == a[0];
      assert (a + b)[1..] == a[1..] + b;
      if a[0] == "" {
        ResolveSegmentsAppend(node, a[1..], b);
      } else {
        match FindChild(node.contents, a[0])
        case None =>
        case Some(child) => ResolveSegmentsAppend(child, a[1..], b);
      }
    }
  }

  lemma {:induction false} SlashesSplitEmpty(s: string)
    requires forall i :: 0 <= i < |s| ==> s[i] == '/'
    ensures forall i :: 0 <= i < |Split(s, '/')| ==> Split(s, '/')[i] == ""
  {
    if s != [] {
      SlashesSplitEmpty(s[1..]);
    }
  }

  lemma {:induction false} EmptySegmentsStay(node: Entry, segs: seq<string>)
    requires forall i :: 0 <= i < |segs| ==> segs[i] == ""
    ensures ResolveSegments(node, segs) == Some(node)
  {
    if segs != [] {
      EmptySegmentsStay(node, segs[1..]);
    }
  }

  /** A path made only of slashes (or empty) names the root. */
  lemma SlashesOnlyResolveToRoot(root: Entry, path: string)
    requires forall i :: 0 <= i < |path| ==> path[i] == '/'
    ensures Resolve(root, path) == Success(root)
  {
    SlashesSplitEmpty(path);
    EmptySegmentsStay(root, Split(path, '/'));
  }

  lemma {:induction false} JoinAppend(parts: seq<string>, x: string, sep: char)
    requires |parts| >= 1
    ensures Join(parts + [x], sep) == Join(parts, sep) + [sep] + x
    decreases |parts|
  {
    var px := parts + [x];
    assert px[0] == parts[0];
    assert px[1..] == parts[1..] + [x];
    if |parts| > 1 {
      JoinAppend(parts[1..], x, sep);
    }
  }

  /** A leading or a trailing slash does not change which node a path names. */
  lemma ExtraSlashesIgnored(root: Entry, p: string)
    ensures Resolve(root, "/" + p).Success? <==> Resolve(root, p).Success?
    ensures Resolve(root, p + "/").Success? <==> Resolve(root, p).Success?
    ensures Resolve(root, p).Success? ==>
      && Resolve(root, "/" + p).value == Resolve(root, p).value
      && Resolve(root, p + "/").value == Resolve(root, p).value
  {
    var sp := Split(p, '/');
    assert ("/" + p)[0] == '/' && ("/" + p)[1..] == p;
    assert Split("/" + p, '/') == [""] + sp;
    JoinAppend(sp, "", '/');
    assert Join(sp + [""], '/') == p + "/";
    SplitJoin(sp + [""], '/');
    ResolveSegmentsAppend(root, sp, [""]);
    match ResolveSegments(root, sp)
    case None =>
    case Some(m) => assert ResolveSegments(m, [""]) == Some(m);
  }

  lemma {:induction false} SegmentsDescend(node: Entry, segs: seq<string>)
    requires ResolveSegments(node, segs).Some?
    ensures Descends(node, ResolveSegments(node, segs).value)
    decreases segs
  {
    if segs != [] {
      if segs[0] == "" {
        SegmentsDescend(node, segs[1..]);
      } else {
        var child := FindChild(node.contents, segs[0]).value;
        SegmentsDescend(child, segs[1..]);
      }
    }
  }

  /** A path only ever names the root or something below it. */
  lemma ResolvedDescends(root: Entry, path: string)
    requires Resolve(root, path).Success?
    ensures Descends(root, Resolve(root, path).value)
  {
    SegmentsDescend(root, Split(path, '/'));
  }

  lemma {:induction false} SegmentsName(node: Entry, segs: seq<string>)
    requires |segs| >= 1 && forall i :: 0 <= i < |segs| ==> segs[i] != ""
    requires ResolveSegments(node, segs).Some?
    ensures ResolveSegments(node, segs).value.name == segs[|segs| - 1]
    decreases segs
  {
    var child := FindChild(node.contents, segs[0]).value;
    if |segs| > 1 {
      SegmentsName(child, segs[1..]);
    }
  }

  /** The node a path names carries the path's last non-empty piece as its name. */
  lemma ResolvedName(root: Entry, path: string)
    requires Resolve(root, path).Success?
    requires |NonEmpty(Split(path, '/'))| >= 1
    ensures var ne := NonEmpty(Split(path, '/'));
      Resolve(root, path).value.name == ne[|ne| - 1]
  {
    var ne := NonEmpty(Split(path, '/'));
    EmptySegmentsIgnored(root, Split(path, '/'));
    SegmentsName(root, ne);
  }

  /** A path that names nothing prints exactly one line, naming the path as typed, and lists nothing. */
  lemma NotFoundPrintsOneLine(root: Entry, path: string, cfg: Config, formatTime: int -> string)
    requires Resolve(root, path).Failure?
    ensures Run(root, path, cfg, formatTime).lines ==
      ["error: cannot access '" + path + "': No such file or directory"]
    ensures Run(root, path, cfg, formatTime).error == None
  {
  }
}
