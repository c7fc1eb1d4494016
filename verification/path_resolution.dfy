/**
 * The lookup in `main`: split the requested path on '/', skip empty pieces,
 * and descend to the first child with each name; a missing name prints one
 * error line carrying the path as given, and nothing is listed.
 */
module PathResolution {
  import opened Wrappers
  import opened Seqs
  import opened Entries
  import opened Listing

  /** Inverse of `Split`: the pieces with the separator between them. */
  function Join(parts: seq<string>, sep: char): string
    requires |parts| >= 1
  {
    if |parts| == 1 then parts[0] else parts[0] + [sep] + Join(parts[1..], sep)
  }

  /** `str.split(sep)`: n separators give n + 1 pieces, empty pieces included. */
  function Split(s: string, sep: char): (parts: seq<string>)
    ensures |parts| >= 1
    ensures forall i :: 0 <= i < |parts| ==> sep !in parts[i]
    ensures Join(parts, sep) == s
  {
    if s == [] then [""]
    else
      var rest := Split(s[1..], sep);
      if s[0] == sep then
        assert s == [sep] + s[1..];
        [""] + rest
      else
        var parts := [[s[0]] + rest[0]] + rest[1..];
        assert parts[1..] == rest[1..];
        assert s == [s[0]] + s[1..];
        parts
  }

  lemma {:induction false} SplitPrefix(w: string, t: string, sep: char)
    requires sep !in w
    ensures Split(w + t, sep) == [w + Split(t, sep)[0]] + Split(t, sep)[1..]
  {
    if w != [] {
      assert (w + t)[1..] == w[1..] + t;
      assert (w + t)[0] == w[0];
      SplitPrefix(w[1..], t, sep);
      assert [w[0]] + (w[1..] + Split(t, sep)[0]) == w + Split(t, sep)[0];
    } else {
      var st := Split(t, sep);
      assert w + t == t;
      assert w + st[0] == st[0];
      assert st == [st[0]] + st[1..];
    }
  }

  /** Splitting undoes joining pieces that do not contain the separator. */
  lemma {:induction false} SplitJoin(parts: seq<string>, sep: char)
    requires |parts| >= 1
    requires forall i :: 0 <= i < |parts| ==> sep !in parts[i]
    ensures Split(Join(parts, sep), sep) == parts
  {
    if |parts| == 1 {
      SplitPrefix(parts[0], "", sep);
      assert parts[0] + "" == parts[0];
    } else {
      var tail := Join(parts[1..], sep);
      SplitJoin(parts[1..], sep);
      assert parts[0] + [sep] + tail == parts[0] + ([sep] + tail);
      SplitPrefix(parts[0], [sep] + tail, sep);
      var st := Split([sep] + tail, sep);
      assert ([sep] + tail)[0] == sep;
      assert ([sep] + tail)[1..] == tail;
      assert st == [""] + Split(tail, sep);
      assert st[1..] == parts[1..];
      assert parts[0] + st[0] == parts[0];
      assert parts == [parts[0]] + parts[1..];
    }
  }

  /** The first child named `name`, if there is one. */
  function FindChild(children: seq<Entry>, name: string): (r: Option<Entry>)
    ensures r.None? <==> forall c :: c in children ==> c.name != name
    ensures r.Some? ==> exists i :: (&& 0 <= i < |children| && children[i] == r.value
                                     && r.value.name == name
                                     && forall j :: 0 <= j < i ==> children[j].name != name)
  {
    if children == [] then None
    else if children[0].name == name then Some(children[0])
    else
      var r := FindChild(children[1..], name);
      assert children == [children[0]] + children[1..];
      if r.Some? then
        var i :| 0 <= i < |children[1..]| && children[1..][i] == r.value &&
          r.value.name == name && forall j :: 0 <= j < i ==> children[1..][j].name != name;
        assert children[i + 1] == r.value;
        r
      else r
  }

  /**
   * Descends along the pieces of a path, skipping empty ones. Only a
   * non-empty piece can be missing, and when the last piece is non-empty the
   * node reached carries it as its name.
   */
  function ResolveSegments(node: Entry, segs: seq<string>): (r: Option<Entry>)
    ensures r.None? ==> exists i :: 0 <= i < |segs| && segs[i] != ""
    ensures r.Some? && |segs| > 0 && segs[|segs| - 1] != "" ==> r.value.name == segs[|segs| - 1]
  {
    if segs == [] then Some(node)
    else if segs[0] == "" then
      var r := ResolveSegments(node, segs[1..]);
      assert r.None? ==> exists i :: 1 <= i < |segs| && segs[i] != "";
      r
    else
      match FindChild(node.contents, segs[0])
      case None => None
      case Some(child) => ResolveSegments(child, segs[1..])
  }

  /** The node a path names, or the path itself, unchanged, when it names none. */
  function Resolve(root: Entry, path: string): (r: Result<Entry, string>)
    ensures r.Failure? ==> r.error == path
  {
    if path == "" then Success(root)
    else
      match ResolveSegments(root, Split(path, '/'))
      case Some(e) => Success(e)
      case None => Failure(path)
  }

  function ErrorLine(path: string): string {
    "error: cannot access '" + path + "': No such file or directory"
  }

  /** The whole program after argument parsing and loading: look the path up, then list it. */
  function Run(root: Entry, path: string, cfg: Config, formatTime: int -> string): (out: Output)
    ensures Resolve(root, path).Failure? ==> out == Output([ErrorLine(path)], None)
    ensures Resolve(root, path).Success? ==> out == ListFiles(Resolve(root, path).value, cfg, formatTime)
  {
    match Resolve(root, path)
    case Failure(p) => Output([ErrorLine(p)], None)
    case Success(node) => ListFiles(node, cfg, formatTime)
  }
}
