/**
 * The parts of Node.js's POSIX `path` module the extension calls: `resolve`, `normalize` and
 * `dirname`, with a path seen as the list of its `/`-separated segments. The working directory
 * that `resolve` falls back to is a parameter.
 */
module PosixPath {
  import opened Text

  predicate IsAbsolute(p: string)
  {
    |p| > 0 && p[0] == '/'
  }

  /** A segment of a normalized path: not empty, not `.` or `..`, no separator. */
  predicate ValidSegment(seg: string)
  {
    seg != "" && seg != "." && seg != ".." && '/' !in seg
  }

  predicate AllValid(segs: seq<string>)
  {
    forall i :: 0 <= i < |segs| ==> ValidSegment(segs[i])
  }

  /** One segment of Node's `normalizeString`: empty and `.` segments vanish, `..` removes the
      previous segment, and when there is none it is kept only for relative paths
      (`allowAboveRoot`); any other segment is appended. */
  function NormalizeStep(acc: seq<string>, seg: string, allowAboveRoot: bool): seq<string>
  {
    if seg == "" || seg == "." then acc
    else if seg == ".." then
      if |acc| > 0 && acc[|acc| - 1] != ".." then acc[..|acc| - 1]
      else if allowAboveRoot then acc + [".."]
      else acc
    else acc + [seg]
  }

  /** `normalizeString`, segment by segment from left to right, starting from `acc`. */
  function NormalizeSegments(acc: seq<string>, segs: seq<string>, allowAboveRoot: bool): seq<string>
    decreases |segs|
  {
    if segs == [] then acc
    else NormalizeSegments(NormalizeStep(acc, segs[0], allowAboveRoot), segs[1..], allowAboveRoot)
  }

  /** The string `resolve` builds before normalizing: arguments are taken from the right, each
      non-empty one prepended with a `/`, until one is absolute; if none is, the working
      directory comes first. */
  function ResolveInput(cwd: string, args: seq<string>, tail: string): (raw: string)
    requires IsAbsolute(cwd)
    ensures IsAbsolute(raw)
    decreases |args|
  {
    if args == [] then cwd + "/" + tail
    else
      var p := args[|args| - 1];
      if p == "" then ResolveInput(cwd, args[..|args| - 1], tail)
      else if IsAbsolute(p) then p + "/" + tail
      else ResolveInput(cwd, args[..|args| - 1], p + "/" + tail)
  }

  /** The segments of `path.resolve(...args)`. */
  function ResolvedSegments(cwd: string, args: seq<string>): seq<string>
    requires IsAbsolute(cwd)
  {
    NormalizeSegments([], Split(ResolveInput(cwd, args, ""), '/'), false)
  }

  /** `path.resolve(...args)`: always absolute, since the working directory is. */
  function Resolve(cwd: string, args: seq<string>): string
    requires IsAbsolute(cwd)
  {
    "/" + Join(ResolvedSegments(cwd, args), '/')
  }

  /** `path.normalize(p)`. */
  function Normalize(p: string): string
  {
    if p == "" then "."
    else
      var absolute := p[0] == '/';
      var trailingSeparator := p[|p| - 1] == '/';
      var body := Join(NormalizeSegments([], Split(p, '/'), !absolute), '/');
      if body == "" then
        if absolute then "/" else if trailingSeparator then "./" else "."
      else
        (if absolute then "/" else "") + body + (if trailingSeparator then "/" else "")
  }

  /** Normalizing segments in two parts is normalizing the first part, then the second. */
  lemma {:induction false} NormalizeAppend(acc: seq<string>, a: seq<string>, b: seq<string>, allowAboveRoot: bool)
    ensures NormalizeSegments(acc, a + b, allowAboveRoot)
            == NormalizeSegments(NormalizeSegments(acc, a, allowAboveRoot), b, allowAboveRoot)
    decreases |a|
  {
    if a == [] {
      assert a + b == b;
    } else {
      assert (a + b)[0] == a[0] && (a + b)[1..] == a[1..] + b;
      NormalizeAppend(NormalizeStep(acc, a[0], allowAboveRoot), a[1..], b, allowAboveRoot);
    }
  }

  /** Segments that are already normal are kept as they are. */
  lemma {:induction false} NormalizeValid(acc: seq<string>, segs: seq<string>, allowAboveRoot: bool)
    requires AllValid(segs)
    ensures NormalizeSegments(acc, segs, allowAboveRoot) == acc + segs
    decreases |segs|
  {
    if segs != [] {
      assert ValidSegment(segs[0]);
      NormalizeValid(acc + [segs[0]], segs[1..], allowAboveRoot);
      assert acc + [segs[0]] + segs[1..] == acc + segs;
    }
  }

  /** An absolute normalization never keeps `..`: from normal segments and pieces without a
      separator it yields normal segments, so a path cannot climb above `/`. */
  lemma {:induction false} NormalizeAbsoluteValid(acc: seq<string>, segs: seq<string>)
    requires AllValid(acc)
    requires forall i :: 0 <= i < |segs| ==> '/' !in segs[i]
    ensures AllValid(NormalizeSegments(acc, segs, false))
    decreases |segs|
  {
    if segs != [] {
      var next := NormalizeStep(acc, segs[0], false);
      assert AllValid(next) by {
        if segs[0] == ".." && |acc| > 0 {
          assert forall i :: 0 <= i < |acc| - 1 ==> acc[..|acc| - 1][i] == acc[i];
        } else if segs[0] != "" && segs[0] != "." && segs[0] != ".." {
          assert forall i :: 0 <= i < |acc| ==> (acc + [segs[0]])[i] == acc[i];
        }
      }
      NormalizeAbsoluteValid(next, segs[1..]);
    }
  }

  /** The resolved path consists of normal segments: no `.`, no `..`, nothing empty. */
  lemma ResolvedSegmentsValid(cwd: string, args: seq<string>)
    requires IsAbsolute(cwd)
    ensures AllValid(ResolvedSegments(cwd, args))
  {
    NormalizeAbsoluteValid([], Split(ResolveInput(cwd, args, ""), '/'));
  }

  lemma {:induction false} JoinValidNonEmpty(segs: seq<string>)
    requires AllValid(segs) && |segs| >= 1
    ensures |Join(segs, '/')| >= 1
    ensures Join(segs, '/')[|Join(segs, '/')| - 1] != '/'
    decreases |segs|
  {
    if |segs| > 1 {
      JoinValidNonEmpty(segs[1..]);
      assert AllValid(segs[1..]) by {
        forall i | 0 <= i < |segs[1..]| ensures ValidSegment(segs[1..][i]) {
          assert segs[1..][i] == segs[i + 1];
        }
      }
    } else {
      assert '/' !in segs[0];
    }
  }

  /** The segments of "/" + Join(segs) are an empty one, then segs. */
  lemma SplitAbsolute(segs: seq<string>)
    requires AllValid(segs) && |segs| >= 1
    ensures Split("/" + Join(segs, '/'), '/') == [""] + segs
  {
    assert "/" + Join(segs, '/') == "" + ['/'] + Join(segs, '/');
    SplitAppend("", Join(segs, '/'), '/');
    SplitJoin(segs, '/');
  }

  /** `normalize` leaves the result of `resolve` as it is: the extension's second call of it
      (src/extension.ts, lines 17-18) changes nothing. */
  lemma NormalizeResolved(cwd: string, args: seq<string>)
    requires IsAbsolute(cwd)
    ensures Normalize(Resolve(cwd, args)) == Resolve(cwd, args)
  {
    var segs := ResolvedSegments(cwd, args);
    ResolvedSegmentsValid(cwd, args);
    var p := Resolve(cwd, args);
    if segs == [] {
      assert p == "/" == "" + ['/'] + "";
      SplitAppend("", "", '/');
      assert Split(p, '/') == [[], []];
      var two: seq<string> := [[], []];
      assert two[1..] == [[]] && two[1..][1..] == [];
      assert NormalizeSegments([], two[1..][1..], false) == [];
      assert NormalizeSegments([], two[1..], false) == [];
      assert NormalizeSegments([], two, false) == [];
    } else {
      SplitAbsolute(segs);
      JoinValidNonEmpty(segs);
      assert p[|p| - 1] == Join(segs, '/')[|Join(segs, '/')| - 1];
      NormalizeValid([], segs, false);
      assert ([""] + segs)[1..] == segs;
      assert NormalizeSegments([], [""] + segs, false) == segs;
      var body := Join(NormalizeSegments([], Split(p, '/'), false), '/');
      assert body == Join(segs, '/') != "";
      assert Normalize(p) == "/" + body + "";
    }
  }

  /** Resolving against an argument that is an absolute, normal path gives that path's
      segments, whatever came before it. */
  lemma ResolveAbsoluteArgument(cwd: string, args: seq<string>, segs: seq<string>)
    requires IsAbsolute(cwd)
    requires |args| >= 1 && args[|args| - 1] == "/" + Join(segs, '/')
    requires AllValid(segs) && |segs| >= 1
    ensures ResolvedSegments(cwd, args) == segs
  {
    var p := args[|args| - 1];
    assert ResolveInput(cwd, args, "") == p + "/" + "";
    assert p + "/" + "" == p + ['/'] + "";
    SplitAppend(p, "", '/');
    SplitAbsolute(segs);
    assert Split(p + "/" + "", '/') == [""] + segs + [""];
    NormalizeAppend([], [""] + segs, [""], false);
    NormalizeValid([], segs, false);
    assert NormalizeSegments([], [""] + segs, false) == NormalizeSegments([], segs, false);
  }

  /** `path.dirname(p)`: the path up to the last separator that is followed by something other
      than separators; `.` for a path without one, `/` for a top-level absolute path. */
  function Dirname(p: string): string
  {
    if p == [] then "."
    else
      var hasRoot := p[0] == '/';
      var end := DirEnd(p, |p| - 1, true);
      if end == -1 then (if hasRoot then "/" else ".")
      else if hasRoot && end == 1 then "//"
      else p[..end]
  }

  /** Node's backwards scan from index i down to 1: while only separators have been seen
      (`matchedSlash`) they are skipped; the first separator after a non-separator is the end
      of the directory part; -1 when there is none. */
  function DirEnd(p: string, i: int, matchedSlash: bool): (end: int)
    requires i < |p|
    ensures end == -1 || 1 <= end <= i
    ensures end != -1 ==> p[end] == '/'
    // after the end (and from index 1 on): the last name, then only separators
    ensures forall j, k :: 1 <= j < k <= i && end < j && p[j] == '/' ==> p[k] == '/'
    // the separator found is followed by a name, not only by separators
    ensures end != -1 && matchedSlash ==> exists k :: end < k <= i && p[k] != '/'
    // once a name has been seen, the first separator ends the scan
    ensures !matchedSlash ==> forall j :: 1 <= j <= i && end < j ==> p[j] != '/'
    decreases i
  {
    if i < 1 then -1
    else if p[i] == '/' then (if !matchedSlash then i else DirEnd(p, i - 1, true))
    else DirEnd(p, i - 1, false)
  }

  lemma {:induction false} DirEndInName(dir: string, name: string, i: int, matchedSlash: bool)
    requires |dir| <= i < |dir| + 1 + |name|
    requires '/' !in name
    requires i == |dir| ==> !matchedSlash
    ensures DirEnd(dir + "/" + name, i, matchedSlash) == |dir| || |dir| == 0
    decreases i
  {
    var p := dir + "/" + name;
    if i > |dir| {
      assert p[i] == name[i - |dir| - 1];
      DirEndInName(dir, name, i - 1, false);
    }
  }

  /** The directory of dir/name is dir, for a non-empty name without a separator and a
      directory that is not `/` and does not end in one. */
  lemma DirnameOfChild(dir: string, name: string)
    requires dir != "" && dir[|dir| - 1] != '/'
    requires name != "" && '/' !in name
    ensures Dirname(dir + "/" + name) == dir
  {
    var p := dir + "/" + name;
    DirEndInName(dir, name, |p| - 1, true);
    assert p[..|dir|] == dir;
  }

  /** The directory of a top-level entry `/name` is the root. */
  lemma DirnameTopLevel(name: string)
    requires name != "" && '/' !in name
    ensures Dirname("/" + name) == "/"
  {
  }
}
