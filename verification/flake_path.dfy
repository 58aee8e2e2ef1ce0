/**
 * `validateFlakePath` (src/extension.ts, lines 15-32): is a configured flake path a regular
 * file inside the workspace? The file system behind `fs.lstatSync` is an oracle, and the
 * process's working directory, which `path.resolve` falls back to, is a parameter.
 */
module FlakePath {
  import opened Wrappers
  import opened Text
  import opened PosixPath

  datatype FileKind = RegularFile | Directory | SymbolicLink | OtherKind

  /** `fs.lstatSync(p)`: the kind of the entry itself (a symbolic link is not followed);
      None when the call throws (missing entry, no permission). */
  type Lstat = string -> Option<FileKind>

  /** The check as written: the normalized candidate must start, as text, with the normalized
      root, and lstat must report a regular file; any lstat failure gives false. */
  function ValidateFlakePath(flakePath: string, workspaceRoot: string, cwd: string, lstat: Lstat): (ok: bool)
    requires IsAbsolute(cwd)
    ensures ok ==> StartsWith(Resolve(cwd, [workspaceRoot, flakePath]), Resolve(cwd, [workspaceRoot]))
    ensures ok ==> lstat(Resolve(cwd, [workspaceRoot, flakePath])) == Some(RegularFile)
  {
    NormalizeResolved(cwd, [workspaceRoot, flakePath]);
    NormalizeResolved(cwd, [workspaceRoot]);
    var normalizedFlake := Normalize(Resolve(cwd, [workspaceRoot, flakePath]));
    var normalizedRoot := Normalize(Resolve(cwd, [workspaceRoot]));
    if !StartsWith(normalizedFlake, normalizedRoot) then false
    else
      match lstat(normalizedFlake)
      case Some(kind) => kind == RegularFile
      case None => false
  }

  /** The candidate resolves to the root itself or to a path below it, segment by segment. */
  predicate IsWithin(cwd: string, workspaceRoot: string, flakePath: string)
    requires IsAbsolute(cwd)
  {
    ResolvedSegments(cwd, [workspaceRoot]) <= ResolvedSegments(cwd, [workspaceRoot, flakePath])
  }

  /** A root's segments followed by more: the joined root is a prefix of the joined whole. */
  lemma JoinedPrefix(root: seq<string>, path: seq<string>)
    requires root <= path
    ensures StartsWith("/" + Join(path, '/'), "/" + Join(root, '/'))
  {
    if root != [] && root != path {
      var extra := path[|root|..];
      assert path == root + extra;
      JoinAppend(root, extra, '/');
    }
  }

  /** Every regular file below the root passes the check. */
  lemma WithinFileAccepted(flakePath: string, workspaceRoot: string, cwd: string, lstat: Lstat)
    requires IsAbsolute(cwd)
    requires IsWithin(cwd, workspaceRoot, flakePath)
    requires lstat(Resolve(cwd, [workspaceRoot, flakePath])) == Some(RegularFile)
    ensures ValidateFlakePath(flakePath, workspaceRoot, cwd, lstat)
  {
    NormalizeResolved(cwd, [workspaceRoot, flakePath]);
    NormalizeResolved(cwd, [workspaceRoot]);
    JoinedPrefix(ResolvedSegments(cwd, [workspaceRoot]), ResolvedSegments(cwd, [workspaceRoot, flakePath]));
  }

  /** As written, the textual prefix test admits a sibling directory whose name extends the
      root's: with root /ws, the regular file /ws-evil/flake.nix is accepted although it is
      not inside /ws. */
  lemma SiblingPassesPrefixCheck(cwd: string, lstat: Lstat)
    requires IsAbsolute(cwd)
    requires lstat("/ws-evil/flake.nix") == Some(RegularFile)
    ensures ValidateFlakePath("/ws-evil/flake.nix", "/ws", cwd, lstat)
    ensures !IsWithin(cwd, "/ws", "/ws-evil/flake.nix")
  {
    var root, flake := "/ws", "/ws-evil/flake.nix";
    var rootSegs, flakeSegs := ["ws"], ["ws-evil", "flake.nix"];
    assert AllValid(rootSegs) && AllValid(flakeSegs);
    assert root == "/" + Join(rootSegs, '/');
    assert flake == "/" + Join(flakeSegs, '/');
    ResolveAbsoluteArgument(cwd, [root], rootSegs);
    ResolveAbsoluteArgument(cwd, [root, flake], flakeSegs);
    NormalizeResolved(cwd, [root, flake]);
    NormalizeResolved(cwd, [root]);
    assert Resolve(cwd, [root, flake]) == flake;
    assert Resolve(cwd, [root]) == root;
    assert StartsWith(flake, root);
    assert !(rootSegs <= flakeSegs);
  }

  /** The containment the check evidently intends: the candidate is the root, or it continues
      the root with a separator (every absolute path is inside `/`). */
  predicate IsContainedIn(path: string, root: string)
  {
    root == "/" || path == root || StartsWith(path, root + "/")
  }

  /** The check with the separator-aware containment test in place of the textual prefix. */
  function ValidateFlakePathContained(flakePath: string, workspaceRoot: string, cwd: string, lstat: Lstat): bool
    requires IsAbsolute(cwd)
  {
    var normalizedFlake := Normalize(Resolve(cwd, [workspaceRoot, flakePath]));
    var normalizedRoot := Normalize(Resolve(cwd, [workspaceRoot]));
    if !IsContainedIn(normalizedFlake, normalizedRoot) then false
    else
      match lstat(normalizedFlake)
      case Some(kind) => kind == RegularFile
      case None => false
  }

  /** A normal path continued with a separator: the rest splits into the extra segments. */
  lemma SeparatorPrefix(root: seq<string>, path: seq<string>)
    requires AllValid(root) && AllValid(path) && |root| >= 1 && |path| >= 1
    requires StartsWith("/" + Join(path, '/'), "/" + Join(root, '/') + "/")
    ensures root <= path
  {
    var p, q := "/" + Join(path, '/'), "/" + Join(root, '/') + "/";
    var k := |Join(root, '/')|;
    var jp := Join(path, '/');
    assert |q| == k + 2 && p[..k + 2] == q;
    assert p[1..] == jp;
    assert jp[..k] == p[1..k + 1] == q[1..k + 1] == Join(root, '/');
    assert jp[k] == p[k + 1] == q[k + 1] == '/';
    var rest := jp[k + 1..];
    assert jp == Join(root, '/') + ['/'] + rest;
    SplitAppend(Join(root, '/'), rest, '/');
    SplitJoin(root, '/');
    SplitJoin(path, '/');
    assert path == root + Split(rest, '/');
  }

  /** Segments that extend the root's give a path that continues the root after a `/`. */
  lemma PrefixContained(root: seq<string>, path: seq<string>)
    requires root <= path
    ensures IsContainedIn("/" + Join(path, '/'), "/" + Join(root, '/'))
  {
    if root != [] && root != path {
      var extra := path[|root|..];
      assert path == root + extra;
      JoinAppend(root, extra, '/');
      assert "/" + Join(path, '/') == "/" + Join(root, '/') + "/" + Join(extra, '/');
    }
  }

  /** Equal joined paths of normal segments have equal segments. */
  lemma SameJoin(root: seq<string>, path: seq<string>)
    requires AllValid(root) && AllValid(path) && |root| >= 1 && |path| >= 1
    requires "/" + Join(path, '/') == "/" + Join(root, '/')
    ensures root == path
  {
    var p, r := "/" + Join(path, '/'), "/" + Join(root, '/');
    assert p[1..] == Join(path, '/') && r[1..] == Join(root, '/');
    SplitJoin(root, '/');
    SplitJoin(path, '/');
  }

  /** A path contained in a root other than `/` extends the root segment by segment. */
  lemma ContainedPrefix(root: seq<string>, path: seq<string>)
    requires AllValid(root) && AllValid(path)
    requires IsContainedIn("/" + Join(path, '/'), "/" + Join(root, '/'))
    ensures root <= path
  {
    if root != [] {
      var p, r := "/" + Join(path, '/'), "/" + Join(root, '/');
      JoinValidNonEmpty(root);
      assert r != "/";
      assert path != [];
      JoinValidNonEmpty(path);
      if p == r {
        SameJoin(root, path);
      } else {
        SeparatorPrefix(root, path);
      }
    }
  }

  /** For normal segment lists, separator-aware containment of the joined paths is exactly
      segment-wise prefix. */
  lemma ContainmentIsSegmentPrefix(root: seq<string>, path: seq<string>)
    requires AllValid(root) && AllValid(path)
    ensures IsContainedIn("/" + Join(path, '/'), "/" + Join(root, '/')) <==> root <= path
  {
    if root <= path {
      PrefixContained(root, path);
    }
    if IsContainedIn("/" + Join(path, '/'), "/" + Join(root, '/')) {
      ContainedPrefix(root, path);
    }
  }

  /** The intended property, proved of the corrected check: it accepts exactly the regular
      files at or below the root. */
  lemma ContainedCheckAcceptsExactlyWithin(flakePath: string, workspaceRoot: string, cwd: string, lstat: Lstat)
    requires IsAbsolute(cwd)
    ensures ValidateFlakePathContained(flakePath, workspaceRoot, cwd, lstat) <==>
              IsWithin(cwd, workspaceRoot, flakePath)
              && lstat(Resolve(cwd, [workspaceRoot, flakePath])) == Some(RegularFile)
  {
    NormalizeResolved(cwd, [workspaceRoot, flakePath]);
    NormalizeResolved(cwd, [workspaceRoot]);
    ResolvedSegmentsValid(cwd, [workspaceRoot, flakePath]);
    ResolvedSegmentsValid(cwd, [workspaceRoot]);
    ContainmentIsSegmentPrefix(ResolvedSegments(cwd, [workspaceRoot]), ResolvedSegments(cwd, [workspaceRoot, flakePath]));
  }

  /** The pieces of the string `resolve` builds for root and `../name`. */
  lemma ParentSiblingPieces(cwd: string, root: seq<string>, name: string)
    requires IsAbsolute(cwd)
    requires AllValid(root) && |root| >= 1 && ValidSegment(name)
    ensures Split(ResolveInput(cwd, ["/" + Join(root, '/'), "../" + name], ""), '/')
            == ([""] + root) + ([".."] + [name] + [""])
  {
    var r := "/" + Join(root, '/');
    var f := "../" + name;
    assert ResolveInput(cwd, [r, f], "") == r + "/" + (f + "/");
    var raw := r + "/" + (f + "/");
    assert raw == r + ['/'] + (".." + ['/'] + (name + ['/'] + ""));
    SplitAppend(r, ".." + ['/'] + (name + ['/'] + ""), '/');
    SplitAppend("..", name + ['/'] + "", '/');
    SplitAppend(name, "", '/');
    SplitAbsolute(root);
    SplitWithoutSep("..", '/');
    SplitWithoutSep(name, '/');
  }

  /** `..` then name, from normal segments: the last segment is replaced by name. */
  lemma ClimbThenDescend(root: seq<string>, name: string)
    requires AllValid(root) && |root| >= 1 && ValidSegment(name)
    ensures NormalizeSegments(root, [".."] + [name] + [""], false) == root[..|root| - 1] + [name]
  {
    var tail := [".."] + [name] + [""];
    assert root[|root| - 1] != "..";
    var up := root[..|root| - 1];
    assert NormalizeStep(root, "..", false) == up;
    assert tail[1..] == [name] + [""];
    assert ([name] + [""])[1..] == [""];
    assert NormalizeStep(up, name, false) == up + [name];
    assert NormalizeSegments(up + [name], [""], false) == up + [name];
    assert NormalizeSegments(up, [name] + [""], false) == up + [name];
  }

  /** A relative candidate `../name` leaves the root for a sibling: it resolves to the root's
      parent followed by name. */
  lemma ParentSiblingResolves(cwd: string, root: seq<string>, name: string)
    requires IsAbsolute(cwd)
    requires AllValid(root) && |root| >= 1 && ValidSegment(name)
    ensures ResolvedSegments(cwd, ["/" + Join(root, '/'), "../" + name])
            == root[..|root| - 1] + [name]
  {
    ParentSiblingPieces(cwd, root, name);
    var tail := [".."] + [name] + [""];
    NormalizeAppend([], [""] + root, tail, false);
    assert ([""] + root)[1..] == root;
    NormalizeValid([], root, false);
    assert NormalizeSegments([], [""] + root, false) == root;
    ClimbThenDescend(root, name);
  }

  /** Climbing out of the root with `..` into a differently named sibling is rejected by the
      corrected check, whatever the file system holds. */
  lemma ParentEscapeRejected(cwd: string, root: seq<string>, name: string, lstat: Lstat)
    requires IsAbsolute(cwd)
    requires AllValid(root) && |root| >= 1 && ValidSegment(name)
    requires name != root[|root| - 1]
    ensures !ValidateFlakePathContained("../" + name, "/" + Join(root, '/'), cwd, lstat)
  {
    var r := "/" + Join(root, '/');
    ParentSiblingResolves(cwd, root, name);
    ResolveAbsoluteArgument(cwd, [r], root);
    var resolved := root[..|root| - 1] + [name];
    assert resolved[|root| - 1] == name;
    assert !(root <= resolved);
    ContainedCheckAcceptsExactlyWithin("../" + name, r, cwd, lstat);
  }

  /** The check as written rejects `../name` from a one-segment root unless name begins with
      the root's own name (the case the sibling finding above exploits). */
  lemma ParentEscapeRejectedAsWritten(cwd: string, root: string, name: string, lstat: Lstat)
    requires IsAbsolute(cwd)
    requires ValidSegment(root) && ValidSegment(name)
    requires !(root <= name)
    ensures !ValidateFlakePath("../" + name, "/" + root, cwd, lstat)
  {
    assert Join([root], '/') == root;
    assert Join([name], '/') == name;
    ParentSiblingResolves(cwd, [root], name);
    assert [root][..0] + [name] == [name];
    ResolveAbsoluteArgument(cwd, ["/" + root], [root]);
    var resolvedFlake, resolvedRoot := "/" + name, "/" + root;
    assert Resolve(cwd, ["/" + root, "../" + name]) == resolvedFlake;
    assert Resolve(cwd, ["/" + root]) == resolvedRoot;
    if StartsWith(resolvedFlake, resolvedRoot) {
      forall j | 0 <= j < |root| ensures root[j] == name[j] {
        assert resolvedRoot[j + 1] == resolvedFlake[j + 1];
      }
    }
  }
}
