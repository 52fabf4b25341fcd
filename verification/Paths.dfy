/**
 Lexical path resolution under a root (src/vfs.rs, src/sys/path.rs, chdir and chroot of
 src/sys/file.rs).

 Guest paths are strings. A resolved path is the list of its component names below "/".
 */
module Paths {
  import opened Base

  type Path = seq<string>

  const AT_FDCWD: int := -100

  // ----- strings and components -----

  /** Cut at every '/'. */
  function Segments(s: string): (r: seq<string>)
    ensures r != []
  {
    if s == "" then [""]
    else
      var r := Segments(s[1..]);
      if s[0] == '/' then [""] + r else [[s[0]] + r[0]] + r[1..]
  }

  /** Drop empty and "." segments. */
  function Named(segments: seq<string>): seq<string> {
    if segments == [] then []
    else (if segments[0] == "" || segments[0] == "." then [] else [segments[0]]) + Named(segments[1..])
  }

  /** The components of an absolute path, after its root. */
  function Parts(s: string): seq<string> {
    Named(Segments(s))
  }

  predicate Component(n: string) {
    n != "" && n != "." && '/' !in n
  }

  ghost predicate AllComponents(parts: seq<string>) {
    forall i :: 0 <= i < |parts| ==> Component(parts[i])
  }

  /** Names only: no "." or "..". */
  ghost predicate Clean(p: Path) {
    forall i :: 0 <= i < |p| ==> Component(p[i]) && p[i] != ".."
  }

  function Body(p: Path): string {
    if p == [] then "" else Body(p[..|p| - 1]) + "/" + p[|p| - 1]
  }

  /** The string form of an absolute path. */
  function Render(p: Path): string {
    if p == [] then "/" else Body(p)
  }

  /** Append a relative path. */
  function Join(base: string, path: string): string {
    if base != "" && base[|base| - 1] == '/' then base + path else base + "/" + path
  }

  lemma {:induction false} SegmentsJoin(a: string, b: string)
    ensures Segments(a + "/" + b) == Segments(a) + Segments(b)
  {
    if a == "" {
      assert (a + "/" + b)[1..] == b;
    } else {
      assert (a + "/" + b)[1..] == a[1..] + "/" + b;
      SegmentsJoin(a[1..], b);
    }
  }

  lemma {:induction false} SegmentsOne(a: string)
    requires '/' !in a
    ensures Segments(a) == [a]
  {
    if a != "" {
      SegmentsOne(a[1..]);
      assert [a[0]] + a[1..] == a;
    }
  }

  /** One segment is one component, ".." included; only "" and "." are dropped. */
  lemma PartsOne(a: string)
    requires '/' !in a
    ensures Parts(a) == if a == "" || a == "." then [] else [a]
  {
    SegmentsOne(a);
    assert Named([a]) == (if a == "" || a == "." then [] else [a]) + Named([]);
  }

  lemma {:induction false} NamedConcat(a: seq<string>, b: seq<string>)
    ensures Named(a + b) == Named(a) + Named(b)
  {
    if a == [] {
      assert a + b == b;
    } else {
      assert (a + b)[1..] == a[1..] + b;
      NamedConcat(a[1..], b);
    }
  }

  lemma PartsSlash(a: string, b: string)
    ensures Parts(a + "/" + b) == Parts(a) + Parts(b)
  {
    SegmentsJoin(a, b);
    NamedConcat(Segments(a), Segments(b));
  }

  /** Reading back the string form of a clean path. */
  lemma {:induction false} PartsBody(p: Path)
    requires Clean(p)
    ensures Parts(Body(p)) == p
  {
    if p != [] {
      var init, last := p[..|p| - 1], p[|p| - 1];
      PartsBody(init);
      PartsSlash(Body(init), last);
      SegmentsOne(last);
      assert Component(last) && Named([last]) == [last];
    }
  }

  lemma PartsRender(p: Path)
    requires Clean(p)
    ensures Parts(Render(p)) == p && Render(p)[0] == '/'
  {
    if p == [] {
      assert Segments("/") == ["", ""];
    } else {
      PartsBody(p);
      BodySlash(p);
    }
  }

  lemma {:induction false} BodySlash(p: Path)
    requires p != []
    ensures Body(p) != "" && Body(p)[0] == '/'
  {
    if |p| > 1 { BodySlash(p[..|p| - 1]); }
  }

  lemma RenderEnd(p: Path)
    requires Clean(p) && p != []
    ensures Render(p)[|Render(p)| - 1] != '/'
  {
    var last := p[|p| - 1];
    assert Component(last) && last[|last| - 1] in last;
  }

  /** Joining strings appends components. */
  lemma PartsJoin(p: Path, path: string)
    requires Clean(p)
    ensures Parts(Join(Render(p), path)) == p + Parts(path) && Join(Render(p), path)[0] == '/'
  {
    PartsRender(p);
    if p == [] {
      PartsSlash("", path);
      assert "" + "/" + path == "/" + path;
    } else {
      RenderEnd(p);
      PartsSlash(Render(p), path);
    }
  }

  lemma {:induction false} NamedAreComponents(segments: seq<string>)
    requires forall i :: 0 <= i < |segments| ==> '/' !in segments[i]
    ensures AllComponents(Named(segments))
  {
    if segments != [] { NamedAreComponents(segments[1..]); }
  }

  lemma {:induction false} SegmentsNoSlash(s: string)
    ensures forall i :: 0 <= i < |Segments(s)| ==> '/' !in Segments(s)[i]
  {
    if s != "" { SegmentsNoSlash(s[1..]); }
  }

  /** Components hold neither "" nor "." nor a slash. */
  lemma PartsAreComponents(s: string)
    ensures AllComponents(Parts(s))
  {
    SegmentsNoSlash(s);
    NamedAreComponents(Segments(s));
  }

  // ----- collapsing ".." -----

  /** Walk components from the directory `at`; `None` when ".." is met at the top. */
  function Collapse(at: Path, parts: seq<string>): Option<Path>
    decreases |parts|
  {
    if parts == [] then Some(at)
    else if parts[0] != ".." then Collapse(at + [parts[0]], parts[1..])
    else if at == [] then None
    else Collapse(at[..|at| - 1], parts[1..])
  }

  lemma {:induction false} CollapseConcat(at: Path, a: seq<string>, b: seq<string>)
    ensures Collapse(at, a + b) == match Collapse(at, a) case None => None case Some(mid) => Collapse(mid, b)
    decreases |a|
  {
    if a == [] {
      assert a + b == b;
    } else {
      assert (a + b)[1..] == a[1..] + b;
      if a[0] != ".." {
        CollapseConcat(at + [a[0]], a[1..], b);
      } else if at != [] {
        CollapseConcat(at[..|at| - 1], a[1..], b);
      }
    }
  }

  /** Names alone just descend. */
  lemma {:induction false} CollapseClean(at: Path, p: Path)
    requires Clean(p)
    ensures Collapse(at, p) == Some(at + p)
    decreases |p|
  {
    if p == [] {
      assert at + p == at;
    } else {
      assert at + [p[0]] + p[1..] == at + p;
      CollapseClean(at + [p[0]], p[1..]);
    }
  }

  /** A name followed by ".." cancels, wherever it stands. */
  lemma CollapseCancel(at: Path, a: seq<string>, n: string, b: seq<string>)
    requires n != ".."
    ensures Collapse(at, a + [n, ".."] + b) == Collapse(at, a + b)
  {
    CollapseConcat(at, a, [n, ".."] + b);
    CollapseConcat(at, a, b);
    assert a + [n, ".."] + b == a + ([n, ".."] + b);
    if Collapse(at, a).Some? {
      var mid := Collapse(at, a).value;
      assert ([n, ".."] + b)[1..] == [".."] + b && ([".."] + b)[1..] == b;
      assert (mid + [n])[..|mid|] == mid;
    }
  }

  /** Names gained minus ".." spent. */
  function Height(parts: seq<string>): int {
    if parts == [] then 0 else (if parts[0] == ".." then -1 else 1) + Height(parts[1..])
  }

  ghost predicate Dips(at: Path, parts: seq<string>, k: nat) {
    k <= |parts| && |at| + Height(parts[..k]) < 0
  }

  lemma HeightPrefix(parts: seq<string>, k: nat)
    requires 0 < k <= |parts|
    ensures Height(parts[..k]) == (if parts[0] == ".." then -1 else 1) + Height(parts[1..][..k - 1])
  {
    assert parts[..k][1..] == parts[1..][..k - 1];
  }

  /** The walk fails exactly when some prefix of it climbs above the top. */
  lemma {:induction false} CollapseFailsIff(at: Path, parts: seq<string>)
    ensures Collapse(at, parts).None? <==> exists k: nat :: Dips(at, parts, k)
    ensures Collapse(at, parts).Some? ==> |Collapse(at, parts).value| == |at| + Height(parts)
    decreases |parts|
  {
    if parts != [] {
      var next := if parts[0] != ".." then at + [parts[0]] else if at == [] then [] else at[..|at| - 1];
      if parts[0] == ".." && at == [] {
        assert parts[..1] == [parts[0]];
        assert Dips(at, parts, 1);
      } else {
        CollapseFailsIff(next, parts[1..]);
        if k: nat :| Dips(at, parts, k) {
          HeightPrefix(parts, k);
          assert Dips(next, parts[1..], k - 1);
        }
        if k: nat :| Dips(next, parts[1..], k) {
          HeightPrefix(parts, k + 1);
          assert Dips(at, parts, k + 1);
        }
      }
    }
  }

  lemma {:induction false} CollapseIsClean(at: Path, parts: seq<string>)
    requires Clean(at) && AllComponents(parts)
    ensures Collapse(at, parts).Some? ==> Clean(Collapse(at, parts).value)
    decreases |parts|
  {
    if parts != [] {
      if parts[0] != ".." {
        CollapseIsClean(at + [parts[0]], parts[1..]);
      } else if at != [] {
        CollapseIsClean(at[..|at| - 1], parts[1..]);
      }
    }
  }

  // ----- resolution -----

  /** `p` is `root` or lies below it. */
  predicate Under(root: Path, p: Path) {
    root <= p
  }

  /** Collapse, then insist on staying under the root. */
  function Normalized(root: Path, joined: string): (r: Result<Path>)
    ensures r.Ok? ==> Clean(r.value) && Under(root, r.value)
    ensures r.Err? ==> r.errno == -EACCES
  {
    PartsAreComponents(joined);
    CollapseIsClean([], Parts(joined));
    match Collapse([], Parts(joined))
    case None => Err(-EACCES)
    case Some(p) => if Under(root, p) then Ok(p) else Err(-EACCES)
  }

  /** The push-and-pop loop. */
  method Normalize(root: Path, joined: string) returns (r: Result<Path>)
    ensures r == Normalized(root, joined)
  {
    var normalized: Path := [];
    var parts := Parts(joined);
    for i := 0 to |parts|
      invariant Collapse([], parts) == Collapse(normalized, parts[i..])
    {
      assert parts[i..][1..] == parts[i + 1..];
      if parts[i] == ".." {
        if normalized == [] {
          return Err(-EACCES);
        }
        normalized := normalized[..|normalized| - 1];
      } else {
        normalized := normalized + [parts[i]];
      }
    }
    return if Under(root, normalized) then Ok(normalized) else Err(-EACCES);
  }

  function TrimSlashes(s: string): (r: string) {
    if s != "" && s[0] == '/' then TrimSlashes(s[1..]) else s
  }

  function ResolvePath(root: Path, cwd: Path, dirfd: int, path: string): (r: Result<Path>)
    ensures r.Ok? ==> Clean(r.value) && Under(root, r.value)
    ensures r == Err(-ENOSYS) <==> dirfd != AT_FDCWD && (path == "" || path[0] != '/')
  {
    var absolute := path != "" && path[0] == '/';
    if absolute && root <= Parts(path) then Normalized(root, path)
    else if !absolute && dirfd != AT_FDCWD then Err(-ENOSYS)
    else
      var base := if absolute then root else cwd;
      var trimmed := TrimSlashes(path);
      Normalized(root, if trimmed == "" then Render(base) else Join(Render(base), trimmed))
  }

  datatype Entry = File(isDir: bool, path: Option<Path>) | OtherFd

  /** What the descriptor table says about a directory argument. */
  function DirPath(fds: map<nat, Entry>, fd: nat): (r: Result<Path>)
    ensures r.Ok? <==> fd in fds && fds[fd].File? && fds[fd].isDir && fds[fd].path.Some?
    ensures r.Ok? ==> fds[fd].path == Some(r.value)
    ensures r == Err(-EBADF) <==> fd !in fds
    ensures r == Err(-EACCES) <==> fd in fds && fds[fd].File? && fds[fd].isDir && fds[fd].path.None?
  {
    if fd !in fds then Err(-EBADF)
    else match fds[fd]
         case OtherFd => Err(-ENOTDIR)
         case File(isDir, path) => if !isDir then Err(-ENOTDIR) else if path.None? then Err(-EACCES) else Ok(path.value)
  }

  function ResolveViaDirfd(root: Path, cwd: Path, fds: map<nat, Entry>, fd: nat, path: string): (r: Result<Path>)
    ensures r.Ok? ==> Clean(r.value) && Under(root, r.value)
  {
    match DirPath(fds, fd)
    case Err(e) => Err(e)
    case Ok(dir) => ResolvePath(root, cwd, AT_FDCWD, if path == "" then Render(dir) else Join(Render(dir), path))
  }

  /** The entry point of every path-taking call. Descriptor numbers are cut to 32 bits. */
  function Resolve(root: Path, cwd: Path, fds: map<nat, Entry>, dirfd: int, path: string): (r: Result<Path>)
    ensures r.Ok? ==> Clean(r.value) && Under(root, r.value)
  {
    if (path != "" && path[0] == '/') || dirfd == AT_FDCWD then ResolvePath(root, cwd, dirfd, path)
    else if dirfd >= 0 then ResolveViaDirfd(root, cwd, fds, dirfd % U32, path)
    else Err(-ENOSYS)
  }

  // ----- what resolution means -----

  lemma {:induction false} TrimParts(s: string)
    ensures Parts(TrimSlashes(s)) == Parts(s)
  {
    if s != "" && s[0] == '/' {
      TrimParts(s[1..]);
      PartsSlash("", s[1..]);
      assert "" + "/" + s[1..] == s;
    }
  }

  /** Where a walk from `base` along `path` ends, if that is under the root. */
  ghost function Walked(root: Path, base: Path, path: string): Result<Path> {
    match Collapse(base, Parts(path))
    case None => Err(-EACCES)
    case Some(p) => if Under(root, p) then Ok(p) else Err(-EACCES)
  }

  lemma NormalizedJoin(root: Path, base: Path, path: string)
    requires Clean(base)
    ensures Normalized(root, if path == "" then Render(base) else Join(Render(base), path)) == Walked(root, base, path)
  {
    PartsRender(base);
    PartsJoin(base, path);
    CollapseClean([], base);
    assert [] + base == base;
    CollapseConcat([], base, Parts(path));
    if path == "" { assert Parts("") == []; }
  }

  /** Resolution is a walk: from "/" for paths that spell out the root, else from the root or from cwd. */
  lemma ResolveIsWalk(root: Path, cwd: Path, path: string)
    requires Clean(root) && Clean(cwd)
    ensures var absolute := path != "" && path[0] == '/';
            var start := if !absolute then cwd else if root <= Parts(path) then [] else root;
            ResolvePath(root, cwd, AT_FDCWD, path) == Walked(root, start, path)
  {
    var absolute := path != "" && path[0] == '/';
    if !(absolute && root <= Parts(path)) {
      var trimmed := TrimSlashes(path);
      TrimParts(path);
      NormalizedJoin(root, if absolute then root else cwd, trimmed);
    }
  }

  /** Below a root is the root followed by more components. */
  lemma UnderIff(root: Path, p: Path)
    ensures Under(root, p) <==> exists rest: Path :: p == root + rest
  {
    if Under(root, p) { assert p == root + p[|root|..]; }
  }

  /** ".." is the parent, or refused where that would leave the root. */
  lemma ResolveParent(root: Path, cwd: Path)
    requires Clean(root) && Clean(cwd) && cwd != []
    ensures var parent := cwd[..|cwd| - 1];
            ResolvePath(root, cwd, AT_FDCWD, "..") == if Under(root, parent) then Ok(parent) else Err(-EACCES)
  {
    ResolveIsWalk(root, cwd, "..");
    PartsOne("..");
    assert [".."][1..] == [];
  }

  /** A name is a child of the working directory. */
  lemma ResolveChild(root: Path, cwd: Path, name: string)
    requires Clean(root) && Clean(cwd) && Under(root, cwd) && Component(name) && name != ".."
    ensures ResolvePath(root, cwd, AT_FDCWD, name) == Ok(cwd + [name])
  {
    ResolveIsWalk(root, cwd, name);
    PartsOne(name);
    CollapseClean(cwd, [name]);
  }

  /** "/a/../b" is "b" below the root, unless the path spells out the root itself and then leaves it. */
  lemma ResolveUpAndDown(root: Path, cwd: Path, a: string, b: string)
    requires Clean(root) && Clean(cwd) && Clean([a, b])
    ensures ResolvePath(root, cwd, AT_FDCWD, "/" + a + "/" + ".." + "/" + b) ==
            if root == [a] then (if a == b then Ok([b]) else Err(-EACCES)) else Ok(root + [b])
  {
    var path := "/" + a + "/" + ".." + "/" + b;
    PartsUpAndDown(a, b);
    ResolveIsWalk(root, cwd, path);
    assert Component([a, b][0]) && Component([a, b][1]);
    forall at: Path ensures Collapse(at, [a, "..", b]) == Some(at + [b]) {
      CollapseCancel(at, [], a, [b]);
      assert [] + [a, ".."] + [b] == [a, "..", b] && [] + [b] == [b];
      CollapseClean(at, [b]);
    }
    if root <= [a, "..", b] {
      var parts := [a, "..", b];
      assert parts[0] == a && parts[1] == "..";
      assert forall i :: 0 <= i < |root| ==> root[i] == parts[i] && root[i] != "..";
      assert |root| == 1 ==> root == [a];
      assert [] + [b] == [b];
    }
  }

  lemma PartsUpAndDown(a: string, b: string)
    requires Clean([a, b])
    ensures Parts("/" + a + "/" + ".." + "/" + b) == [a, "..", b]
  {
    hide Parts;
    assert Component([a, b][0]) && Component([a, b][1]);
    PartsOne("");
    PartsOne(a);
    PartsOne("..");
    PartsOne(b);
    PartsSlash("", a);
    assert "" + "/" + a == "/" + a;
    PartsSlash("/" + a, "..");
    PartsSlash("/" + a + "/" + "..", b);
  }

  /** Normalizing what normalization returned changes nothing. */
  lemma NormalizeIdempotent(root: Path, joined: string)
    ensures var r := Normalized(root, joined);
            r.Ok? ==> Normalized(root, Render(r.value)) == r
  {
    var r := Normalized(root, joined);
    if r.Ok? {
      PartsRender(r.value);
      CollapseClean([], r.value);
      assert [] + r.value == r.value;
    }
  }

  /** A resolved path, handed back as a string, resolves to itself from anywhere. */
  lemma ResolveIdempotent(root: Path, cwd: Path, dirfd: int, path: string, fds: map<nat, Entry>, dirfd': int,
                          cwd': Path)
    ensures var r := Resolve(root, cwd, fds, dirfd, path);
            r.Ok? ==> Resolve(root, cwd', fds, dirfd', Render(r.value)) == r
  {
    var r := Resolve(root, cwd, fds, dirfd, path);
    if r.Ok? {
      PartsRender(r.value);
      CollapseClean([], r.value);
      assert [] + r.value == r.value;
    }
  }

  /**
   A directory descriptor under the root works like changing into the directory: same path or same
   error for every path string.
   */
  lemma DirfdIsChdir(root: Path, cwd: Path, fds: map<nat, Entry>, fd: nat, path: string)
    requires Clean(root) && fd < U32 && DirPath(fds, fd).Ok?
    requires Clean(DirPath(fds, fd).value) && Under(root, DirPath(fds, fd).value)
    ensures Resolve(root, cwd, fds, fd, path) == Resolve(root, DirPath(fds, fd).value, fds, AT_FDCWD, path)
  {
    var dir := DirPath(fds, fd).value;
    if path == "" || path[0] != '/' {
      assert fd % U32 == fd;
      DirWalk(root, cwd, dir, path);
      assert ResolveViaDirfd(root, cwd, fds, fd, path) == Walked(root, dir, path);
      ResolveIsWalk(root, dir, path);
    }
  }

  lemma DirWalk(root: Path, cwd: Path, dir: Path, path: string)
    requires Clean(dir) && Under(root, dir)
    ensures var joined := if path == "" then Render(dir) else Join(Render(dir), path);
            ResolvePath(root, cwd, AT_FDCWD, joined) == Walked(root, dir, path)
  {
    PartsRender(dir);
    PartsJoin(dir, path);
    NormalizedJoin(root, dir, path);
  }

  /**
   A relative path through a descriptor: EBADF means that the descriptor is closed, ENOTDIR that it is
   not a directory, and nothing but EACCES can go wrong otherwise.
   */
  lemma DirfdErrors(root: Path, cwd: Path, fds: map<nat, Entry>, dirfd: nat, path: string)
    requires path == "" || path[0] != '/'
    ensures var r, fd := Resolve(root, cwd, fds, dirfd, path), dirfd % U32;
            && (r == Err(-EBADF) <==> fd !in fds)
            && (r == Err(-ENOTDIR) <==> fd in fds && !(fds[fd].File? && fds[fd].isDir))
            && (r.Ok? || r.errno in {-EBADF, -ENOTDIR, -EACCES})
            && (r.Ok? ==> fd in fds && fds[fd].File? && fds[fd].isDir && fds[fd].path.Some?)
  {
    var fd := dirfd % U32;
    if DirPath(fds, fd).Ok? {
      var dir := DirPath(fds, fd).value;
      var joined := if path == "" then Render(dir) else Join(Render(dir), path);
      assert ResolvePath(root, cwd, AT_FDCWD, joined).Ok? || ResolvePath(root, cwd, AT_FDCWD, joined) == Err(-EACCES);
    }
  }

  /** A directory opened before a `chroot`, and now outside, is looked up again below the new root. */
  lemma OldDirIsRerooted(root: Path, cwd: Path, dir: Path, path: string)
    requires Clean(root) && Clean(cwd) && Clean(dir) && !(root <= dir + Parts(path))
    ensures var joined := if path == "" then Render(dir) else Join(Render(dir), path);
            ResolvePath(root, cwd, AT_FDCWD, joined) == Walked(root, root + dir, path)
  {
    var joined := if path == "" then Render(dir) else Join(Render(dir), path);
    PartsRender(dir);
    PartsJoin(dir, path);
    assert Parts(joined) == dir + Parts(path);
    ResolveIsWalk(root, cwd, joined);
    CollapseClean(root, dir);
    CollapseConcat(root, dir, Parts(path));
  }

  // ----- the process -----

  class Process {
    var root: Path
    var cwd: Path
    var fds: map<nat, Entry>
    var nextFd: nat
    /** Every root so far, oldest first. */
    ghost var roots: seq<Path>

    /** Roots only narrow; the working directory is under the root; open files are under the first root. */
    ghost predicate Valid()
      reads this
    {
      && roots != [] && roots[|roots| - 1] == root && Clean(root)
      && (forall i, j :: 0 <= i <= j < |roots| ==> Under(roots[i], roots[j]))
      && Clean(cwd) && Under(root, cwd)
      && (forall fd :: fd in fds ==> fd < nextFd && OpenedUnder(roots[0], fds[fd]))
    }

    constructor (preopen: Path)
      requires Clean(preopen)
      ensures Valid() && root == preopen && cwd == preopen && roots == [preopen] && fds == map[] && nextFd == 3
    {
      root, cwd, fds, nextFd, roots := preopen, preopen, map[], 3, [preopen];
    }

    /** `openat`: `host` says whether the path opens, and whether it is a directory. */
    method OpenAt(dirfd: int, path: string, host: Path -> Result<bool>) returns (r: int)
      requires Valid()
      modifies this`fds, this`nextFd
      ensures Valid()
      ensures var abs := Resolve(root, cwd, old(fds), dirfd, path);
              if abs.Err? then r == abs.errno && fds == old(fds) && nextFd == old(nextFd)
              else if host(abs.value).Err? then r == host(abs.value).errno && fds == old(fds) && nextFd == old(nextFd)
              else
                && Under(roots[0], abs.value) && r == old(nextFd) && r !in old(fds) && nextFd == r + 1
                && fds == old(fds)[r := File(host(abs.value).value, Some(abs.value))]
    {
      var abs := Resolve(root, cwd, fds, dirfd, path);
      if abs.Err? {
        return abs.errno;
      }
      var answer := host(abs.value);
      if answer.Err? {
        return answer.errno;
      }
      r := nextFd;
      nextFd := nextFd + 1;
      fds := fds[r := File(answer.value, Some(abs.value))];
    }

    method Close(fd: nat) returns (r: int)
      requires Valid()
      modifies this`fds
      ensures Valid()
      ensures fds == old(fds) - {fd} && r == if fd in old(fds) then 0 else -EBADF
    {
      r := if fd in fds then 0 else -EBADF;
      fds := fds - {fd};
    }

    /** `chdir`: `host` says whether the path exists, and whether it is a directory. */
    method Chdir(path: string, host: Path -> Result<bool>) returns (r: int)
      requires Valid() && HostOk(host)
      modifies this`cwd
      ensures Valid()
      ensures path == "" ==> r == -ENOENT
      ensures path != "" ==>
                match Resolve(root, old(cwd), fds, AT_FDCWD, path)
                case Err(e) => r == e
                case Ok(abs) =>
                  match host(abs)
                  case Err(e) => r == e
                  case Ok(isDir) => r == if isDir then 0 else -ENOTDIR
      ensures r == 0 ==> Resolve(root, old(cwd), fds, AT_FDCWD, path) == Ok(cwd) && host(cwd) == Ok(true)
      ensures r != 0 ==> cwd == old(cwd)
    {
      if path == "" {
        return -ENOENT;
      }
      var abs := Resolve(root, cwd, fds, AT_FDCWD, path);
      if abs.Err? {
        return abs.errno;
      }
      if !Under(root, abs.value) {
        return -EACCES;
      }
      var meta := host(abs.value);
      if meta.Err? {
        return meta.errno;
      }
      if !meta.value {
        return -ENOTDIR;
      }
      cwd := abs.value;
      return 0;
    }

    /** `chroot`: the new root lies under every root before it. */
    method Chroot(path: string, host: Path -> Result<bool>) returns (r: int)
      requires Valid() && HostOk(host)
      modifies this`root, this`cwd, this`roots
      ensures Valid()
      ensures path == "" ==> r == -ENOENT
      ensures path != "" ==>
                match Resolve(old(root), old(cwd), fds, AT_FDCWD, path)
                case Err(e) => r == e
                case Ok(abs) =>
                  match host(abs)
                  case Err(e) => r == e
                  case Ok(isDir) => r == if isDir then 0 else -ENOTDIR
      ensures r == 0 ==>
                && Resolve(old(root), old(cwd), fds, AT_FDCWD, path) == Ok(root) && host(root) == Ok(true)
                && cwd == root && roots == old(roots) + [root] && Under(old(root), root)
      ensures r != 0 ==> root == old(root) && cwd == old(cwd) && roots == old(roots)
    {
      if path == "" {
        return -ENOENT;
      }
      var abs := Resolve(root, cwd, fds, AT_FDCWD, path);
      if abs.Err? {
        return abs.errno;
      }
      var meta := host(abs.value);
      if meta.Err? {
        return meta.errno;
      }
      if !meta.value {
        return -ENOTDIR;
      }
      root, cwd, roots := abs.value, abs.value, roots + [abs.value];
      return 0;
    }

    /** Any path-taking call, with any descriptor, stays under every root the process ever had. */
    method ResolveAny(dirfd: int, path: string) returns (r: Result<Path>)
      requires Valid()
      ensures r == Resolve(root, cwd, fds, dirfd, path)
      ensures r.Ok? ==> Clean(r.value) && forall i :: 0 <= i < |roots| ==> Under(roots[i], r.value)
    {
      r := Resolve(root, cwd, fds, dirfd, path);
    }
  }

  ghost predicate OpenedUnder(origin: Path, e: Entry) {
    e.File? && e.path.Some? ==> Clean(e.path.value) && Under(origin, e.path.value)
  }

  /** Host errors are negative. */
  ghost predicate HostOk(host: Path -> Result<bool>) {
    forall p :: host(p).Err? ==> host(p).errno < 0
  }
}
