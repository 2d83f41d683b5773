/** Path resolution and the mount table of the VFS layer
    (kernel/src/fs/mod.rs): `resolve_path`, `lookup`, `mount` and
    `umount`. Inodes are of any type `N`; what an inode's `lookup` answers
    is the function `lk`. */
module VfsResolve {
  import opened Common
  import opened VfsPath

  const NO_PARENT_MSG: string := "No parent"
  const NOT_FOUND_MSG: string := "Not found"
  const EMPTY_PATH_MSG: string := "Empty path"
  const NOT_INITIALIZED_MSG: string := "VFS not initialized"
  const NO_MOUNT_MSG: string := "Mount point not found"

  /** Components `resolve_path` steps over: empty ones (from repeated or
      trailing slashes) and ".". */
  predicate Skipped(c: string) { c == "" || c == "." }

  /** The loop of `resolve_path` over the components: each one that is not
      skipped is looked up in the current inode; a lookup that finds
      nothing ends the walk with "No parent" for ".." and "Not found"
      otherwise; a lookup error ends it with that error. */
  function Walk<N>(cur: N, comps: seq<string>, lk: (N, string) -> Result<Option<N>>): Result<N>
    decreases |comps|
  {
    if comps == [] then Ok(cur)
    else if Skipped(comps[0]) then Walk(cur, comps[1..], lk)
    else
      match lk(cur, comps[0])
      case Err(e) => Err(e)
      case Ok(None) => Err(if comps[0] == ".." then NO_PARENT_MSG else NOT_FOUND_MSG)
      case Ok(Some(n)) => Walk(n, comps[1..], lk)
  }

  /** `resolve_path(start, path)`: only the components that are not
      skipped are looked up, so a path with none resolves to its start. */
  function ResolvePath<N>(start: N, path: string, lk: (N, string) -> Result<Option<N>>): (r: Result<N>)
    ensures r == Walk(start, Meaningful(Split(path)), lk)
    ensures Meaningful(Split(path)) == [] ==> r == Ok(start)
  {
    WalkMeaningful(start, Split(path), lk);
    Walk(start, Split(path), lk)
  }

  /** The components that are looked up, in order. */
  function Meaningful(comps: seq<string>): (r: seq<string>)
    ensures |r| <= |comps|
    ensures forall k :: 0 <= k < |r| ==> !Skipped(r[k]) && r[k] in comps
  {
    if comps == [] then []
    else if Skipped(comps[0]) then Meaningful(comps[1..])
    else [comps[0]] + Meaningful(comps[1..])
  }

  // ---------------------------------------------------------------------
  // Properties of resolution

  /** Walking a path in two pieces is walking the first, then the second
      from where the first ended; an error in the first piece is final. */
  lemma {:induction false} WalkAppend<N>(cur: N, a: seq<string>, b: seq<string>, lk: (N, string) -> Result<Option<N>>)
    ensures Walk(cur, a + b, lk) == match Walk(cur, a, lk) case Ok(n) => Walk(n, b, lk) case Err(e) => Err(e)
    decreases |a|
  {
    if a == [] {
      assert a + b == b;
    } else {
      assert (a + b)[0] == a[0] && (a + b)[1..] == a[1..] + b;
      if Skipped(a[0]) {
        WalkAppend(cur, a[1..], b, lk);
      } else if lk(cur, a[0]).Ok? && lk(cur, a[0]).value.Some? {
        WalkAppend(lk(cur, a[0]).value.value, a[1..], b, lk);
      }
    }
  }

  /** Empty and "." components make no difference: the walk is the walk
      over the remaining names. */
  lemma {:induction false} WalkMeaningful<N>(cur: N, comps: seq<string>, lk: (N, string) -> Result<Option<N>>)
    ensures Walk(cur, comps, lk) == Walk(cur, Meaningful(comps), lk)
    decreases |comps|
  {
    if comps != [] {
      if Skipped(comps[0]) {
        WalkMeaningful(cur, comps[1..], lk);
      } else {
        var m := Meaningful(comps);
        assert m[0] == comps[0] && m[1..] == Meaningful(comps[1..]);
        if lk(cur, comps[0]).Ok? && lk(cur, comps[0]).value.Some? {
          WalkMeaningful(lk(cur, comps[0]).value.value, comps[1..], lk);
        }
      }
    }
  }

  /** A path of nothing but slashes and "." resolves to where it starts. */
  lemma OnlySkippedStays<N>(start: N, path: string, lk: (N, string) -> Result<Option<N>>)
    requires forall k :: 0 <= k < |Split(path)| ==> Skipped(Split(path)[k])
    ensures ResolvePath(start, path, lk) == Ok(start)
  {
    var comps := Split(path);
    WalkMeaningful(start, comps, lk);
    NoneMeaningful(comps);
  }

  lemma {:induction false} NoneMeaningful(comps: seq<string>)
    requires forall k :: 0 <= k < |comps| ==> Skipped(comps[k])
    ensures Meaningful(comps) == []
    decreases |comps|
  {
    if comps != [] {
      NoneMeaningful(comps[1..]);
    }
  }

  /** A single name is one lookup: what it finds, or the error for finding
      nothing. */
  lemma ResolveName<N>(start: N, name: string, lk: (N, string) -> Result<Option<N>>)
    requires NoSlash(name) && !Skipped(name)
    ensures ResolvePath(start, name, lk) ==
      match lk(start, name)
      case Err(e) => Err(e)
      case Ok(None) => Err(if name == ".." then NO_PARENT_MSG else NOT_FOUND_MSG)
      case Ok(Some(n)) => Ok(n)
  {
    SplitPrefix(name, "");
    var comps := Split(name);
    assert comps == [name] && comps[0] == name && comps[1..] == [];
    match lk(start, name)
    case Err(e) =>
    case Ok(None) =>
    case Ok(Some(n)) =>
      assert Walk(n, comps[1..], lk) == Ok(n);
  }

  /** On a filesystem whose inodes answer ".." with nothing (CottonFS and
      DevFS leave ".." to the VFS, which does not handle it), a ".."
      reached in a path fails with "No parent". */
  lemma DotDotHasNoParent<N>(start: N, a: seq<string>, b: seq<string>, lk: (N, string) -> Result<Option<N>>)
    requires Walk(start, a, lk).Ok? && lk(Walk(start, a, lk).value, "..") == Ok(None)
    ensures Walk(start, a + [".."] + b, lk) == Err(NO_PARENT_MSG)
  {
    WalkAppend(start, a, [".."] + b, lk);
    assert a + [".."] + b == a + ([".."] + b);
  }

  /** Resolution depends on the inodes' lookups only: two filesystems that
      answer every lookup alike resolve every path alike. */
  lemma {:induction false} WalkSameLookups<N>(cur: N, comps: seq<string>,
                                              lk1: (N, string) -> Result<Option<N>>,
                                              lk2: (N, string) -> Result<Option<N>>)
    requires forall n: N, c: string :: lk1(n, c) == lk2(n, c)
    ensures Walk(cur, comps, lk1) == Walk(cur, comps, lk2)
    decreases |comps|
  {
    if comps != [] {
      if Skipped(comps[0]) {
        WalkSameLookups(cur, comps[1..], lk1, lk2);
      } else if lk1(cur, comps[0]).Ok? && lk1(cur, comps[0]).value.Some? {
        WalkSameLookups(lk1(cur, comps[0]).value.value, comps[1..], lk1, lk2);
      }
    }
  }

  // ---------------------------------------------------------------------
  // The mount table

  datatype Mount<N> = Mount(path: string, root: N)

  /** `lookup`'s test of a mount point against a path: the mount's path is
      a prefix ending at the end of the path or at a slash. The path "/"
      itself never reaches this test. */
  predicate Covers(mp: string, path: string)
  {
    && |mp| <= |path| && path[..|mp|] == mp && path != "/"
    && (|mp| == |path| || path[|mp|] == SLASH)
  }

  /** The mount `lookup` uses for `path`: it scans the table from the most
      recently added entry, so the answer is the last covering mount. */
  function LastCovering<N>(ms: seq<Mount<N>>, path: string): (r: Option<nat>)
    ensures r.None? <==> forall j :: 0 <= j < |ms| ==> !Covers(ms[j].path, path)
    ensures r.Some? ==> r.value < |ms| && Covers(ms[r.value].path, path)
    ensures r.Some? ==> forall j :: r.value < j < |ms| ==> !Covers(ms[j].path, path)
  {
    if ms == [] then None
    else if Covers(ms[|ms| - 1].path, path) then Some(|ms| - 1)
    else
      var r := LastCovering(ms[..|ms| - 1], path);
      assert forall j :: 0 <= j < |ms| - 1 ==> ms[..|ms| - 1][j] == ms[j];
      r
  }

  /** `lookup(path)`, given the VFS root (absent before `init`) and the
      mount table. After the mount scan the path is resolved from the root
      without its first character, which for an absolute path is the
      leading slash. */
  function Lookup<N>(root: Option<N>, ms: seq<Mount<N>>, path: string, lk: (N, string) -> Result<Option<N>>): (r: Result<N>)
    ensures path == "" ==> r == Err(EMPTY_PATH_MSG)
    ensures path != "" && root.None? ==> r == Err(NOT_INITIALIZED_MSG)
    ensures path == "/" && root.Some? ==> r == Ok(root.value)
  {
    if path == "" then Err(EMPTY_PATH_MSG)
    else if root.None? then Err(NOT_INITIALIZED_MSG)
    else if path == "/" then Ok(root.value)
    else
      match LastCovering(ms, path)
      case Some(i) =>
        var rest := path[|ms[i].path|..];
        if rest == "" || rest == "/" then Ok(ms[i].root)
        else ResolvePath(ms[i].root, rest[1..], lk)
      case None => ResolvePath(root.value, path[1..], lk)
  }

  /** `mount(path, fs)`: the new mount goes at the end of the table. */
  function AddMount<N>(ms: seq<Mount<N>>, path: string, root: N): (r: seq<Mount<N>>)
    ensures |r| == |ms| + 1 && r[..|ms|] == ms && r[|ms|] == Mount(path, root)
  {
    ms + [Mount(path, root)]
  }

  /** The first mount with exactly this path. */
  function FirstWithPath<N>(ms: seq<Mount<N>>, path: string): (r: Option<nat>)
    ensures r.None? <==> forall j :: 0 <= j < |ms| ==> ms[j].path != path
    ensures r.Some? ==> r.value < |ms| && ms[r.value].path == path
    ensures r.Some? ==> forall j :: 0 <= j < r.value ==> ms[j].path != path
  {
    if ms == [] then None
    else if ms[0].path == path then Some(0)
    else
      var r := FirstWithPath(ms[1..], path);
      if r.Some? then Some(r.value + 1) else None
  }

  /** `umount(path)`: the first mount with that path is removed; without
      one the result is "Mount point not found". */
  function Umount<N>(ms: seq<Mount<N>>, path: string): (r: Result<seq<Mount<N>>>)
    ensures r.Err? <==> forall j :: 0 <= j < |ms| ==> ms[j].path != path
    ensures r.Err? ==> r.msg == NO_MOUNT_MSG
    ensures r.Ok? ==> |r.value| == |ms| - 1
  {
    match FirstWithPath(ms, path)
    case None => Err(NO_MOUNT_MSG)
    case Some(i) => Ok(ms[..i] + ms[i + 1..])
  }

  // ---------------------------------------------------------------------
  // Properties of the mount table

  /** After mounting at `p`, `p` itself names the mounted root and every
      path below `p` is resolved from that root, whatever was mounted
      before. */
  lemma MountThenLookup<N>(root: N, ms: seq<Mount<N>>, p: string, r: N, rest: string,
                           lk: (N, string) -> Result<Option<N>>)
    requires p != "" && p != "/"
    ensures Lookup(Some(root), AddMount(ms, p, r), p, lk) == Ok(r)
    ensures Lookup(Some(root), AddMount(ms, p, r), p + [SLASH] + rest, lk) == ResolvePath(r, rest, lk)
  {
    var ms' := AddMount(ms, p, r);
    assert p[..|p|] == p;
    assert Covers(p, p);
    var q := p + [SLASH] + rest;
    assert q[..|p|] == p && q[|p|] == SLASH;
    assert q != "/";
    assert Covers(p, q);
    assert LastCovering(ms', q) == Some(|ms|);
    var tail := q[|p|..];
    assert tail == [SLASH] + rest && tail[1..] == rest;
    if tail == "/" {
      assert rest == "";
      assert Split(rest) == [""];
    }
  }

  /** Only the position of the first mount with the path matters: `umount`
      leaves the table as it was before the mount. */
  lemma UmountAfterMount<N>(ms: seq<Mount<N>>, p: string, r: N)
    requires forall j :: 0 <= j < |ms| ==> ms[j].path != p
    ensures Umount(AddMount(ms, p, r), p) == Ok(ms)
  {
    var ms' := AddMount(ms, p, r);
    assert FirstWithPath(ms', p) == Some(|ms|);
    assert ms'[..|ms|] + ms'[|ms| + 1..] == ms;
  }

  /** With the same root and mounts, lookups that agree everywhere give
      the same `lookup` of every path. */
  lemma LookupSameLookups<N>(root: Option<N>, ms: seq<Mount<N>>, path: string,
                             lk1: (N, string) -> Result<Option<N>>,
                             lk2: (N, string) -> Result<Option<N>>)
    requires forall n: N, c: string :: lk1(n, c) == lk2(n, c)
    ensures Lookup(root, ms, path, lk1) == Lookup(root, ms, path, lk2)
  {
    if path != "" && root.Some? && path != "/" {
      var i := LastCovering(ms, path);
      if i.Some? {
        var rest := path[|ms[i.value].path|..];
        if !(rest == "" || rest == "/") {
          WalkSameLookups(ms[i.value].root, Split(rest[1..]), lk1, lk2);
        }
      } else {
        WalkSameLookups(root.value, Split(path[1..]), lk1, lk2);
      }
    }
  }
}
