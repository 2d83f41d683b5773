/** Path strings as the VFS layer (kernel/src/fs/mod.rs) takes them apart:
    `str::split('/')`, which `resolve_path` walks, and `split_path`, which
    `mkdir`, `create` and `remove` use to find the parent directory. */
module VfsPath {
  import opened Common

  const SLASH: char := '/'

  /** `s.split('/')`: the pieces between slashes, empty pieces included;
      there is always at least one. */
  function Split(s: string): (r: seq<string>)
    ensures |r| >= 1
    decreases |s|
  {
    if s == [] then [""]
    else if s[0] == SLASH then [""] + Split(s[1..])
    else
      var rest := Split(s[1..]);
      [[s[0]] + rest[0]] + rest[1..]
  }

  /** The pieces put back together with a slash between each two. */
  function Join(cs: seq<string>): string
    requires |cs| >= 1
  {
    if |cs| == 1 then cs[0] else cs[0] + [SLASH] + Join(cs[1..])
  }

  predicate NoSlash(c: string) { SLASH !in c }

  predicate AllNoSlash(cs: seq<string>)
  {
    forall k :: 0 <= k < |cs| ==> NoSlash(cs[k])
  }

  /** No piece of a split holds a slash. */
  lemma {:induction false} SplitNoSlash(s: string)
    ensures AllNoSlash(Split(s))
    decreases |s|
  {
    if s != [] {
      SplitNoSlash(s[1..]);
      if s[0] != SLASH {
        var rest := Split(s[1..]);
        assert Split(s)[1..] == rest[1..];
        assert NoSlash(rest[0]);
      }
    }
  }

  /** Joining the pieces of a split gives the string back. */
  lemma {:induction false} JoinSplit(s: string)
    ensures Join(Split(s)) == s
    decreases |s|
  {
    if s != [] {
      JoinSplit(s[1..]);
      var rest := Split(s[1..]);
      if s[0] == SLASH {
        assert Split(s)[1..] == rest;
        assert s == [SLASH] + s[1..];
      } else {
        var r := Split(s);
        if |rest| == 1 {
          assert s == [s[0]] + s[1..];
        } else {
          assert r[1..] == rest[1..];
          assert Join(rest) == rest[0] + [SLASH] + Join(rest[1..]);
          assert s == [s[0]] + s[1..];
        }
      }
    }
  }

  /** Splitting a string that starts with a piece without slashes: the
      first piece is split off whole. */
  lemma {:induction false} SplitPrefix(c: string, tail: string)
    requires NoSlash(c)
    ensures Split(c + [SLASH] + tail) == [c] + Split(tail)
    ensures Split(c) == [c]
    decreases |c|
  {
    if c == [] {
      assert c + [SLASH] + tail == [SLASH] + tail;
      assert ([SLASH] + tail)[1..] == tail;
    } else {
      SplitPrefix(c[1..], tail);
      var s := c + [SLASH] + tail;
      assert s[1..] == c[1..] + [SLASH] + tail;
      assert [c[0]] + c[1..] == c;
    }
  }

  /** Splitting joined pieces without slashes gives the pieces back. */
  lemma {:induction false} SplitJoin(cs: seq<string>)
    requires |cs| >= 1 && AllNoSlash(cs)
    ensures Split(Join(cs)) == cs
  {
    if |cs| == 1 {
      SplitPrefix(cs[0], "");
    } else {
      SplitJoin(cs[1..]);
      SplitPrefix(cs[0], Join(cs[1..]));
    }
  }

  /** Joining one more piece adds a slash and the piece. */
  lemma {:induction false} JoinSnoc(cs: seq<string>, c: string)
    requires |cs| >= 1
    ensures Join(cs + [c]) == Join(cs) + [SLASH] + c
  {
    if |cs| > 1 {
      JoinSnoc(cs[1..], c);
      assert (cs + [c])[1..] == cs[1..] + [c];
    }
  }

  /** `rfind('/')`: the position of the last slash, if any. */
  function LastSlash(s: string): (r: Option<nat>)
    ensures r.None? <==> SLASH !in s
    ensures r.Some? ==> r.value < |s| && s[r.value] == SLASH && SLASH !in s[r.value + 1..]
  {
    if s == [] then None
    else if s[|s| - 1] == SLASH then
      assert s[|s|..] == [];
      Some(|s| - 1)
    else
      var r := LastSlash(s[..|s| - 1]);
      assert s == s[..|s| - 1] + [s[|s| - 1]];
      if r.Some? then
        assert s[r.value + 1..] == s[..|s| - 1][r.value + 1..] + [s[|s| - 1]];
        r
      else r
  }

  /** `split_path`: the parent directory and the last name. A last slash at
      position 0 makes the parent "/"; a path without a slash is taken
      relative to ".". */
  function SplitPath(path: string): (r: (string, string))
  {
    match LastSlash(path)
    case None => (".", path)
    case Some(pos) => if pos == 0 then ("/", path[1..]) else (path[..pos], path[pos + 1..])
  }

  /** The name `split_path` returns holds no slash, and the parent, a slash
      and the name rebuild the path (a parent of "/" may stand for a
      leading slash that is already counted). */
  lemma SplitPathRejoin(path: string)
    ensures NoSlash(SplitPath(path).1)
    ensures SLASH !in path ==> SplitPath(path) == (".", path)
    ensures SLASH in path ==>
      var (parent, name) := SplitPath(path);
      path == parent + [SLASH] + name || (parent == "/" && path == [SLASH] + name)
  {
    match LastSlash(path)
    case None =>
    case Some(pos) =>
      assert path == path[..pos] + [SLASH] + path[pos + 1..];
  }

  /** A path made of a parent, a slash and a name without slashes splits
      back into that parent and name. */
  lemma SplitPathOfJoin(parent: string, name: string)
    requires parent != [] && NoSlash(name)
    ensures SplitPath(parent + [SLASH] + name) == (parent, name)
  {
    var path := parent + [SLASH] + name;
    var pos := |parent|;
    assert path[pos] == SLASH;
    assert path[pos + 1..] == name;
    var l := LastSlash(path);
    assert l.Some?;
    assert forall j :: pos < j < |path| ==> path[j] == name[j - pos - 1];
    assert forall j :: l.value < j < |path| ==> path[j] == path[l.value + 1..][j - l.value - 1];
    assert l.value == pos;
    assert path[..pos] == parent;
  }
}
