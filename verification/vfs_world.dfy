/** The VFS layer over the filesystems it mounts (kernel/src/fs/mod.rs):
    the RAM filesystem as the root filesystem (the one `init` picks when
    no disk is found) and the device filesystem, the path-level operations
    `read_file`, `write_file`, `create`, `mkdir`, `remove`, `readdir` and
    `stat`, and open file descriptors. An inode is named by `Node`; the
    `dyn Inode` dispatch is the `match` on it. */
module VfsWorld {
  import opened Common
  import Vfs
  import FileData
  import RamFs
  import DevFs
  import SortedMap
  import opened VfsPath
  import opened VfsResolve

  datatype Node = Ram(h: RamFs.Handle) | DevRoot | Dev(i: DevFs.DevInode)

  /** The VFS globals (`VFS_ROOT`, `MOUNTS`), the filesystems' contents and
      the /dev/random seed. */
  datatype World = World(
    ram: RamFs.RamFs,
    dev: DevFs.DevFs,
    devState: DevFs.DevState,
    root: Option<Node>,
    mounts: seq<Mount<Node>>)

  predicate NodeIn(w: World, n: Node)
  {
    n.Ram? ==> RamFs.IsHandle(w.ram, n.h)
  }

  /** The RAM filesystem is well formed and every inode the VFS holds is in
      it. */
  ghost predicate WorldOk(w: World)
  {
    && RamFs.Valid(w.ram)
    && (w.root.Some? ==> NodeIn(w, w.root.value))
    && forall j :: 0 <= j < |w.mounts| ==> NodeIn(w, w.mounts[j].root)
  }

  /** The state `init` leaves when no disk is found, before it creates the
      standard directories: the RAM filesystem as root, mounted at "/",
      and devfs mounted at "/dev". */
  function Boot(): (w: World)
  {
    World(RamFs.New(), DevFs.New(), DevFs.InitialState(), Some(Ram(RamFs.ROOT)),
          [Mount("/", Ram(RamFs.ROOT)), Mount("/dev", DevRoot)])
  }

  lemma BootOk()
    ensures WorldOk(Boot())
  {
    RamFs.NewValid();
  }

  // ---------------------------------------------------------------------
  // Dispatch to the inode's filesystem

  /** `Inode::lookup` on any inode. Device inodes keep the trait's default
      ("Not a directory"). A handle outside the store, which `WorldOk`
      rules out, answers the same. */
  function NodeLookup(w: World, n: Node, name: string): (r: Result<Option<Node>>)
    ensures n.Ram? && RamFs.IsHandle(w.ram, n.h) ==>
      var x := RamFs.Lookup(w.ram, n.h, name);
      && (r.Err? <==> x.Err?)
      && (r.Ok? ==> (r.value.Some? <==> x.value.Some?) && (r.value.Some? ==> r.value.value == Ram(x.value.value)))
    ensures n.DevRoot? ==>
      var x := DevFs.Lookup(w.dev, name);
      r.Ok? && (r.value.Some? <==> x.value.Some?) && (r.value.Some? ==> r.value.value == Dev(x.value.value))
    ensures n.Dev? ==> r == Err(Vfs.NOT_DIRECTORY_MSG)
  {
    match n
    case Ram(h) =>
      if !RamFs.IsHandle(w.ram, h) then Err(Vfs.NOT_DIRECTORY_MSG)
      else
        var r := RamFs.Lookup(w.ram, h, name);
        if r.Err? then Err(r.msg) else if r.value.None? then Ok(None) else Ok(Some(Ram(r.value.value)))
    case DevRoot =>
      var r := DevFs.Lookup(w.dev, name);
      if r.value.None? then Ok(None) else Ok(Some(Dev(r.value.value)))
    case Dev(_) => Err(Vfs.NOT_DIRECTORY_MSG)
  }

  function Lk(w: World): (Node, string) -> Result<Option<Node>>
  {
    (n: Node, name: string) => NodeLookup(w, n, name)
  }

  /** The VFS `lookup(path)` in this world: every inode it returns is in
      the store. */
  function LookupPath(w: World, path: string): (r: Result<Node>)
    ensures path == "" ==> r == Err(VfsResolve.EMPTY_PATH_MSG)
    ensures WorldOk(w) && r.Ok? ==> NodeIn(w, r.value)
  {
    ResolveIn(w, path);
    VfsResolve.Lookup(w.root, w.mounts, path, Lk(w))
  }

  /** `Inode::stat`. */
  function NodeStat(w: World, n: Node): (r: Result<Vfs.Stat>)
    requires WorldOk(w) && NodeIn(w, n)
    ensures r.Ok?
    ensures n.Ram? ==> r == RamFs.Stat(w.ram, n.h)
    ensures n.DevRoot? ==> r.value == DevFs.DirStat()
    ensures n.Dev? ==> r.value == DevFs.DeviceStat(n.i)
  {
    match n
    case Ram(h) => RamFs.Stat(w.ram, h)
    case DevRoot => Ok(DevFs.DirStat())
    case Dev(i) => Ok(DevFs.DeviceStat(i))
  }

  /** `Inode::file_type`: a RAM inode's recorded type; the devfs directory
      is a directory and every device a character device. */
  function NodeType(w: World, n: Node): (t: Vfs.FileType)
    requires NodeIn(w, n)
    ensures t == Vfs.Regular ==> n.Ram?
    ensures t == Vfs.Directory ==> n.Ram? || n.DevRoot?
  {
    match n
    case Ram(h) => w.ram.nodes[h].fileType
    case DevRoot => Vfs.Directory
    case Dev(_) => Vfs.CharDevice
  }

  /** `Inode::read`: the new world (only /dev/random changes it), and the
      count with the buffer afterwards. The devfs directory keeps the
      trait's default. */
  function NodeRead(w: World, n: Node, offset: u64, buf: seq<byte>): (r: (World, Result<(nat, seq<byte>)>))
    requires NodeIn(w, n)
    ensures r.1.Ok? ==> r.1.value.0 <= |buf| && |r.1.value.1| == |buf|
    ensures !(n.Dev? && n.i.device == DevFs.Random) ==> r.0 == w
    ensures n.Ram? ==> r.1 == RamFs.Read(w.ram, n.h, offset, buf)
    ensures n.DevRoot? ==> r.1 == Err(Vfs.NOT_REGULAR_MSG)
  {
    match n
    case Ram(h) => (w, RamFs.Read(w.ram, h, offset, buf))
    case DevRoot => (w, Err(Vfs.NOT_REGULAR_MSG))
    case Dev(i) =>
      var d := DevFs.Read(w.devState, i.device, offset, buf);
      (w.(devState := d.0), Ok((d.1, d.2)))
  }

  /** `Inode::write`. Writes that would grow a RAM file past `isize::MAX`
      bytes abort and are excluded. */
  function NodeWrite(w: World, n: Node, offset: u64, buf: seq<byte>): (r: (World, Result<nat>))
    requires NodeIn(w, n) && offset + |buf| < RamFs.MAX_FILE_LEN
    ensures r.1.Ok? ==> r.1.value == |buf|
    ensures !n.Ram? ==> r.0 == w
    ensures n.Ram? ==> var x := RamFs.Write(w.ram, n.h, offset, buf); r == (w.(ram := x.0), x.1)
    ensures n.DevRoot? ==> r.1 == Err(Vfs.NOT_REGULAR_MSG)
    ensures n.Dev? ==> r.1 == Ok(|buf|)
  {
    match n
    case Ram(h) =>
      var x := RamFs.Write(w.ram, h, offset, buf);
      (w.(ram := x.0), x.1)
    case DevRoot => (w, Err(Vfs.NOT_REGULAR_MSG))
    case Dev(i) => (w, Ok(DevFs.Write(i.device, offset, buf)))
  }

  /** `Inode::truncate`; devfs inodes keep the trait's default. */
  function NodeTruncate(w: World, n: Node, size: u64): (r: (World, Outcome))
    requires NodeIn(w, n) && size < RamFs.MAX_FILE_LEN
    ensures !n.Ram? ==> r == (w, Vfs.DefaultResult(Vfs.Truncate))
    ensures n.Ram? ==> var x := RamFs.Truncate(w.ram, n.h, size); r == (w.(ram := x.0), x.1)
  {
    match n
    case Ram(h) =>
      var x := RamFs.Truncate(w.ram, h, size);
      (w.(ram := x.0), x.1)
    case _ => (w, Vfs.DefaultResult(Vfs.Truncate))
  }

  /** `Inode::sync`: no inode here overrides the default, which succeeds. */
  function NodeSync(w: World, n: Node): (r: Outcome)
    ensures r == Done
  {
    Vfs.DefaultResult(Vfs.Sync)
  }

  /** `Inode::create` (`isDir` false) and `Inode::mkdir` (true). */
  function NodeAdd(w: World, n: Node, name: string, isDir: bool): (r: (World, Result<Node>))
    requires NodeIn(w, n)
    ensures !n.Ram? ==> r == (w, Err(Vfs.NOT_DIRECTORY_MSG))
    ensures n.Ram? ==>
      var x := RamFs.AddEntry(w.ram, n.h, name, isDir);
      r.0 == w.(ram := x.0) && (r.1.Ok? <==> x.1.Ok?) && (r.1.Ok? ==> r.1.value == Ram(x.1.value))
    ensures r.1.Ok? ==> NodeIn(r.0, r.1.value)
  {
    match n
    case Ram(h) =>
      var x := if isDir then RamFs.Mkdir(w.ram, h, name) else RamFs.Create(w.ram, h, name);
      (w.(ram := x.0), if x.1.Err? then Err(x.1.msg) else Ok(Ram(x.1.value)))
    case _ => (w, Err(Vfs.NOT_DIRECTORY_MSG))
  }

  /** `Inode::unlink`. */
  function NodeUnlink(w: World, n: Node, name: string): (r: (World, Outcome))
    requires NodeIn(w, n)
    ensures !n.Ram? ==> r == (w, Fail(Vfs.NOT_DIRECTORY_MSG))
    ensures n.Ram? ==> var x := RamFs.Unlink(w.ram, n.h, name); r == (w.(ram := x.0), x.1)
  {
    match n
    case Ram(h) =>
      var x := RamFs.Unlink(w.ram, h, name);
      (w.(ram := x.0), x.1)
    case _ => (w, Vfs.DefaultResult(Vfs.Unlink))
  }

  /** `Inode::readdir`. */
  function NodeReaddir(w: World, n: Node): (r: Result<seq<Vfs.DirEntry>>)
    requires WorldOk(w) && NodeIn(w, n)
    ensures n.Ram? ==> r == RamFs.Readdir(w.ram, n.h)
    ensures n.DevRoot? ==> r == Ok(DevFs.Readdir(w.dev))
    ensures n.Dev? ==> r == Err(Vfs.NOT_DIRECTORY_MSG)
  {
    match n
    case Ram(h) => RamFs.Readdir(w.ram, h)
    case DevRoot => Ok(DevFs.Readdir(w.dev))
    case Dev(_) => Err(Vfs.NOT_DIRECTORY_MSG)
  }

  // ---------------------------------------------------------------------
  // Lookups land inside the store

  lemma NodeLookupIn(w: World, n: Node, name: string)
    requires WorldOk(w) && NodeIn(w, n)
    ensures var r := NodeLookup(w, n, name); r.Ok? && r.value.Some? ==> NodeIn(w, r.value.value)
  {
    if n.Ram? {
      var r := RamFs.Lookup(w.ram, n.h, name);
      assert RamFs.NodeOk(|w.ram.nodes|, w.ram.nodes[n.h]);
      if r.Ok? && r.value.Some? && name != RamFs.DOT_DOT {
        var i :| 0 <= i < |w.ram.nodes[n.h].data.entries| && w.ram.nodes[n.h].data.entries[i] == (name, r.value.value);
      }
    }
  }

  lemma {:induction false} WalkIn(w: World, cur: Node, comps: seq<string>)
    requires WorldOk(w) && NodeIn(w, cur)
    ensures var r := Walk(cur, comps, Lk(w)); r.Ok? ==> NodeIn(w, r.value)
    decreases |comps|
  {
    if comps != [] {
      if Skipped(comps[0]) {
        WalkIn(w, cur, comps[1..]);
      } else {
        NodeLookupIn(w, cur, comps[0]);
        var r := NodeLookup(w, cur, comps[0]);
        assert Lk(w)(cur, comps[0]) == r;
        if r.Ok? && r.value.Some? {
          WalkIn(w, r.value.value, comps[1..]);
        }
      }
    }
  }

  /** Every inode `lookup` returns is in the store. */
  lemma ResolveIn(w: World, path: string)
    ensures var r := VfsResolve.Lookup(w.root, w.mounts, path, Lk(w));
      WorldOk(w) && r.Ok? ==> NodeIn(w, r.value)
  {
    if WorldOk(w) && path != "" && w.root.Some? && path != "/" {
      var i := LastCovering(w.mounts, path);
      if i.Some? {
        var rest := path[|w.mounts[i.value].path|..];
        if !(rest == "" || rest == "/") {
          WalkIn(w, w.mounts[i.value].root, Split(rest[1..]));
        }
      } else {
        WalkIn(w, w.root.value, Split(path[1..]));
      }
    }
  }

  // ---------------------------------------------------------------------
  // Path-level operations

  /** The parent directory `create`, `mkdir` and `remove` work in, and the
      name they pass to it. */
  function ParentOf(w: World, path: string): (r: Result<(Node, string)>)
    ensures r.Ok? ==> LookupPath(w, SplitPath(path).0) == Ok(r.value.0) && r.value.1 == SplitPath(path).1
    ensures r.Err? ==> LookupPath(w, SplitPath(path).0).Err?
  {
    var (parent, name) := SplitPath(path);
    match LookupPath(w, parent)
    case Err(e) => Err(e)
    case Ok(p) => Ok((p, name))
  }

  /** `create(path)` and `mkdir(path)`. */
  function AddPath(w: World, path: string, isDir: bool): (r: (World, Result<Node>))
    requires WorldOk(w)
    ensures ParentOf(w, path).Err? ==> r == (w, Err(ParentOf(w, path).msg))
    ensures r.1.Ok? ==> NodeIn(r.0, r.1.value)
  {
    match ParentOf(w, path)
    case Err(e) => (w, Err(e))
    case Ok((p, name)) =>
      NodeAdd(w, p, name, isDir)
  }

  /** `remove(path)`. */
  function RemovePath(w: World, path: string): (r: (World, Outcome))
    requires WorldOk(w)
    ensures ParentOf(w, path).Err? ==> r == (w, Fail(ParentOf(w, path).msg))
  {
    match ParentOf(w, path)
    case Err(e) => (w, Fail(e))
    case Ok((p, name)) =>
      NodeUnlink(w, p, name)
  }

  /** `readdir(path)`. */
  function ReaddirPath(w: World, path: string): (r: Result<seq<Vfs.DirEntry>>)
    requires WorldOk(w)
    ensures LookupPath(w, path).Err? ==> r == Err(LookupPath(w, path).msg)
  {
    match LookupPath(w, path)
    case Err(e) => Err(e)
    case Ok(n) =>
      NodeReaddir(w, n)
  }

  /** `stat(path)`. */
  function StatPath(w: World, path: string): (r: Result<Vfs.Stat>)
    requires WorldOk(w)
    ensures r.Err? <==> LookupPath(w, path).Err?
  {
    match LookupPath(w, path)
    case Err(e) => Err(e)
    case Ok(n) =>
      NodeStat(w, n)
  }

  /** `read_file(path)`: look the path up, size a zeroed buffer by `stat`,
      read from offset 0 and keep the bytes read. */
  function ReadFile(w: World, path: string): (r: (World, Result<seq<byte>>))
    requires WorldOk(w)
    ensures LookupPath(w, path).Err? ==> r == (w, Err(LookupPath(w, path).msg))
  {
    match LookupPath(w, path)
    case Err(e) => (w, Err(e))
    case Ok(n) =>
      var size := NodeStat(w, n).value.size;
      var x := NodeRead(w, n, 0, FileData.Zeros(size));
      if x.1.Err? then (x.0, Err(x.1.msg))
      else (x.0, Ok(x.1.value.1[..x.1.value.0]))
  }

  /** The tail of `write_file`: write the data at offset 0, then sync. */
  function WriteAndSync(w: World, n: Node, data: seq<byte>): (r: (World, Outcome))
    requires NodeIn(w, n) && |data| < RamFs.MAX_FILE_LEN
    ensures r.1.Done? <==> NodeWrite(w, n, 0, data).1.Ok?
    ensures r.0 == NodeWrite(w, n, 0, data).0
  {
    var x := NodeWrite(w, n, 0, data);
    if x.1.Err? then (x.0, Fail(x.1.msg)) else (x.0, NodeSync(x.0, n))
  }

  /** `write_file(path, data)`: an existing inode is truncated to 0 (a
      failure to truncate is ignored), a missing one is created; then the
      data is written at offset 0 and the inode synced. */
  function WriteFile(w: World, path: string, data: seq<byte>): (r: (World, Outcome))
    requires WorldOk(w) && |data| < RamFs.MAX_FILE_LEN
    ensures r.0.root == w.root && r.0.mounts == w.mounts
    ensures LookupPath(w, path).Err? && AddPath(w, path, false).1.Err? ==>
      r == (AddPath(w, path, false).0, Fail(AddPath(w, path, false).1.msg))
  {
    match LookupPath(w, path)
    case Ok(n) =>
      var w1 := NodeTruncate(w, n, 0).0;
      WriteAndSync(w1, n, data)
    case Err(_) =>
      var c := AddPath(w, path, false);
      if c.1.Err? then (c.0, Fail(c.1.msg))
      else WriteAndSync(c.0, c.1.value, data)
  }

  // ---------------------------------------------------------------------
  // write_file then read_file

  /** Changing the bytes of a regular file changes no lookup anywhere. */
  lemma FileBytesKeepLookups(w: World, h: RamFs.Handle, bytes: seq<byte>, n: Node, name: string)
    requires RamFs.IsHandle(w.ram, h) && w.ram.nodes[h].data.File?
    ensures NodeLookup(w.(ram := RamFs.SetData(w.ram, h, RamFs.File(bytes))), n, name) == NodeLookup(w, n, name)
  {
  }

  lemma FileBytesKeepPaths(w: World, h: RamFs.Handle, bytes: seq<byte>, path: string)
    requires RamFs.IsHandle(w.ram, h) && w.ram.nodes[h].data.File?
    ensures LookupPath(w.(ram := RamFs.SetData(w.ram, h, RamFs.File(bytes))), path) == LookupPath(w, path)
  {
    var w' := w.(ram := RamFs.SetData(w.ram, h, RamFs.File(bytes)));
    forall n: Node, c: string ensures Lk(w')(n, c) == Lk(w)(n, c) {
      FileBytesKeepLookups(w, h, bytes, n, c);
    }
    LookupSameLookups(w.root, w.mounts, path, Lk(w'), Lk(w));
  }

  /** New bytes for a regular file keep the world well formed. */
  lemma FileBytesKeepOk(w: World, h: RamFs.Handle, bytes: seq<byte>)
    requires WorldOk(w) && RamFs.IsHandle(w.ram, h) && w.ram.nodes[h].data.File? && |bytes| < RamFs.MAX_FILE_LEN
    ensures WorldOk(w.(ram := RamFs.SetData(w.ram, h, RamFs.File(bytes))))
  {
    var fs' := RamFs.SetData(w.ram, h, RamFs.File(bytes));
    assert forall g :: 0 <= g < |fs'.nodes| ==> RamFs.NodeOk(|fs'.nodes|, fs'.nodes[g]);
  }

  /** `write_file` on a path naming a regular file succeeds, and a
      `read_file` of the same path then returns exactly the data written,
      whatever the file held before. */
  lemma WriteFileThenReadFile(w: World, path: string, h: RamFs.Handle, data: seq<byte>)
    requires WorldOk(w) && |data| < RamFs.MAX_FILE_LEN
    requires LookupPath(w, path) == Ok(Ram(h)) && RamFs.IsHandle(w.ram, h) && w.ram.nodes[h].data.File?
    ensures var r := WriteFile(w, path, data);
      && r.1 == Done && WorldOk(r.0)
      && ReadFile(r.0, path).1 == Ok(data)
  {
    var old_ := w.ram.nodes[h].data.bytes;
    var cleared := FileData.Truncate(old_, 0);
    var w1 := w.(ram := RamFs.SetData(w.ram, h, RamFs.File(cleared)));
    assert NodeTruncate(w, Ram(h), 0).0 == w1;
    FileBytesKeepOk(w, h, cleared);
    FileBytesKeepPaths(w, h, cleared, path);
    var written := FileData.Write(cleared, 0, data);
    var w2 := w1.(ram := RamFs.SetData(w1.ram, h, RamFs.File(written)));
    assert NodeWrite(w1, Ram(h), 0, data) == (w2, Ok(|data|));
    assert WriteFile(w, path, data) == (w2, Done);
    FileBytesKeepOk(w1, h, written);
    FileBytesKeepPaths(w1, h, written, path);
    assert LookupPath(w2, path) == Ok(Ram(h));
    assert NodeStat(w2, Ram(h)).value.size == |data|;
    FileData.ReplaceContents(old_, data);
    var x := NodeRead(w2, Ram(h), 0, FileData.Zeros(|data|));
    assert x.1 == Ok(FileData.Read(written, 0, FileData.Zeros(|data|)));
    if |data| > 0 {
      assert x.1.value.1[..x.1.value.0] == FileData.ReadAll(written);
    }
  }

  // ---------------------------------------------------------------------
  // The state after boot

  /** After boot, "/" is the RAM root. */
  lemma BootRoot()
    ensures LookupPath(Boot(), "/") == Ok(Ram(RamFs.ROOT))
  {
  }

  lemma DevNullPath()
    ensures "/dev" + [SLASH] + "null" == "/dev/null"
  {
    var x := "/dev" + [SLASH] + "null";
    assert |x| == 9;
    assert forall i :: 0 <= i < 9 ==> x[i] == "/dev/null"[i];
  }

  lemma DevDotDotPath()
    ensures "/dev" + [SLASH] + ".." == "/dev/.."
  {
    var x := "/dev" + [SLASH] + "..";
    assert |x| == 7;
    assert forall i :: 0 <= i < 7 ==> x[i] == "/dev/.."[i];
  }

  /** After boot, "/dev" is the devfs root and "/dev/null" the null device,
      found through the devfs mount. */
  lemma BootDevNull()
    ensures LookupPath(Boot(), "/dev") == Ok(DevRoot)
    ensures LookupPath(Boot(), "/dev/null") == Ok(Dev(DevFs.DevInode(2, DevFs.Null)))
  {
    var w := Boot();
    var ms0 := [Mount("/", Ram(RamFs.ROOT))];
    assert w.mounts == AddMount(ms0, "/dev", DevRoot);
    MountThenLookup(Ram(RamFs.ROOT), ms0, "/dev", DevRoot, "null", Lk(w));
    DevNullPath();
    DevFs.NewLookupNull();
    assert Lk(w)(DevRoot, "null") == Ok(Some(Dev(DevFs.DevInode(2, DevFs.Null))));
    assert "null" != "." && "null" != ".." && "null" != "";
    ResolveName(DevRoot, "null", Lk(w));
  }

  /** After boot, "/dev/.." fails: devfs answers ".." with nothing, so the
      walk reports a missing parent rather than climbing to "/". */
  lemma BootDevDotDot()
    ensures LookupPath(Boot(), "/dev/..") == Err(NO_PARENT_MSG)
  {
    var w := Boot();
    var ms0 := [Mount("/", Ram(RamFs.ROOT))];
    assert w.mounts == AddMount(ms0, "/dev", DevRoot);
    MountThenLookup(Ram(RamFs.ROOT), ms0, "/dev", DevRoot, "..", Lk(w));
    DevDotDotPath();
    assert Lk(w)(DevRoot, "..") == Ok(None);
    ResolveName(DevRoot, "..", Lk(w));
  }

  // ---------------------------------------------------------------------
  // Open file descriptors

  /** `FileDescriptor`: an inode, the offset of the next read or write,
      and the open flags (kept, not interpreted). */
  datatype FileDescriptor = FileDescriptor(node: Node, offset: u64, flags: u32)

  /** `FileDescriptor::new`: positioned at the start. */
  function OpenFd(n: Node, flags: u32): (fd: FileDescriptor)
    ensures fd.node == n && fd.offset == 0 && fd.flags == flags
  {
    FileDescriptor(n, 0, flags)
  }

  /** `FileDescriptor::read`: read at the offset, then move the offset on
      by the count (`+=`, which wraps in a release build). A failed read
      leaves the offset alone. */
  function FdRead(w: World, fd: FileDescriptor, buf: seq<byte>): (r: (World, FileDescriptor, Result<(nat, seq<byte>)>))
    requires NodeIn(w, fd.node)
    ensures r.2 == NodeRead(w, fd.node, fd.offset, buf).1
    ensures r.2.Err? ==> r.1 == fd
    ensures r.2.Ok? ==> r.1 == fd.(offset := (fd.offset + r.2.value.0) % U64_MODULUS)
  {
    var x := NodeRead(w, fd.node, fd.offset, buf);
    if x.1.Err? then (x.0, fd, x.1)
    else (x.0, fd.(offset := WrappingAdd64(fd.offset, x.1.value.0 % U64_MODULUS)), x.1)
  }

  /** `FileDescriptor::write`, likewise. */
  function FdWrite(w: World, fd: FileDescriptor, buf: seq<byte>): (r: (World, FileDescriptor, Result<nat>))
    requires NodeIn(w, fd.node) && fd.offset + |buf| < RamFs.MAX_FILE_LEN
    ensures r.2 == NodeWrite(w, fd.node, fd.offset, buf).1
    ensures r.2.Err? ==> r.1 == fd
    ensures r.2.Ok? ==> r.1 == fd.(offset := fd.offset + |buf|)
  {
    var x := NodeWrite(w, fd.node, fd.offset, buf);
    if x.1.Err? then (x.0, fd, x.1)
    else (x.0, fd.(offset := WrappingAdd64(fd.offset, x.1.value)), x.1)
  }

  /** `FileDescriptor::seek`: the offset is set; nothing else changes. */
  function FdSeek(fd: FileDescriptor, offset: u64): (r: FileDescriptor)
    ensures r.offset == offset && r.node == fd.node && r.flags == fd.flags
  {
    fd.(offset := offset)
  }

  /** Two reads through a descriptor, inside a regular file, return the
      bytes one read of both buffers' length returns, and leave the offset
      past both. */
  lemma FdReadsCompose(w: World, fd: FileDescriptor, a: seq<byte>, b: seq<byte>)
    requires fd.node.Ram? && RamFs.IsHandle(w.ram, fd.node.h) && w.ram.nodes[fd.node.h].data.File?
    requires fd.offset + |a| + |b| <= |w.ram.nodes[fd.node.h].data.bytes| < RamFs.MAX_FILE_LEN
    ensures var r1 := FdRead(w, fd, a);
      var r2 := FdRead(r1.0, r1.1, b);
      var r := FdRead(w, fd, a + b);
      && r1.2.Ok? && r2.2.Ok? && r.2.Ok?
      && r2.0 == w && r2.1 == r.1
      && r1.2.value.1 + r2.2.value.1 == r.2.value.1
  {
    var bytes := w.ram.nodes[fd.node.h].data.bytes;
    FileData.ReadAdjacent(bytes, fd.offset, a, b);
    var r1 := FdRead(w, fd, a);
    if |a| > 0 {
      assert r1.2.value.0 == |a|;
    } else {
      assert FileData.Read(bytes, fd.offset, a).0 == 0;
    }
    assert r1.1.offset == fd.offset + |a|;
  }

  /** Writing through a descriptor, seeking back and reading as many bytes
      as were written returns them. */
  lemma FdWriteSeekRead(w: World, fd: FileDescriptor, buf: seq<byte>, scratch: seq<byte>)
    requires fd.node.Ram? && RamFs.IsHandle(w.ram, fd.node.h) && w.ram.nodes[fd.node.h].data.File?
    requires fd.offset + |buf| < RamFs.MAX_FILE_LEN && |scratch| == |buf| > 0
    ensures var wr := FdWrite(w, fd, buf);
      var rd := FdRead(wr.0, FdSeek(wr.1, fd.offset), scratch);
      && wr.2 == Ok(|buf|) && wr.1.offset == fd.offset + |buf|
      && rd.2 == Ok((|buf|, buf)) && rd.1.offset == fd.offset + |buf|
  {
    RamFs.ReadAfterWrite(w.ram, fd.node.h, fd.offset, buf, scratch);
  }
}
