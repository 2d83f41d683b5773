/** The RAM-only fallback filesystem (`RamFS`, `RamInode`,
    kernel/src/fs/mod.rs): a store of inodes, each a regular file holding
    bytes or a directory holding an ordered map from names to inodes.

    The store is indexed by handle, which stands for the identity of one
    `Arc<RamInode>`; the inode numbers reported by `stat` are a separate
    field. Inodes a directory no longer names stay in the store, as an
    `Arc` held elsewhere keeps them alive. */
module RamFs {
  import opened Common
  import Vfs
  import FileData
  import SortedMap

  /** One `Arc<RamInode>`: its index in the store. */
  type Handle = nat

  datatype RamData = File(bytes: seq<byte>) | Dir(entries: seq<(string, Handle)>)

  datatype RamNode = RamNode(ino: u64, fileType: Vfs.FileType, mode: bv16, data: RamData, parent: Option<Handle>)

  /** The inodes and the counter new inode numbers are taken from. */
  datatype RamFs = RamFs(nodes: seq<RamNode>, nextIno: u64)

  const ROOT: Handle := 0
  const ROOT_INO: u64 := 1
  /** The value the inode counter starts from. */
  const FIRST_INO: u64 := 1000
  /** A `Vec` never holds more than `isize::MAX` bytes. */
  const MAX_FILE_LEN: nat := 0x8000_0000_0000_0000

  const FILE_EXISTS_MSG: string := "File exists"
  const DIR_EXISTS_MSG: string := "Directory exists"
  const DOT: string := "."
  const DOT_DOT: string := ".."

  /** `RamInode::new_file`: an empty regular file; the parent argument is
      ignored. */
  function NewFileNode(ino: u64): RamNode
  {
    RamNode(ino, Vfs.Regular, Vfs.DEFAULT_FILE, File([]), None)
  }

  /** `RamInode::new_dir`. */
  function NewDirNode(ino: u64, parent: Option<Handle>): RamNode
  {
    RamNode(ino, Vfs.Directory, Vfs.DEFAULT_DIR, Dir([]), parent)
  }

  /** `RamFS::new`: an empty root directory, inode 1, with no parent. */
  function New(): RamFs
  {
    RamFs([NewDirNode(ROOT_INO, None)], FIRST_INO)
  }

  /** `FileSystem::name` and `statfs` for RamFS: fixed figures. */
  const NAME: string := "ramfs"

  function Statfs(): (r: Result<Vfs.FsStats>)
    ensures r.Ok? && r.value.blockSize == 4096
    ensures r.value.freeBlocks <= r.value.totalBlocks && r.value.freeInodes <= r.value.totalInodes
  {
    Ok(Vfs.FsStats(4096, 1024, 512, 1024, 900))
  }

  // ---------------------------------------------------------------------
  // Well-formed stores

  /** A node whose type agrees with its data, whose directory keys are in
      order and whose references stay inside a store of `size` nodes. */
  predicate NodeOk(size: nat, n: RamNode)
  {
    && (n.fileType == Vfs.Directory <==> n.data.Dir?)
    && (n.data.File? ==> n.fileType == Vfs.Regular && |n.data.bytes| < MAX_FILE_LEN)
    && (n.data.Dir? ==> SortedMap.Sorted(n.data.entries))
    && RefsIn(size, n)
  }

  /** Every inode a directory names is in a store of `size` nodes. */
  predicate EntriesIn(size: nat, es: seq<(string, Handle)>)
  {
    forall k :: 0 <= k < |es| ==> es[k].1 < size
  }

  /** The inodes `n` refers to, its entries and its parent, are in a store
      of `size` nodes. */
  predicate RefsIn(size: nat, n: RamNode)
  {
    && (n.data.Dir? ==> EntriesIn(size, n.data.entries))
    && (n.parent.Some? ==> n.parent.value < size)
  }

  /** The root is the directory with inode 1 and no parent; every other
      inode was numbered from the counter in creation order, so inode
      numbers are distinct. */
  ghost predicate Valid(fs: RamFs)
  {
    && |fs.nodes| > 0
    && fs.nodes[ROOT].ino == ROOT_INO && fs.nodes[ROOT].data.Dir? && fs.nodes[ROOT].parent.None?
    && (forall h :: 0 <= h < |fs.nodes| ==> NodeOk(|fs.nodes|, fs.nodes[h]))
    && (forall h :: 0 < h < |fs.nodes| ==> fs.nodes[h].ino == FIRST_INO + h - 1)
    && fs.nextIno == FIRST_INO + |fs.nodes| - 1
  }

  predicate IsHandle(fs: RamFs, h: Handle) { h < |fs.nodes| }

  lemma NewValid()
    ensures Valid(New())
  {
  }

  /** Two different inodes never share an inode number. */
  lemma InosDistinct(fs: RamFs, h: Handle, h': Handle)
    requires Valid(fs) && IsHandle(fs, h) && IsHandle(fs, h') && h != h'
    ensures fs.nodes[h].ino != fs.nodes[h'].ino
  {
  }

  // ---------------------------------------------------------------------
  // Stat

  /** `get_size`: the byte count of a file, 32 per entry for a directory
      (a 64-bit product). */
  function SizeOf(n: RamNode): (size: u64)
    requires n.data.File? ==> |n.data.bytes| < MAX_FILE_LEN
    ensures n.data.File? ==> size == |n.data.bytes|
    ensures n.data.Dir? && 32 * |n.data.entries| < U64_MODULUS ==> size == 32 * |n.data.entries|
  {
    match n.data
    case File(bytes) => |bytes|
    case Dir(entries) => WrappingMul64(|entries| % U64_MODULUS, 32)
  }

  /** `stat`: device 1, one link, 4 KiB blocks, as many blocks as cover the
      size. */
  function Stat(fs: RamFs, h: Handle): (r: Result<Vfs.Stat>)
    requires IsHandle(fs, h) && NodeOk(|fs.nodes|, fs.nodes[h])
    ensures r.Ok?
    ensures var n := fs.nodes[h];
      && r.value.dev == 1 && r.value.ino == n.ino && r.value.mode == n.mode
      && r.value.nlink == 1 && r.value.rdev == 0 && r.value.blksize == 4096
      && r.value.size == SizeOf(n) && r.value.fileType == n.fileType
    ensures r.value.size + 4095 < U64_MODULUS ==> r.value.blocks == FileData.BlocksFor(r.value.size)
  {
    var n := fs.nodes[h];
    var size := SizeOf(n);
    Ok(Vfs.Stat(1, n.ino, n.mode, 1, 0, 0, 0, size, 4096, WrappingAdd64(size, 4095) / 4096, 0, 0, 0, n.fileType))
  }

  // ---------------------------------------------------------------------
  // File operations

  /** `read`: a window of the file copied into `buf`; the count and the
      buffer afterwards. */
  function Read(fs: RamFs, h: Handle, offset: u64, buf: seq<byte>): (r: Result<(nat, seq<byte>)>)
    requires IsHandle(fs, h)
    ensures r.Err? <==> !fs.nodes[h].data.File?
    ensures r.Err? ==> r.msg == Vfs.NOT_REGULAR_MSG
    ensures r.Ok? ==> r.value == FileData.Read(fs.nodes[h].data.bytes, offset, buf)
  {
    match fs.nodes[h].data
    case File(bytes) => Ok(FileData.Read(bytes, offset, buf))
    case Dir(_) => Err(Vfs.NOT_REGULAR_MSG)
  }

  function SetData(fs: RamFs, h: Handle, data: RamData): (fs': RamFs)
    requires IsHandle(fs, h)
    ensures |fs'.nodes| == |fs.nodes| && fs'.nextIno == fs.nextIno
    ensures fs'.nodes[h] == fs.nodes[h].(data := data)
    ensures forall g :: 0 <= g < |fs.nodes| && g != h ==> fs'.nodes[g] == fs.nodes[g]
  {
    fs.(nodes := fs.nodes[h := fs.nodes[h].(data := data)])
  }

  /** `write`: the file grows to cover `offset + |buf|`, zero-filled, and
      `buf` lands at `offset`; the count is always `|buf|`. Growing a file
      past `isize::MAX` bytes aborts, so such writes are excluded. */
  function Write(fs: RamFs, h: Handle, offset: u64, buf: seq<byte>): (r: (RamFs, Result<nat>))
    requires IsHandle(fs, h) && offset + |buf| < MAX_FILE_LEN
    ensures r.1.Err? <==> !fs.nodes[h].data.File?
    ensures r.1.Err? ==> r == (fs, Err(Vfs.NOT_REGULAR_MSG))
    ensures r.1.Ok? ==>
      && r.1.value == |buf|
      && r.0 == SetData(fs, h, File(FileData.Write(fs.nodes[h].data.bytes, offset, buf)))
  {
    match fs.nodes[h].data
    case File(bytes) => (SetData(fs, h, File(FileData.Write(bytes, offset, buf))), Ok(|buf|))
    case Dir(_) => (fs, Err(Vfs.NOT_REGULAR_MSG))
  }

  /** `truncate` (`Vec::resize(size, 0)`). */
  function Truncate(fs: RamFs, h: Handle, size: u64): (r: (RamFs, Outcome))
    requires IsHandle(fs, h) && size < MAX_FILE_LEN
    ensures r.1.Fail? <==> !fs.nodes[h].data.File?
    ensures r.1.Fail? ==> r == (fs, Fail(Vfs.NOT_REGULAR_MSG))
    ensures r.1.Done? ==> r.0 == SetData(fs, h, File(FileData.Truncate(fs.nodes[h].data.bytes, size)))
  {
    match fs.nodes[h].data
    case File(bytes) => (SetData(fs, h, File(FileData.Truncate(bytes, size))), Done)
    case Dir(_) => (fs, Fail(Vfs.NOT_REGULAR_MSG))
  }

  /** `sync`: `RamInode` keeps the trait's default, which succeeds and
      changes nothing. */
  function Sync(fs: RamFs, h: Handle): (r: (RamFs, Outcome))
    ensures r.0 == fs && r.1 == Done
  {
    (fs, Vfs.DefaultResult(Vfs.Sync))
  }

  // ---------------------------------------------------------------------
  // Directory operations

  /** The listing of a directory's map: one entry per name, in key order,
      with the named inode's type and number. */
  function Listing(fs: RamFs, es: seq<(string, Handle)>): (r: seq<Vfs.DirEntry>)
    requires forall k :: 0 <= k < |es| ==> es[k].1 < |fs.nodes|
    ensures |r| == |es|
    ensures forall k :: 0 <= k < |es| ==>
      r[k] == Vfs.DirEntry(es[k].0, fs.nodes[es[k].1].fileType, fs.nodes[es[k].1].ino)
  {
    if es == [] then [] else [Vfs.DirEntry(es[0].0, fs.nodes[es[0].1].fileType, fs.nodes[es[0].1].ino)] + Listing(fs, es[1..])
  }

  /** `readdir`: ".", then ".." (the parent's inode, or this one's for a
      directory without a parent), then the map's entries in name order. */
  function Readdir(fs: RamFs, h: Handle): (r: Result<seq<Vfs.DirEntry>>)
    requires IsHandle(fs, h) && RefsIn(|fs.nodes|, fs.nodes[h])
    ensures r.Err? <==> !fs.nodes[h].data.Dir?
    ensures r.Err? ==> r.msg == Vfs.NOT_DIRECTORY_MSG
    ensures r.Ok? ==>
      var n := fs.nodes[h];
      var es := n.data.entries;
      && |r.value| == 2 + |es|
      && r.value[0] == Vfs.DirEntry(DOT, Vfs.Directory, n.ino)
      && r.value[1] == Vfs.DirEntry(DOT_DOT, Vfs.Directory,
                                    if n.parent.Some? then fs.nodes[n.parent.value].ino else n.ino)
      && r.value[2..] == Listing(fs, es)
  {
    var n := fs.nodes[h];
    match n.data
    case File(_) => Err(Vfs.NOT_DIRECTORY_MSG)
    case Dir(es) =>
      var up := if n.parent.Some? then fs.nodes[n.parent.value].ino else n.ino;
      Ok([Vfs.DirEntry(DOT, Vfs.Directory, n.ino), Vfs.DirEntry(DOT_DOT, Vfs.Directory, up)] + Listing(fs, es))
  }

  /** `lookup`: "." finds nothing, ".." finds the parent if there is one,
      any other name is looked up in the map. */
  function Lookup(fs: RamFs, h: Handle, name: string): (r: Result<Option<Handle>>)
    requires IsHandle(fs, h)
    ensures r.Err? <==> !fs.nodes[h].data.Dir?
    ensures r.Err? ==> r.msg == Vfs.NOT_DIRECTORY_MSG
    ensures r.Ok? && name == DOT ==> r.value.None?
    ensures r.Ok? && name == DOT_DOT ==> r.value == fs.nodes[h].parent
    ensures r.Ok? && name != DOT && name != DOT_DOT ==> r.value == SortedMap.Get(fs.nodes[h].data.entries, name)
  {
    match fs.nodes[h].data
    case File(_) => Err(Vfs.NOT_DIRECTORY_MSG)
    case Dir(es) =>
      if name == DOT then Ok(None)
      else if name == DOT_DOT then Ok(fs.nodes[h].parent)
      else Ok(SortedMap.Get(es, name))
  }

  /** Adds `node` to the store and names it `name` in directory `h`. */
  function AddNode(fs: RamFs, h: Handle, name: string, node: RamNode): (fs': RamFs)
    requires IsHandle(fs, h) && fs.nodes[h].data.Dir?
    ensures |fs'.nodes| == |fs.nodes| + 1 && fs'.nodes[|fs.nodes|] == node
    ensures fs'.nodes[h] == fs.nodes[h].(data := Dir(SortedMap.Insert<Handle>(fs.nodes[h].data.entries, name, |fs.nodes|)))
    ensures forall g :: 0 <= g < |fs.nodes| && g != h ==> fs'.nodes[g] == fs.nodes[g]
    ensures fs'.nextIno == fs.nextIno
  {
    var n := fs.nodes[h];
    var fs1 := SetData(fs, h, Dir(SortedMap.Insert<Handle>(n.data.entries, name, |fs.nodes|)));
    fs1.(nodes := fs1.nodes + [node])
  }

  /** `create` and `mkdir`: an existing name is refused; otherwise a fresh
      inode numbered from the counter is added under `name`. The new inode
      has no parent, as the source passes `None` for it. */
  function AddEntry(fs: RamFs, h: Handle, name: string, isDir: bool): (r: (RamFs, Result<Handle>))
    requires IsHandle(fs, h)
    ensures !fs.nodes[h].data.Dir? ==> r == (fs, Err(Vfs.NOT_DIRECTORY_MSG))
    ensures fs.nodes[h].data.Dir? && SortedMap.Get(fs.nodes[h].data.entries, name).Some? ==>
      r == (fs, Err(if isDir then DIR_EXISTS_MSG else FILE_EXISTS_MSG))
    ensures fs.nodes[h].data.Dir? && SortedMap.Get(fs.nodes[h].data.entries, name).None? ==>
      && r.1 == Ok(|fs.nodes|)
      && r.0 == AddNode(fs, h, name, if isDir then NewDirNode(fs.nextIno, None) else NewFileNode(fs.nextIno))
                  .(nextIno := WrappingAdd64(fs.nextIno, 1))
  {
    match fs.nodes[h].data
    case File(_) => (fs, Err(Vfs.NOT_DIRECTORY_MSG))
    case Dir(es) =>
      if SortedMap.Get(es, name).Some? then (fs, Err(if isDir then DIR_EXISTS_MSG else FILE_EXISTS_MSG))
      else
        var node := if isDir then NewDirNode(fs.nextIno, None) else NewFileNode(fs.nextIno);
        (AddNode(fs, h, name, node).(nextIno := WrappingAdd64(fs.nextIno, 1)), Ok(|fs.nodes|))
  }

  function Create(fs: RamFs, h: Handle, name: string): (r: (RamFs, Result<Handle>))
    requires IsHandle(fs, h)
    ensures r.1.Ok? <==> fs.nodes[h].data.Dir? && SortedMap.Get(fs.nodes[h].data.entries, name).None?
    ensures r.1.Err? ==> r.0 == fs
    ensures r.1.Ok? ==>
      && r.1.value == |fs.nodes| && |r.0.nodes| == |fs.nodes| + 1
      && r.0.nodes[r.1.value].fileType == Vfs.Regular && r.0.nodes[r.1.value].data == File([])
      && r.0.nodes[r.1.value].ino == fs.nextIno
      && r.0.nextIno == WrappingAdd64(fs.nextIno, 1)
  {
    AddEntry(fs, h, name, false)
  }

  function Mkdir(fs: RamFs, h: Handle, name: string): (r: (RamFs, Result<Handle>))
    requires IsHandle(fs, h)
    ensures r.1.Ok? <==> fs.nodes[h].data.Dir? && SortedMap.Get(fs.nodes[h].data.entries, name).None?
    ensures r.1.Err? ==> r.0 == fs
    ensures r.1.Ok? ==>
      && r.1.value == |fs.nodes| && |r.0.nodes| == |fs.nodes| + 1
      && r.0.nodes[r.1.value].fileType == Vfs.Directory && r.0.nodes[r.1.value].data == Dir([])
      && r.0.nodes[r.1.value].ino == fs.nextIno
      && r.0.nextIno == WrappingAdd64(fs.nextIno, 1)
  {
    AddEntry(fs, h, name, true)
  }

  /** `unlink`: the name is dropped from the map; a missing name is not an
      error. */
  function Unlink(fs: RamFs, h: Handle, name: string): (r: (RamFs, Outcome))
    requires IsHandle(fs, h)
    ensures r.1.Fail? <==> !fs.nodes[h].data.Dir?
    ensures r.1.Fail? ==> r == (fs, Fail(Vfs.NOT_DIRECTORY_MSG))
    ensures r.1.Done? ==> r.0 == SetData(fs, h, Dir(SortedMap.Remove(fs.nodes[h].data.entries, name)))
  {
    match fs.nodes[h].data
    case File(_) => (fs, Fail(Vfs.NOT_DIRECTORY_MSG))
    case Dir(es) => (SetData(fs, h, Dir(SortedMap.Remove(es, name))), Done)
  }

  // ---------------------------------------------------------------------
  // Every operation keeps the store well formed

  lemma WriteValid(fs: RamFs, h: Handle, offset: u64, buf: seq<byte>)
    requires Valid(fs) && IsHandle(fs, h) && offset + |buf| < MAX_FILE_LEN
    ensures Valid(Write(fs, h, offset, buf).0)
  {
    var fs' := Write(fs, h, offset, buf).0;
    assert forall g :: 0 <= g < |fs.nodes| ==> NodeOk(|fs'.nodes|, fs'.nodes[g]);
  }

  lemma TruncateValid(fs: RamFs, h: Handle, size: u64)
    requires Valid(fs) && IsHandle(fs, h) && size < MAX_FILE_LEN
    ensures Valid(Truncate(fs, h, size).0)
  {
    var fs' := Truncate(fs, h, size).0;
    assert forall g :: 0 <= g < |fs.nodes| ==> NodeOk(|fs'.nodes|, fs'.nodes[g]);
  }

  lemma UnlinkValid(fs: RamFs, h: Handle, name: string)
    requires Valid(fs) && IsHandle(fs, h)
    ensures Valid(Unlink(fs, h, name).0)
  {
    var r := Unlink(fs, h, name);
    if r.1.Done? {
      var es := fs.nodes[h].data.entries;
      SortedMap.RemoveSorted<Handle>(es, name);
      assert NodeOk(|fs.nodes|, r.0.nodes[h]);
      assert forall g :: 0 <= g < |fs.nodes| ==> NodeOk(|r.0.nodes|, r.0.nodes[g]);
    }
  }

  /** Adding an entry keeps the store well formed while the counter has
      room: the new inode is numbered after all the others. */
  lemma AddEntryValid(fs: RamFs, h: Handle, name: string, isDir: bool)
    requires Valid(fs) && IsHandle(fs, h) && fs.nextIno + 1 < U64_MODULUS
    ensures Valid(AddEntry(fs, h, name, isDir).0)
  {
    var r := AddEntry(fs, h, name, isDir);
    if r.1.Ok? {
      var es := fs.nodes[h].data.entries;
      assert NodeOk(|fs.nodes|, fs.nodes[h]);
      var es' := SortedMap.Insert<Handle>(es, name, |fs.nodes|);
      SortedMap.InsertSorted<Handle>(es, name, |fs.nodes|);
      assert forall k :: 0 <= k < |es'| ==> es'[k].1 < |r.0.nodes|;
      forall g | 0 <= g < |r.0.nodes| ensures NodeOk(|r.0.nodes|, r.0.nodes[g]) {
        if g < |fs.nodes| && g != h {
          assert NodeOk(|fs.nodes|, fs.nodes[g]);
        }
      }
    }
  }

  // ---------------------------------------------------------------------
  // Properties of the operations

  /** Reading back the range just written returns exactly the bytes
      written. */
  lemma ReadAfterWrite(fs: RamFs, h: Handle, offset: u64, buf: seq<byte>, scratch: seq<byte>)
    requires IsHandle(fs, h) && fs.nodes[h].data.File? && offset + |buf| < MAX_FILE_LEN
    requires |scratch| == |buf| && |buf| > 0
    ensures Write(fs, h, offset, buf).1 == Ok(|buf|)
    ensures Read(Write(fs, h, offset, buf).0, h, offset, scratch) == Ok((|buf|, buf))
  {
    FileData.ReadAfterWrite(fs.nodes[h].data.bytes, offset, buf, scratch);
  }

  /** A file just created is found under its name, is an empty regular
      file and carries the counter's inode number. */
  lemma CreateThenLookup(fs: RamFs, h: Handle, name: string)
    requires IsHandle(fs, h) && name != DOT && name != DOT_DOT
    requires Create(fs, h, name).1.Ok?
    ensures var r := Create(fs, h, name);
      var c := r.1.value;
      && IsHandle(r.0, c)
      && Lookup(r.0, h, name) == Ok(Some(c))
      && r.0.nodes[c].fileType == Vfs.Regular && r.0.nodes[c].data == File([])
      && r.0.nodes[c].ino == fs.nextIno
  {
    var r := Create(fs, h, name);
    SortedMap.GetInsert<Handle>(fs.nodes[h].data.entries, name, |fs.nodes|, name);
  }

  /** A directory just made is found under its name, is empty and, having
      no parent, lists itself as ".." and answers nothing for "..". */
  lemma MkdirThenLookup(fs: RamFs, h: Handle, name: string)
    requires IsHandle(fs, h) && name != DOT && name != DOT_DOT
    requires Mkdir(fs, h, name).1.Ok?
    ensures var r := Mkdir(fs, h, name);
      var c := r.1.value;
      && IsHandle(r.0, c)
      && Lookup(r.0, h, name) == Ok(Some(c))
      && Lookup(r.0, c, DOT_DOT) == Ok(None)
      && Readdir(r.0, c) == Ok([Vfs.DirEntry(DOT, Vfs.Directory, fs.nextIno), Vfs.DirEntry(DOT_DOT, Vfs.Directory, fs.nextIno)])
  {
    var r := Mkdir(fs, h, name);
    var c := r.1.value;
    SortedMap.GetInsert<Handle>(fs.nodes[h].data.entries, name, |fs.nodes|, name);
    assert r.0.nodes[c] == NewDirNode(fs.nextIno, None);
    var rd := Readdir(r.0, c);
    assert rd.Ok? && |rd.value| == 2;
    assert rd.value[0] == Vfs.DirEntry(DOT, Vfs.Directory, fs.nextIno);
    assert rd.value[1] == Vfs.DirEntry(DOT_DOT, Vfs.Directory, fs.nextIno);
    assert rd.value == [Vfs.DirEntry(DOT, Vfs.Directory, fs.nextIno), Vfs.DirEntry(DOT_DOT, Vfs.Directory, fs.nextIno)];
  }

  /** A name already present is refused by both `create` and `mkdir`, and
      nothing changes. */
  lemma AddExisting(fs: RamFs, h: Handle, name: string)
    requires IsHandle(fs, h) && Create(fs, h, name).1.Ok?
    ensures var fs' := Create(fs, h, name).0;
      && Create(fs', h, name) == (fs', Err(FILE_EXISTS_MSG))
      && Mkdir(fs', h, name) == (fs', Err(DIR_EXISTS_MSG))
  {
    SortedMap.GetInsert<Handle>(fs.nodes[h].data.entries, name, |fs.nodes|, name);
  }

  /** After `unlink` the name is gone and every other name of the
      directory is looked up as before. */
  lemma UnlinkThenLookup(fs: RamFs, h: Handle, name: string, other: string)
    requires IsHandle(fs, h) && fs.nodes[h].data.Dir?
    requires name != DOT && name != DOT_DOT && other != name
    ensures Unlink(fs, h, name).1 == Done
    ensures Lookup(Unlink(fs, h, name).0, h, name) == Ok(None)
    ensures Lookup(Unlink(fs, h, name).0, h, other) == Lookup(fs, h, other)
  {
    var es := fs.nodes[h].data.entries;
    SortedMap.GetRemove(es, name, name);
    SortedMap.GetRemove(es, name, other);
  }

  /** Unlinking a name the directory does not hold succeeds and changes
      nothing. */
  lemma UnlinkAbsent(fs: RamFs, h: Handle, name: string)
    requires IsHandle(fs, h) && fs.nodes[h].data.Dir?
    requires SortedMap.Get(fs.nodes[h].data.entries, name).None?
    ensures Unlink(fs, h, name) == (fs, Done)
  {
    SortedMap.RemoveAbsent(fs.nodes[h].data.entries, name);
    assert fs.nodes[h := fs.nodes[h]] == fs.nodes;
  }

  /** After "." and "..", the names `readdir` lists are strictly
      increasing, and each is listed with the type and inode number of
      the inode the directory maps it to. */
  lemma ReaddirSorted(fs: RamFs, h: Handle, i: nat, j: nat)
    requires IsHandle(fs, h) && fs.nodes[h].data.Dir? && RefsIn(|fs.nodes|, fs.nodes[h])
    requires SortedMap.Sorted(fs.nodes[h].data.entries)
    requires 2 <= i < j < 2 + |fs.nodes[h].data.entries|
    ensures var r := Readdir(fs, h);
      && r.Ok? && |r.value| == 2 + |fs.nodes[h].data.entries|
      && SortedMap.Less(r.value[i].name, r.value[j].name)
  {
    var es := fs.nodes[h].data.entries;
    ReaddirAt(fs, h, i);
    ReaddirAt(fs, h, j);
    var r := Readdir(fs, h).value;
    assert r[i].name == es[i - 2].0 && r[j].name == es[j - 2].0;
    SortedMap.SortedPairs<Handle>(es, i - 2, j - 2);
  }

  /** Each listed name comes with the type and inode number of the inode
      the directory maps that name to. */
  lemma ReaddirEntry(fs: RamFs, h: Handle, k: nat)
    requires IsHandle(fs, h) && fs.nodes[h].data.Dir? && RefsIn(|fs.nodes|, fs.nodes[h])
    requires SortedMap.Sorted(fs.nodes[h].data.entries)
    requires 2 <= k < 2 + |fs.nodes[h].data.entries|
    ensures var e := Readdir(fs, h).value[k];
      var c := SortedMap.Get(fs.nodes[h].data.entries, e.name);
      && c.Some? && IsHandle(fs, c.value)
      && e.inode == fs.nodes[c.value].ino && e.fileType == fs.nodes[c.value].fileType
  {
    var es := fs.nodes[h].data.entries;
    ReaddirAt(fs, h, k);
    var e := Readdir(fs, h).value[k];
    assert e.name == es[k - 2].0;
    SortedMap.GetSorted<Handle>(es, k - 2);
  }

  /** Entry `k` of the listing, past "." and "..", is map entry `k - 2`. */
  lemma ReaddirAt(fs: RamFs, h: Handle, k: nat)
    requires IsHandle(fs, h) && fs.nodes[h].data.Dir? && RefsIn(|fs.nodes|, fs.nodes[h])
    requires 2 <= k < 2 + |fs.nodes[h].data.entries|
    ensures var r := Readdir(fs, h);
      var e := fs.nodes[h].data.entries[k - 2];
      && r.Ok? && |r.value| == 2 + |fs.nodes[h].data.entries|
      && r.value[k] == Vfs.DirEntry(e.0, fs.nodes[e.1].fileType, fs.nodes[e.1].ino)
  {
    var r := Readdir(fs, h).value;
    assert r[k] == r[2..][k - 2];
  }

  // ---------------------------------------------------------------------
  // Inode numbers

  /** The counters as written: `create` and `mkdir` each declare their own
      `static NEXT_INO`, both starting at 1000. */
  datatype InoCountersAsWritten = InoCountersAsWritten(file: u64, dir: u64)

  const INITIAL_COUNTERS: InoCountersAsWritten := InoCountersAsWritten(FIRST_INO, FIRST_INO)

  /** `create`/`mkdir` as written: the inode number comes from the counter
      of the operation, which advances only on success. */
  function AddEntryAsWritten(fs: RamFs, c: InoCountersAsWritten, h: Handle, name: string, isDir: bool)
    : (r: (RamFs, InoCountersAsWritten, Result<Handle>))
    requires IsHandle(fs, h)
    ensures r.2.Ok? ==> IsHandle(r.0, r.2.value) && r.0.nodes[r.2.value].ino == (if isDir then c.dir else c.file)
    ensures r.2.Err? ==> r.0 == fs && r.1 == c
  {
    var ino := if isDir then c.dir else c.file;
    var a := AddEntry(fs.(nextIno := ino), h, name, isDir);
    var c' := if a.1.Err? then c
              else if isDir then c.(dir := WrappingAdd64(c.dir, 1))
              else c.(file := WrappingAdd64(c.file, 1));
    (a.0.(nextIno := fs.nextIno), c', a.1)
  }

  /** On a fresh filesystem, creating a file and then making a directory
      gives both inode number 1000: `stat` cannot tell them apart. */
  lemma AsWrittenInosCollide()
    ensures var a := AddEntryAsWritten(New(), INITIAL_COUNTERS, ROOT, "a", false);
      var b := AddEntryAsWritten(a.0, a.1, ROOT, "b", true);
      && a.2 == Ok(1) && b.2 == Ok(2)
      && Lookup(b.0, ROOT, "a") == Ok(Some(1)) && Lookup(b.0, ROOT, "b") == Ok(Some(2))
      && b.0.nodes[1].ino == b.0.nodes[2].ino == FIRST_INO
  {
    var fs0 := New();
    var a := AddEntryAsWritten(fs0, INITIAL_COUNTERS, ROOT, "a", false);
    assert a.0.nodes == [fs0.nodes[ROOT].(data := Dir([("a", 1)])), NewFileNode(FIRST_INO)];
    assert a.1 == InoCountersAsWritten(FIRST_INO + 1, FIRST_INO);
    assert SortedMap.Less("a", "b");
    var b := AddEntryAsWritten(a.0, a.1, ROOT, "b", true);
    assert SortedMap.Insert<Handle>([("a", 1)], "b", 2) == [("a", 1), ("b", 2)];
    assert b.0.nodes[ROOT].data.entries == [("a", 1), ("b", 2)];
    assert "a" != "b" by { assert "a"[0] != "b"[0]; }
    assert [("a", 1), ("b", 2)][1..] == [("b", 2)];
    assert Lookup(b.0, ROOT, "b") == Ok(Some(2));
  }

  /** With one counter shared by `create` and `mkdir`, the file and the
      directory made in a fresh filesystem get different inode numbers, and
      so does every pair of inodes afterwards (`InosDistinct`). */
  lemma SharedCounterDistinct()
    ensures var a := Create(New(), ROOT, "a");
      var b := Mkdir(a.0, ROOT, "b");
      && a.1 == Ok(1) && b.1 == Ok(2)
      && Valid(b.0)
      && b.0.nodes[1].ino != b.0.nodes[2].ino
  {
    NewValid();
    var a := Create(New(), ROOT, "a");
    AddEntryValid(New(), ROOT, "a", false);
    AddEntryValid(a.0, ROOT, "b", true);
    var b := Mkdir(a.0, ROOT, "b");
    InosDistinct(b.0, 1, 2);
  }
}
