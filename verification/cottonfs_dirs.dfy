/** CottonFS directories (kernel/src/fs/cottonfs.rs): `load_dir_entries`,
    `save_dir_entries`, and the directory operations of `CottonInode` —
    `readdir`, `lookup`, `create`, `mkdir`, `unlink` — with `sync` for
    both kinds of node. Names are the byte strings of Rust's `&str`. */
module CottonDirs {
  import opened Common
  import opened CottonFs
  import opened Bitmap
  import opened CottonFiles
  import opened DirRecords
  import Vfs
  import FileData

  const NAME_TOO_LONG_MSG: string := "Filename too long"
  const FILE_EXISTS_MSG: string := "File exists"
  const DIR_EXISTS_MSG: string := "Directory exists"
  const NOT_FOUND_MSG: string := "File not found"
  const DIR_NOT_LOADED_MSG: string := "Directory not loaded"

  const DOT: seq<byte> := [0x2E]
  const DOT_DOT: seq<byte> := [0x2E, 0x2E]

  // ---------------------------------------------------------------------
  // Loading

  /** The bytes `load_dir_entries` gathers from block `i` on: whole
      blocks, up to the first missing pointer or the twelfth block. The
      recorded size plays no part. */
  function DirBytes(dev: Device, direct: seq<u64>, i: nat): (r: Bytes)
    requires |direct| == DIRECT_BLOCKS && i <= DIRECT_BLOCKS
    decreases DIRECT_BLOCKS - i
  {
    if i == DIRECT_BLOCKS || direct[i] == 0 then []
    else ReadBlock(dev, direct[i]) + DirBytes(dev, direct, i + 1)
  }

  /** `load_dir_entries`: the non-empty records of those bytes. */
  function LoadDirEntries(dev: Device, direct: seq<u64>): (es: seq<DirRecord>)
    requires |direct| == DIRECT_BLOCKS
    ensures NoneEmpty(es)
  {
    Occupied(Parse(DirBytes(dev, direct, 0)))
  }

  /** A directory's entries: the cache, or what loading reads. */
  function Entries(vol: Volume, node: Node): (es: seq<DirRecord>)
    requires |node.disk.direct| == DIRECT_BLOCKS
    ensures node.entries.Some? ==> es == node.entries.value
  {
    if node.entries.Some? then node.entries.value else LoadDirEntries(vol.dev, node.disk.direct)
  }

  /** The first entry carrying `name`, if any (`position`). */
  function Find(es: seq<DirRecord>, name: seq<byte>): (r: Option<nat>)
    requires AllWellFormed(es)
    ensures r.Some? ==> r.value < |es| && RecordName(es[r.value]) == name
    ensures r.Some? ==> forall k :: 0 <= k < r.value ==> RecordName(es[k]) != name
    ensures r.None? <==> forall k :: 0 <= k < |es| ==> RecordName(es[k]) != name
  {
    if es == [] then None
    else if RecordName(es[0]) == name then Some(0)
    else match Find(es[1..], name)
      case None => None
      case Some(k) => Some(k + 1)
  }

  /** Entries `save_dir_entries` can serialise: well-formed, and few
      enough for their byte count to be a `u64`. */
  predicate Saveable(es: seq<DirRecord>)
  {
    AllWellFormed(es) && DIR_ENTRY_SIZE * |es| < U64_MODULUS
  }

  /** No two entries share a name. */
  predicate UniqueNames(es: seq<DirRecord>)
    requires AllWellFormed(es)
  {
    forall k, l :: 0 <= k < l < |es| ==> RecordName(es[k]) != RecordName(es[l])
  }

  // ---------------------------------------------------------------------
  // Saving

  /** `save_dir_entries` as written: the serialised records go to as many
      blocks as they need, up to twelve, allocating missing ones; the
      inode records the byte length and block count and goes to the
      table. Blocks no longer needed keep their pointers and their old
      bytes. */
  function SaveDirEntriesAsWritten(vol: Volume, node: Node): (r: (Volume, Node, Outcome))
    requires |node.disk.direct| == DIRECT_BLOCKS
    requires node.entries.Some? ==> Saveable(node.entries.value)
    ensures |r.1.disk.direct| == DIRECT_BLOCKS
    ensures node.fileType == Vfs.Directory && node.entries.Some? && r.2.Done? ==>
      r.1.disk == node.disk.(size := DIR_ENTRY_SIZE * |node.entries.value|,
                             blocks := FileData.BlocksFor(DIR_ENTRY_SIZE * |node.entries.value|),
                             direct := r.1.disk.direct)
    ensures node.fileType == Vfs.Directory && node.entries.Some? && r.2.Done? ==>
      forall j :: FileData.BlocksFor(DIR_ENTRY_SIZE * |node.entries.value|) <= j < DIRECT_BLOCKS ==>
        r.1.disk.direct[j] == node.disk.direct[j]
  {
    if node.fileType != Vfs.Directory then (vol, node, Fail(Vfs.NOT_DIRECTORY_MSG))
    else if node.entries.None? then (vol, node, Fail(DIR_NOT_LOADED_MSG))
    else
      var data := Serialize(node.entries.value);
      var needed := FileData.BlocksFor(|data|);
      var w := WriteBlocks(vol.fs, vol.dev, node.disk.direct, data, 0, Min(needed, DIRECT_BLOCKS));
      if w.out.Fail? then
        (vol.(fs := w.fs, dev := w.dev), node.(disk := node.disk.(direct := w.direct)), w.out)
      else
        var di := node.disk.(size := |data|, blocks := needed, direct := w.direct);
        (Volume(w.fs, w.dev, vol.table[node.ino := di]), node.(disk := di, dirty := false), Done)
  }

  /** `save_dir_entries` with the blocks past the new length freed, as
      `save_file_data` frees them: nothing stale is left for loading to
      find. */
  function SaveDirEntries(vol: Volume, node: Node): (r: (Volume, Node, Outcome))
    requires |node.disk.direct| == DIRECT_BLOCKS
    requires node.entries.Some? ==> Saveable(node.entries.value)
    ensures node.fileType != Vfs.Directory ==> r == (vol, node, Fail(Vfs.NOT_DIRECTORY_MSG))
    ensures node.fileType == Vfs.Directory && node.entries.None? ==> r == (vol, node, Fail(DIR_NOT_LOADED_MSG))
    ensures |r.1.disk.direct| == DIRECT_BLOCKS && r.1.entries == node.entries && r.1.data == node.data
    ensures r.1.ino == node.ino && r.1.fileType == node.fileType
    ensures r.2.Fail? ==> r.1.dirty == node.dirty && r.0.table == vol.table
    ensures r.2.Fail? && node.fileType == Vfs.Directory && node.entries.Some? ==> r.2.msg == NO_FREE_BLOCKS_MSG
    ensures r.2.Done? ==>
      var n := DIR_ENTRY_SIZE * |node.entries.value|;
      && r.1.disk == node.disk.(size := n, blocks := FileData.BlocksFor(n), direct := r.1.disk.direct)
      && r.0.table == vol.table[node.ino := r.1.disk]
      && !r.1.dirty
      && (forall j :: FileData.BlocksFor(n) <= j < DIRECT_BLOCKS ==> r.1.disk.direct[j] == 0)
  {
    if node.fileType != Vfs.Directory then (vol, node, Fail(Vfs.NOT_DIRECTORY_MSG))
    else if node.entries.None? then (vol, node, Fail(DIR_NOT_LOADED_MSG))
    else
      var data := Serialize(node.entries.value);
      var needed := FileData.BlocksFor(|data|);
      var w := WriteBlocks(vol.fs, vol.dev, node.disk.direct, data, 0, Min(needed, DIRECT_BLOCKS));
      if w.out.Fail? then
        (vol.(fs := w.fs, dev := w.dev), node.(disk := node.disk.(direct := w.direct)), w.out)
      else
        var (fs2, direct2) := FreeExtra(w.fs, w.direct, Min(needed, DIRECT_BLOCKS));
        var di := node.disk.(size := |data|, blocks := needed, direct := direct2);
        (Volume(fs2, w.dev, vol.table[node.ino := di]), node.(disk := di, dirty := false), Done)
  }

  /** `data` zero-padded to `k` whole blocks. */
  function Padded(data: Bytes, k: nat): (r: Bytes)
    requires |data| <= k * BLOCK_SIZE
    ensures |r| == k * BLOCK_SIZE && r[..|data|] == data
  {
    data + FileData.Zeros(k * BLOCK_SIZE - |data|)
  }

  /** The blocks `i .. k - 1` hold the chunks of `data` and the pointer
      list ends at `k`: loading reads `data` padded to `k` blocks, from
      block `i` on. */
  lemma {:induction false} DirBytesPadded(dev: Device, direct: seq<u64>, data: Bytes, i: nat, k: nat)
    requires |direct| == DIRECT_BLOCKS && i <= k <= DIRECT_BLOCKS
    requires k == FileData.BlocksFor(|data|)
    requires k == DIRECT_BLOCKS || direct[k] == 0
    requires forall j :: i <= j < k ==> direct[j] != 0 && ReadBlock(dev, direct[j]) == Chunk(data, j)
    ensures DirBytes(dev, direct, i) == Padded(data, k)[i * BLOCK_SIZE..]
    decreases k - i
  {
    if i < k {
      DirBytesPadded(dev, direct, data, i + 1, k);
      ChunkOfPadded(data, i, k);
      var p := Padded(data, k);
      var lo := i * BLOCK_SIZE;
      assert p[lo..] == p[lo..lo + BLOCK_SIZE] + p[lo + BLOCK_SIZE..];
    }
  }

  /** Chunk `i` of `data` is block `i` of `data` padded to `k` blocks. */
  lemma ChunkOfPadded(data: Bytes, i: nat, k: nat)
    requires i < k == FileData.BlocksFor(|data|)
    ensures i * BLOCK_SIZE <= |data|
    ensures Chunk(data, i) == Padded(data, k)[i * BLOCK_SIZE..(i + 1) * BLOCK_SIZE]
  {
    var p := Padded(data, k);
    var lo := i * BLOCK_SIZE;
    assert lo < |data|;
    var c := Chunk(data, i);
    if lo + BLOCK_SIZE <= |data| {
      assert c == data[lo..lo + BLOCK_SIZE] == p[lo..lo + BLOCK_SIZE];
    } else {
      assert i + 1 == k;
      assert c == data[lo..] + FileData.Zeros(BLOCK_SIZE - (|data| - lo));
      assert p[lo..lo + BLOCK_SIZE] == c;
    }
  }

  /** Saving keeps the counters in step and the pointers owned, and what a
      successful save leaves on disk loads back as the entries saved. */
  lemma SaveDirRoundTrip(vol: Volume, node: Node)
    requires FileOk(vol, node) && node.fileType == Vfs.Directory && node.entries.Some?
    requires AllWellFormed(node.entries.value) && NoneEmpty(node.entries.value)
    requires DIR_ENTRY_SIZE * |node.entries.value| <= MAX_DIRECT_BYTES
    ensures var (vol', node', out) := SaveDirEntries(vol, node);
      && FileOk(vol', node')
      && (out.Done? ==> LoadDirEntries(vol'.dev, node'.disk.direct) == node.entries.value)
  {
    var es := node.entries.value;
    var data := Serialize(es);
    var k := FileData.BlocksFor(|data|);
    assert k <= DIRECT_BLOCKS;
    assert Min(k, DIRECT_BLOCKS) == k;
    WriteBlocksSound(vol.fs, vol.dev, node.disk.direct, data, 0, k);
    var w := WriteBlocks(vol.fs, vol.dev, node.disk.direct, data, 0, k);
    var r := SaveDirEntries(vol, node);
    if w.out.Done? {
      FreeExtraSound(w.fs, w.direct, k);
      assert r.0.fs == FreeExtra(w.fs, w.direct, k).0;
      assert r.1.disk.direct == FreeExtra(w.fs, w.direct, k).1;
      assert r.0.dev == w.dev;
      SavedDirLoads(w, es, k);
    } else {
      assert r.0.fs == w.fs && r.1.disk.direct == w.direct;
    }
  }

  /** After the write loop succeeded, freeing the tail leaves pointers
      from which the entries load back. */
  lemma SavedDirLoads(w: Saved, es: seq<DirRecord>, k: nat)
    requires |w.direct| == DIRECT_BLOCKS && AllWellFormed(es) && NoneEmpty(es)
    requires k == FileData.BlocksFor(|Serialize(es)|) <= DIRECT_BLOCKS
    requires forall j :: 0 <= j < k ==> w.direct[j] != 0 && ReadBlock(w.dev, w.direct[j]) == Chunk(Serialize(es), j)
    ensures LoadDirEntries(w.dev, FreeExtra(w.fs, w.direct, k).1) == es
  {
    var data := Serialize(es);
    var direct2 := FreeExtra(w.fs, w.direct, k).1;
    forall j | 0 <= j < k ensures direct2[j] != 0 && ReadBlock(w.dev, direct2[j]) == Chunk(data, j) {
      assert direct2[j] == w.direct[j];
    }
    DirBytesPadded(w.dev, direct2, data, 0, k);
    var bytes := DirBytes(w.dev, direct2, 0);
    assert bytes == data + FileData.Zeros(k * BLOCK_SIZE - |data|);
    SerializeRoundTrip(es, k * BLOCK_SIZE - |data|);
    assert LoadDirEntries(w.dev, direct2) == Occupied(Parse(bytes));
  }

  /** Saving as written keeps the counters in step too. */
  lemma SaveDirAsWrittenSound(vol: Volume, node: Node)
    requires FileOk(vol, node)
    requires node.entries.Some? ==> Saveable(node.entries.value)
    ensures FileOk(SaveDirEntriesAsWritten(vol, node).0, SaveDirEntriesAsWritten(vol, node).1)
  {
    if node.fileType == Vfs.Directory && node.entries.Some? {
      var data := Serialize(node.entries.value);
      WriteBlocksSound(vol.fs, vol.dev, node.disk.direct, data, 0, Min(FileData.BlocksFor(|data|), DIRECT_BLOCKS));
    }
  }

  /** The directory's only entry was just removed from the cache, and its
      first block still holds that entry's record, as `create` wrote it.
      Saving as written writes no block, so loading finds the removed entry
      again. */
  lemma SaveDirAsWrittenResurrects(vol: Volume, node: Node, e: DirRecord)
    requires node.fileType == Vfs.Directory && |node.disk.direct| == DIRECT_BLOCKS
    requires node.entries == Some([]) && WellFormed(e) && !IsEmpty(e)
    requires node.disk.direct[0] != 0 && node.disk.direct[1] == 0
    requires ReadBlock(vol.dev, node.disk.direct[0]) == Chunk(Serialize([e]), 0)
    ensures var (vol', node', out) := SaveDirEntriesAsWritten(vol, node);
      && out.Done? && node'.entries == Some([]) && node'.disk.size == 0
      && LoadDirEntries(vol'.dev, node'.disk.direct) == [e]
  {
    var data := Serialize([e]);
    assert Serialize([]) == [];
    DirBytesPadded(vol.dev, node.disk.direct, data, 0, 1);
    SerializeRoundTrip([e], BLOCK_SIZE - |data|);
  }

  // ---------------------------------------------------------------------
  // Listing and lookup

  /** A name's bytes read as characters (`String::from_utf8_lossy`, exact
      for ASCII). */
  function NameString(b: seq<byte>): (s: string)
    ensures |s| == |b| && forall k :: 0 <= k < |b| ==> s[k] == b[k] as char
  {
    seq(|b|, k requires 0 <= k < |b| => b[k] as char)
  }

  /** A record as `readdir` reports it: its name, its type decoded, its
      inode. */
  function Listed(e: DirRecord): (d: Vfs.DirEntry)
    requires WellFormed(e)
  {
    Vfs.DirEntry(NameString(RecordName(e)), TypeFromCode(e.fileType), e.inode)
  }

  /** The records listed one by one, in order. */
  function ListAll(es: seq<DirRecord>): (ds: seq<Vfs.DirEntry>)
    requires AllWellFormed(es)
    ensures |ds| == |es| && forall k :: 0 <= k < |es| ==> ds[k] == Listed(es[k])
  {
    if es == [] then [] else [Listed(es[0])] + ListAll(es[1..])
  }

  /** `readdir`: ".", then "..", both naming the directory itself, then
      one entry per record, in order. */
  function Readdir(vol: Volume, node: Node): (r: (Node, Result<seq<Vfs.DirEntry>>))
    requires |node.disk.direct| == DIRECT_BLOCKS && AllWellFormed(Entries(vol, node))
    ensures node.fileType != Vfs.Directory ==> r == (node, Err(Vfs.NOT_DIRECTORY_MSG))
    ensures node.fileType == Vfs.Directory ==>
      var es := Entries(vol, node);
      && r.0 == node.(entries := Some(es))
      && r.1.Ok? && |r.1.value| == |es| + 2
      && r.1.value[0] == Vfs.DirEntry(".", Vfs.Directory, node.ino)
      && r.1.value[1] == Vfs.DirEntry("..", Vfs.Directory, node.ino)
      && forall k :: 0 <= k < |es| ==> r.1.value[k + 2] == Listed(es[k])
  {
    if node.fileType != Vfs.Directory then (node, Err(Vfs.NOT_DIRECTORY_MSG))
    else
      var es := Entries(vol, node);
      var dots := [Vfs.DirEntry(".", Vfs.Directory, node.ino), Vfs.DirEntry("..", Vfs.Directory, node.ino)];
      (node.(entries := Some(es)), Ok(dots + ListAll(es)))
  }

  /** `lookup`: "." and ".." answer nothing (the VFS resolves them) and
      load nothing; otherwise the first entry with the name is loaded,
      and its inode must be allocated. */
  function Lookup(vol: Volume, node: Node, name: seq<byte>): (r: (Node, Result<Option<Node>>))
    requires |node.disk.direct| == DIRECT_BLOCKS && AllWellFormed(Entries(vol, node))
    ensures node.fileType != Vfs.Directory ==> r == (node, Err(Vfs.NOT_DIRECTORY_MSG))
    ensures node.fileType == Vfs.Directory && (name == DOT || name == DOT_DOT) ==> r == (node, Ok(None))
    ensures node.fileType == Vfs.Directory && name != DOT && name != DOT_DOT ==>
      var es := Entries(vol, node);
      && r.0 == node.(entries := Some(es))
      && (r.1 == Ok(None) <==> Find(es, name).None?)
      && (Find(es, name).Some? ==>
            var found := LoadInode(vol, es[Find(es, name).value].inode);
            r.1 == (if found.Err? then Err(found.msg) else Ok(Some(found.value))))
  {
    if node.fileType != Vfs.Directory then (node, Err(Vfs.NOT_DIRECTORY_MSG))
    else if name == DOT || name == DOT_DOT then (node, Ok(None))
    else
      var es := Entries(vol, node);
      var node' := node.(entries := Some(es));
      match Find(es, name)
      case None => (node', Ok(None))
      case Some(k) =>
        match LoadInode(vol, es[k].inode)
        case Err(msg) => (node', Err(msg))
        case Ok(child) => (node', Ok(Some(child)))
  }

  // ---------------------------------------------------------------------
  // Creating and removing

  function KindOf(isDir: bool): Vfs.FileType
  {
    if isDir then Vfs.Directory else Vfs.Regular
  }

  /** The part of `create` and `mkdir` after the checks: an inode is
      allocated and written to the table, the entry is appended to the
      loaded entries `es`, the directory is saved, and the new inode is
      loaded. */
  function AddNew(vol: Volume, node: Node, es: seq<DirRecord>, name: seq<byte>, isDir: bool): (r: (Volume, Node, Result<Node>))
    requires |node.disk.direct| == DIRECT_BLOCKS && node.fileType == Vfs.Directory
    requires AllWellFormed(es) && DIR_ENTRY_SIZE * (|es| + 1) < U64_MODULUS
    ensures var st := AllocInode(vol.fs);
      && (st.result.Err? ==> r == (vol, node.(entries := Some(es)), Err(NO_FREE_INODES_MSG)))
      && (st.result.Ok? ==>
            var ino := st.result.value;
            && r.1.entries == Some(es + [NewRecord(ino, name, KindOf(isDir))])
            && (r.2.Ok? ==> LoadInode(r.0, ino) == Ok(r.2.value) && r.2.value.ino == ino && !r.1.dirty)
            && (r.2.Ok? ==> r.0.table == vol.table[ino := if isDir then NewDirInode() else NewFileInode()][node.ino := r.1.disk])
            && (r.2.Err? ==> r.2.msg == NO_FREE_BLOCKS_MSG || r.2.msg == NOT_ALLOCATED_MSG)
            && (ino != node.ino && r.2.Ok? ==>
                  r.2.value.fileType == KindOf(isDir) && r.2.value.disk == (if isDir then NewDirInode() else NewFileInode()))
            && (ino != node.ino && r.2.Err? ==> r.2.msg == NO_FREE_BLOCKS_MSG))
    ensures |r.1.disk.direct| == DIRECT_BLOCKS && r.1.ino == node.ino && r.1.fileType == node.fileType
    ensures r.1.data == node.data
  {
    var st := AllocInode(vol.fs);
    if st.result.Err? then (vol, node.(entries := Some(es)), Err(st.result.msg))
    else
      var ino: u64 := st.result.value;
      var vol2 := vol.(fs := st.fs, table := vol.table[ino := if isDir then NewDirInode() else NewFileInode()]);
      var es2 := es + [NewRecord(ino, name, KindOf(isDir))];
      AppendWellFormed(es, NewRecord(ino, name, KindOf(isDir)));
      var (vol3, node3, out) := SaveDirEntries(vol2, node.(entries := Some(es2), dirty := true));
      if out.Fail? then (vol3, node3, Err(out.msg))
      else
        var child := LoadInode(vol3, ino);
        (vol3, node3, if child.Err? then Err(child.msg) else Ok(child.value))
  }

  lemma AppendWellFormed(es: seq<DirRecord>, e: DirRecord)
    requires AllWellFormed(es) && WellFormed(e)
    ensures AllWellFormed(es + [e])
  {
    assert forall k :: 0 <= k < |es| ==> (es + [e])[k] == es[k];
  }

  /** `create` (`isDir` false) and `mkdir` (`isDir` true): the name is
      checked for length and presence, then the entry is added. */
  function AddEntry(vol: Volume, node: Node, name: seq<byte>, isDir: bool): (r: (Volume, Node, Result<Node>))
    requires |node.disk.direct| == DIRECT_BLOCKS && AllWellFormed(Entries(vol, node))
    requires DIR_ENTRY_SIZE * (|Entries(vol, node)| + 1) < U64_MODULUS
    ensures node.fileType != Vfs.Directory ==> r == (vol, node, Err(Vfs.NOT_DIRECTORY_MSG))
    ensures node.fileType == Vfs.Directory && |name| > MAX_FILENAME ==> r == (vol, node, Err(NAME_TOO_LONG_MSG))
    ensures node.fileType == Vfs.Directory && |name| <= MAX_FILENAME && Find(Entries(vol, node), name).Some? ==>
      r == (vol, node.(entries := Some(Entries(vol, node))), Err(if isDir then DIR_EXISTS_MSG else FILE_EXISTS_MSG))
    ensures node.fileType == Vfs.Directory && |name| <= MAX_FILENAME && Find(Entries(vol, node), name).None? ==>
      r == AddNew(vol, node, Entries(vol, node), name, isDir)
    ensures |r.1.disk.direct| == DIRECT_BLOCKS && r.1.ino == node.ino && r.1.fileType == node.fileType
    ensures r.1.data == node.data
  {
    if node.fileType != Vfs.Directory then (vol, node, Err(Vfs.NOT_DIRECTORY_MSG))
    else if |name| > MAX_FILENAME then (vol, node, Err(NAME_TOO_LONG_MSG))
    else
      var es := Entries(vol, node);
      if Find(es, name).Some? then (vol, node.(entries := Some(es)), Err(if isDir then DIR_EXISTS_MSG else FILE_EXISTS_MSG))
      else AddNew(vol, node, es, name, isDir)
  }

  function Create(vol: Volume, node: Node, name: seq<byte>): (r: (Volume, Node, Result<Node>))
    requires |node.disk.direct| == DIRECT_BLOCKS && AllWellFormed(Entries(vol, node))
    requires DIR_ENTRY_SIZE * (|Entries(vol, node)| + 1) < U64_MODULUS
    ensures node.fileType != Vfs.Directory ==> r == (vol, node, Err(Vfs.NOT_DIRECTORY_MSG))
    ensures node.fileType == Vfs.Directory && |name| > MAX_FILENAME ==> r == (vol, node, Err(NAME_TOO_LONG_MSG))
    ensures node.fileType == Vfs.Directory && |name| <= MAX_FILENAME && Find(Entries(vol, node), name).Some? ==>
      r.0 == vol && r.2 == Err(FILE_EXISTS_MSG)
    ensures r.2.Ok? ==>
      && node.fileType == Vfs.Directory && |name| <= MAX_FILENAME && Find(Entries(vol, node), name).None?
      && r.1.entries == Some(Entries(vol, node) + [NewRecord(r.2.value.ino, name, Vfs.Regular)])
      && LoadInode(r.0, r.2.value.ino) == Ok(r.2.value) && !r.1.dirty
  {
    AddEntry(vol, node, name, false)
  }

  function Mkdir(vol: Volume, node: Node, name: seq<byte>): (r: (Volume, Node, Result<Node>))
    requires |node.disk.direct| == DIRECT_BLOCKS && AllWellFormed(Entries(vol, node))
    requires DIR_ENTRY_SIZE * (|Entries(vol, node)| + 1) < U64_MODULUS
    ensures node.fileType != Vfs.Directory ==> r == (vol, node, Err(Vfs.NOT_DIRECTORY_MSG))
    ensures node.fileType == Vfs.Directory && |name| > MAX_FILENAME ==> r == (vol, node, Err(NAME_TOO_LONG_MSG))
    ensures node.fileType == Vfs.Directory && |name| <= MAX_FILENAME && Find(Entries(vol, node), name).Some? ==>
      r.0 == vol && r.2 == Err(DIR_EXISTS_MSG)
    ensures r.2.Ok? ==>
      && node.fileType == Vfs.Directory && |name| <= MAX_FILENAME && Find(Entries(vol, node), name).None?
      && r.1.entries == Some(Entries(vol, node) + [NewRecord(r.2.value.ino, name, Vfs.Directory)])
      && LoadInode(r.0, r.2.value.ino) == Ok(r.2.value) && !r.1.dirty
  {
    AddEntry(vol, node, name, true)
  }

  /** `unlink`: the first entry with the name is removed, the directory is
      saved, and the entry's inode is freed. */
  function Unlink(vol: Volume, node: Node, name: seq<byte>): (r: (Volume, Node, Outcome))
    requires |node.disk.direct| == DIRECT_BLOCKS && AllWellFormed(Entries(vol, node))
    requires DIR_ENTRY_SIZE * |Entries(vol, node)| < U64_MODULUS
    ensures node.fileType != Vfs.Directory ==> r == (vol, node, Fail(Vfs.NOT_DIRECTORY_MSG))
    ensures node.fileType == Vfs.Directory && Find(Entries(vol, node), name).None? ==>
      r == (vol, node.(entries := Some(Entries(vol, node))), Fail(NOT_FOUND_MSG))
    ensures node.fileType == Vfs.Directory && Find(Entries(vol, node), name).Some? ==>
      var es := Entries(vol, node);
      var pos := Find(es, name).value;
      && r.1.entries == Some(Removed(es, pos))
      && (r.2.Done? ==> !GetBit(r.0.fs.inodeBitmap, es[pos].inode) && !r.1.dirty)
      && (r.2.Done? ==> r.0.table == vol.table[node.ino := r.1.disk] && r.1.disk.size == DIR_ENTRY_SIZE * (|es| - 1))
      && (r.2.Fail? ==> r.2.msg == NO_FREE_BLOCKS_MSG || (r.2.msg == ROOT_INODE_MSG && es[pos].inode == ROOT_INODE))
    ensures |r.1.disk.direct| == DIRECT_BLOCKS && r.1.ino == node.ino && r.1.fileType == node.fileType
    ensures r.1.data == node.data
  {
    if node.fileType != Vfs.Directory then (vol, node, Fail(Vfs.NOT_DIRECTORY_MSG))
    else
      var es := Entries(vol, node);
      var node1 := node.(entries := Some(es));
      match Find(es, name)
      case None => (vol, node1, Fail(NOT_FOUND_MSG))
      case Some(pos) =>
        var ino := es[pos].inode;
        FreeAfterSave(vol, node1.(entries := Some(Removed(es, pos)), dirty := true), ino)
  }

  /** `Vec::remove(pos)`. */
  function Removed(es: seq<DirRecord>, pos: nat): (r: seq<DirRecord>)
    requires pos < |es|
    ensures |r| == |es| - 1
    ensures forall k :: 0 <= k < |r| ==> r[k] == es[if k < pos then k else k + 1]
  {
    es[..pos] + es[pos + 1..]
  }

  /** `sync`: a clean node has nothing to do; a dirty one saves its
      contents or its entries; other kinds have nothing to save. */
  function Sync(vol: Volume, node: Node): (r: (Volume, Node, Outcome))
    requires |node.disk.direct| == DIRECT_BLOCKS
    requires node.data.Some? ==> |node.data.value| < U64_MODULUS
    requires node.entries.Some? ==> Saveable(node.entries.value)
    ensures !node.dirty ==> r == (vol, node, Done)
    ensures node.dirty && node.fileType == Vfs.Regular ==> r == SaveFileData(vol, node)
    ensures node.dirty && node.fileType == Vfs.Directory ==> r == SaveDirEntries(vol, node)
    ensures node.fileType != Vfs.Regular && node.fileType != Vfs.Directory ==> r == (vol, node, Done)
  {
    if !node.dirty then (vol, node, Done)
    else match node.fileType
      case Regular => SaveFileData(vol, node)
      case Directory => SaveDirEntries(vol, node)
      case _ => (vol, node, Done)
  }

  // ---------------------------------------------------------------------
  // Properties

  lemma FindAppend(es: seq<DirRecord>, e: DirRecord, name: seq<byte>)
    requires AllWellFormed(es) && WellFormed(e) && Find(es, name).None? && RecordName(e) == name
    ensures AllWellFormed(es + [e]) && Find(es + [e], name) == Some(|es|)
  {
    var es2 := es + [e];
    assert AllWellFormed(es2) by {
      forall k | 0 <= k < |es2| ensures WellFormed(es2[k]) {
        if k < |es| { assert es2[k] == es[k]; }
      }
    }
    assert forall k :: 0 <= k < |es| ==> es2[k] == es[k];
    assert es2[|es|] == e;
  }

  /** A successful `create` or `mkdir` is visible at once: looking the
      name up finds the new inode, and the names stay unique. */
  lemma CreateThenLookup(vol: Volume, node: Node, name: seq<byte>, isDir: bool)
    requires |node.disk.direct| == DIRECT_BLOCKS && AllWellFormed(Entries(vol, node))
    requires DIR_ENTRY_SIZE * (|Entries(vol, node)| + 1) < U64_MODULUS
    requires UniqueNames(Entries(vol, node))
    requires name != DOT && name != DOT_DOT
    requires AddEntry(vol, node, name, isDir).2.Ok?
    ensures var r := AddEntry(vol, node, name, isDir);
      && AllWellFormed(Entries(r.0, r.1)) && UniqueNames(Entries(r.0, r.1))
      && Lookup(r.0, r.1, name).1 == Ok(Some(r.2.value))
  {
    var es := Entries(vol, node);
    var r := AddEntry(vol, node, name, isDir);
    var ino := AllocInode(vol.fs).result.value;
    var e := NewRecord(ino, name, KindOf(isDir));
    var es2 := es + [e];
    assert r.1.entries == Some(es2);
    assert LoadInode(r.0, ino) == Ok(r.2.value);
    NameRoundTrip(ino, name, KindOf(isDir));
    FindAppend(es, e, name);
    AppendUnique(es, e);
    assert es2[|es|].inode == ino;
  }

  lemma AppendUnique(es: seq<DirRecord>, e: DirRecord)
    requires AllWellFormed(es) && WellFormed(e) && UniqueNames(es)
    requires Find(es, RecordName(e)).None?
    ensures AllWellFormed(es + [e]) && UniqueNames(es + [e])
  {
    var es2 := es + [e];
    AppendWellFormed(es, e);
    forall k, l | 0 <= k < l < |es2| ensures RecordName(es2[k]) != RecordName(es2[l]) {
      assert es2[k] == es[k];
      if l < |es| { assert es2[l] == es[l]; }
    }
  }

  /** A successful `create` or `mkdir` is listed last by `readdir`, under
      its name and kind. */
  lemma CreateThenReaddir(vol: Volume, node: Node, name: seq<byte>, isDir: bool)
    requires |node.disk.direct| == DIRECT_BLOCKS && AllWellFormed(Entries(vol, node))
    requires DIR_ENTRY_SIZE * (|Entries(vol, node)| + 1) < U64_MODULUS
    requires AddEntry(vol, node, name, isDir).2.Ok?
    ensures var r := AddEntry(vol, node, name, isDir);
      && AllWellFormed(Entries(r.0, r.1))
      && var listed := Readdir(r.0, r.1).1.value;
      && |listed| == |Entries(vol, node)| + 3
      && listed[|listed| - 1] == Vfs.DirEntry(NameString(name), KindOf(isDir), r.2.value.ino)
  {
    var es := Entries(vol, node);
    var r := AddEntry(vol, node, name, isDir);
    var ino := AllocInode(vol.fs).result.value;
    var e := NewRecord(ino, name, KindOf(isDir));
    assert r.1.entries == Some(es + [e]) && r.2.value.ino == ino;
    NameRoundTrip(ino, name, KindOf(isDir));
    TypeCodeRoundTrip(KindOf(isDir), e.fileType);
    ReaddirLast(r.0, r.1, es, e);
  }

  /** A directory whose cached entries end with `e` lists `e` last. */
  lemma ReaddirLast(vol: Volume, node: Node, es: seq<DirRecord>, e: DirRecord)
    requires |node.disk.direct| == DIRECT_BLOCKS && node.fileType == Vfs.Directory
    requires AllWellFormed(es) && WellFormed(e) && node.entries == Some(es + [e])
    ensures AllWellFormed(Entries(vol, node))
    ensures var listed := Readdir(vol, node).1.value;
      |listed| == |es| + 3 && listed[|listed| - 1] == Listed(e)
  {
    AppendWellFormed(es, e);
    assert (es + [e])[|es|] == e;
  }

  /** After a successful `unlink` of a name the directory held once, the
      name is gone. */
  lemma UnlinkThenLookup(vol: Volume, node: Node, name: seq<byte>)
    requires |node.disk.direct| == DIRECT_BLOCKS && AllWellFormed(Entries(vol, node))
    requires DIR_ENTRY_SIZE * |Entries(vol, node)| < U64_MODULUS
    requires UniqueNames(Entries(vol, node))
    requires name != DOT && name != DOT_DOT
    requires Unlink(vol, node, name).2.Done?
    ensures var r := Unlink(vol, node, name);
      && AllWellFormed(Entries(r.0, r.1)) && UniqueNames(Entries(r.0, r.1))
      && Lookup(r.0, r.1, name).1 == Ok(None)
  {
    var es := Entries(vol, node);
    var pos := Find(es, name).value;
    var r := Unlink(vol, node, name);
    assert r.1.entries == Some(Removed(es, pos));
    RemoveUnique(es, pos);
  }

  /** Removing the entry at `pos` from uniquely named entries leaves them
      uniquely named, and its name absent. */
  lemma RemoveUnique(es: seq<DirRecord>, pos: nat)
    requires AllWellFormed(es) && UniqueNames(es) && pos < |es|
    ensures AllWellFormed(Removed(es, pos)) && UniqueNames(Removed(es, pos))
    ensures Find(Removed(es, pos), RecordName(es[pos])).None?
  {
    var es2 := Removed(es, pos);
    assert AllWellFormed(es2);
    forall k | 0 <= k < |es2| ensures RecordName(es2[k]) != RecordName(es[pos]) {
      if k >= pos {
        assert RecordName(es[k + 1]) != RecordName(es[pos]);
      }
    }
    forall k, l | 0 <= k < l < |es2| ensures RecordName(es2[k]) != RecordName(es2[l]) {
      var k' := if k < pos then k else k + 1;
      var l' := if l < pos then l else l + 1;
      assert RecordName(es[k']) != RecordName(es[l']);
    }
  }

  /** A directory that is saved, as every successful `create`, `mkdir`
      and `unlink` saves it, loads back after a remount as the entries in
      memory, and the allocation state stays consistent. */
  lemma AddEntryPersists(vol: Volume, node: Node, name: seq<byte>, isDir: bool)
    requires FileOk(vol, node) && AllWellFormed(Entries(vol, node)) && NoneEmpty(Entries(vol, node))
    requires DIR_ENTRY_SIZE * (|Entries(vol, node)| + 1) <= MAX_DIRECT_BYTES
    ensures var (vol', node', out) := AddEntry(vol, node, name, isDir);
      && FileOk(vol', node')
      && (out.Ok? ==> LoadDirEntries(vol'.dev, vol'.table[node.ino].direct) == node'.entries.value)
  {
    var es := Entries(vol, node);
    if node.fileType == Vfs.Directory && |name| <= MAX_FILENAME && Find(es, name).None? {
      assert AddEntry(vol, node, name, isDir) == AddNew(vol, node, es, name, isDir);
      AddNewPersists(vol, node, es, name, isDir);
    }
  }

  lemma AddNewPersists(vol: Volume, node: Node, es: seq<DirRecord>, name: seq<byte>, isDir: bool)
    requires FileOk(vol, node) && node.fileType == Vfs.Directory
    requires AllWellFormed(es) && NoneEmpty(es) && DIR_ENTRY_SIZE * (|es| + 1) <= MAX_DIRECT_BYTES
    ensures var (vol', node', out) := AddNew(vol, node, es, name, isDir);
      && FileOk(vol', node')
      && (out.Ok? ==> LoadDirEntries(vol'.dev, vol'.table[node.ino].direct) == node'.entries.value)
  {
    var st := AllocInode(vol.fs);
    if st.result.Ok? {
      AllocInodeConsistent(vol.fs);
      var ino: u64 := st.result.value;
      var vol2 := vol.(fs := st.fs, table := vol.table[ino := if isDir then NewDirInode() else NewFileInode()]);
      var e := NewRecord(ino, name, KindOf(isDir));
      var es2 := es + [e];
      AppendWellFormed(es, e);
      assert NoneEmpty(es2) by {
        forall k | 0 <= k < |es2| ensures !IsEmpty(es2[k]) {
          if k < |es| { assert es2[k] == es[k]; }
        }
      }
      OwnsSameData(vol.fs, st.fs, node.disk.direct);
      var n2 := node.(entries := Some(es2), dirty := true);
      SaveDirRoundTrip(vol2, n2);
      var (vol3, node3, out) := SaveDirEntries(vol2, n2);
      assert AddNew(vol, node, es, name, isDir).0 == vol3;
      assert AddNew(vol, node, es, name, isDir).1 == node3;
    }
  }

  lemma OwnsSameData(fs: Fs, fs': Fs, direct: seq<u64>)
    requires OwnsBlocks(fs, direct) && fs'.dataBitmap == fs.dataBitmap
    ensures OwnsBlocks(fs', direct)
  {
  }

  lemma UnlinkPersists(vol: Volume, node: Node, name: seq<byte>)
    requires FileOk(vol, node) && AllWellFormed(Entries(vol, node)) && NoneEmpty(Entries(vol, node))
    requires DIR_ENTRY_SIZE * |Entries(vol, node)| <= MAX_DIRECT_BYTES
    ensures var r := Unlink(vol, node, name);
      && FileOk(r.0, r.1)
      && (r.2.Done? ==> LoadDirEntries(r.0.dev, r.0.table[node.ino].direct) == r.1.entries.value)
  {
    var es := Entries(vol, node);
    if node.fileType == Vfs.Directory && Find(es, name).Some? {
      var pos := Find(es, name).value;
      var n1 := node.(entries := Some(Removed(es, pos)), dirty := true);
      UnlinkSaved(vol, n1, es[pos].inode);
      assert Unlink(vol, node, name) == FreeAfterSave(vol, n1, es[pos].inode);
    }
  }

  /** The last two steps of `unlink`: save, then free the inode. */
  function FreeAfterSave(vol: Volume, node: Node, ino: u64): (r: (Volume, Node, Outcome))
    requires |node.disk.direct| == DIRECT_BLOCKS && node.entries.Some? && Saveable(node.entries.value)
  {
    var (vol2, node2, out) := SaveDirEntries(vol, node);
    if out.Fail? then (vol2, node2, out)
    else
      var st := FreeInode(vol2.fs, ino);
      (vol2.(fs := st.fs), node2, if st.result.Err? then Fail(st.result.msg) else Done)
  }

  lemma UnlinkSaved(vol: Volume, node: Node, ino: u64)
    requires FileOk(vol, node) && node.fileType == Vfs.Directory && node.entries.Some?
    requires AllWellFormed(node.entries.value) && NoneEmpty(node.entries.value)
    requires DIR_ENTRY_SIZE * |node.entries.value| <= MAX_DIRECT_BYTES
    ensures var r := FreeAfterSave(vol, node, ino);
      && FileOk(r.0, r.1)
      && (r.2.Done? ==> LoadDirEntries(r.0.dev, r.1.disk.direct) == node.entries.value)
  {
    SaveDirRoundTrip(vol, node);
    var s := SaveDirEntries(vol, node);
    if s.2.Done? {
      var st := FreeInode(s.0.fs, ino);
      FreeInodeConsistent(s.0.fs, ino);
      OwnsSameData(s.0.fs, st.fs, s.1.disk.direct);
    }
  }

  /** A sync that succeeds leaves the node clean, so a second sync
      changes nothing. */
  lemma SyncIdempotent(vol: Volume, node: Node)
    requires |node.disk.direct| == DIRECT_BLOCKS
    requires node.data.Some? ==> |node.data.value| < U64_MODULUS
    requires node.entries.Some? ==> Saveable(node.entries.value)
    requires Sync(vol, node).2.Done?
    ensures var (vol', node', _) := Sync(vol, node);
      Sync(vol', node') == (vol', node', Done) || node'.fileType !in {Vfs.Regular, Vfs.Directory}
  {
  }
}
