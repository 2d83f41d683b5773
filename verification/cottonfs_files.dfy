/** CottonFS inodes and regular files (kernel/src/fs/cottonfs.rs): the
    on-disk inode, the in-memory `CottonInode` with its cached contents,
    `load_file_data`/`save_file_data` over the twelve direct blocks, and
    the file operations `read`, `write`, `truncate`, `stat` and `sync`.

    The device is a map from block numbers to 4096-byte contents; a block
    never written reads as zeros. The inode table is kept as a map from
    inode numbers to inodes rather than as bytes. Device errors are not
    modelled: reads and writes of blocks always succeed. */
module CottonFiles {
  import opened Common
  import opened Bitmap
  import opened CottonFs
  import Vfs
  import FileData

  type Bytes = seq<byte>

  /** The bytes twelve direct blocks hold: files are saved up to this
      size; the indirect pointer is never used. */
  const MAX_DIRECT_BYTES: nat := DIRECT_BLOCKS * BLOCK_SIZE

  const NOT_LOADED_MSG: string := "File data not loaded"
  const NOT_ALLOCATED_MSG: string := "Inode is not allocated"

  // ---------------------------------------------------------------------
  // On-disk inodes

  /** `DiskInode`; `file_type` is 0 for a free slot, 1 file, 2 directory,
      3 symlink. */
  datatype DiskInode = DiskInode(
    mode: bv16,
    fileType: byte,
    uid: u32,
    gid: u32,
    size: u64,
    blocks: u64,
    atime: u64,
    mtime: u64,
    ctime: u64,
    nlink: u32,
    direct: seq<u64>,
    indirect: u64)

  function NoBlocks(): (d: seq<u64>)
    ensures |d| == DIRECT_BLOCKS && forall k :: 0 <= k < |d| ==> d[k] == 0
  {
    seq(DIRECT_BLOCKS, _ => 0)
  }

  /** `DiskInode::new_file`: an empty file with no blocks, mode 0o644, one
      link. */
  function NewFileInode(): (di: DiskInode)
    ensures di.fileType == 1 && di.mode == Vfs.DEFAULT_FILE && di.nlink == 1
    ensures di.size == 0 && di.blocks == 0 && di.direct == NoBlocks() && di.indirect == 0
  {
    DiskInode(Vfs.DEFAULT_FILE, 1, 0, 0, 0, 0, 0, 0, 0, 1, NoBlocks(), 0)
  }

  /** `DiskInode::new_dir`: an empty directory, mode 0o755, two links. */
  function NewDirInode(): (di: DiskInode)
    ensures di.fileType == 2 && di.mode == Vfs.DEFAULT_DIR && di.nlink == 2
    ensures di.size == 0 && di.blocks == 0 && di.direct == NoBlocks() && di.indirect == 0
  {
    DiskInode(Vfs.DEFAULT_DIR, 2, 0, 0, 0, 0, 0, 0, 0, 2, NoBlocks(), 0)
  }

  predicate IsFree(di: DiskInode) { di.fileType == 0 }

  /** `get_file_type`, and the same decoding `readdir` applies to a
      directory entry's type byte: unknown codes read as regular files. */
  function TypeFromCode(code: byte): (t: Vfs.FileType)
    ensures t == Vfs.Directory <==> code == 2
    ensures t == Vfs.Symlink <==> code == 3
    ensures t == Vfs.Regular <==> code != 2 && code != 3
  {
    match code
    case 1 => Vfs.Regular
    case 2 => Vfs.Directory
    case 3 => Vfs.Symlink
    case _ => Vfs.Regular
  }

  /** The type byte `DiskDirEntry::new` stores: devices, FIFOs and sockets
      have no code and get 0. */
  function CodeFromType(t: Vfs.FileType): (code: byte)
    ensures code <= 3
    ensures code == 0 <==> !(t.Regular? || t.Directory? || t.Symlink?)
  {
    match t
    case Regular => 1
    case Directory => 2
    case Symlink => 3
    case _ => 0
  }

  /** Encoding a type and decoding it gives it back for the three types
      CottonFS stores; the others come back as regular files. Every code
      1 to 3 survives the opposite trip. */
  lemma TypeCodeRoundTrip(t: Vfs.FileType, code: byte)
    ensures (t.Regular? || t.Directory? || t.Symlink?) ==> TypeFromCode(CodeFromType(t)) == t
    ensures !(t.Regular? || t.Directory? || t.Symlink?) ==> TypeFromCode(CodeFromType(t)) == Vfs.Regular
    ensures 1 <= code <= 3 ==> CodeFromType(TypeFromCode(code)) == code
  {
  }

  // ---------------------------------------------------------------------
  // The device and the volume

  datatype Device = Device(blocks: map<nat, Bytes>)

  /** `read_block`: what a block holds; a block never written reads as
      zeros. */
  function ReadBlock(dev: Device, b: nat): (r: Bytes)
    ensures |r| == BLOCK_SIZE
  {
    if b in dev.blocks && |dev.blocks[b]| == BLOCK_SIZE then dev.blocks[b] else FileData.Zeros(BLOCK_SIZE)
  }

  /** `write_block` of a full block. */
  function WriteBlock(dev: Device, b: nat, buf: Bytes): (r: Device)
    requires |buf| == BLOCK_SIZE
    ensures ReadBlock(r, b) == buf
    ensures forall c :: c != b ==> ReadBlock(r, c) == ReadBlock(dev, c)
  {
    Device(dev.blocks[b := buf])
  }

  /** The filesystem as the kernel holds it: allocation state, the device,
      and the inode table. */
  datatype Volume = Volume(fs: Fs, dev: Device, table: map<nat, DiskInode>)

  /** `read_disk_inode`: a slot never written reads as a free inode. */
  function ReadDiskInode(vol: Volume, ino: u64): (di: DiskInode)
    ensures ino in vol.table ==> di == vol.table[ino]
    ensures ino !in vol.table ==> IsFree(di)
  {
    if ino in vol.table then vol.table[ino] else DiskInode(0, 0, 0, 0, 0, 0, 0, 0, 0, 0, NoBlocks(), 0)
  }

  /** `DiskDirEntry`: an inode number (0 marks an empty slot), the name's
      length, a type code, and the name field, zero-padded to 60 bytes. */
  datatype DirRecord = DirRecord(inode: u64, nameLen: byte, fileType: byte, name: seq<byte>)

  /** The in-memory `CottonInode`: its number, its type (fixed when it was
      loaded), its copy of the disk inode, the cached directory entries or
      file contents, and the dirty flag. */
  datatype Node = Node(
    ino: u64,
    fileType: Vfs.FileType,
    disk: DiskInode,
    entries: Option<seq<DirRecord>>,
    data: Option<Bytes>,
    dirty: bool)

  /** `load_inode` from disk: a free slot is refused; otherwise a node
      with nothing cached. The inode cache, which hands back the node
      already loaded, is not modelled. */
  function LoadInode(vol: Volume, ino: u64): (r: Result<Node>)
    ensures r.Err? <==> IsFree(ReadDiskInode(vol, ino))
    ensures r.Err? ==> r.msg == NOT_ALLOCATED_MSG
    ensures r.Ok? ==>
      && r.value.ino == ino && r.value.disk == ReadDiskInode(vol, ino)
      && r.value.fileType == TypeFromCode(ReadDiskInode(vol, ino).fileType)
      && r.value.entries.None? && r.value.data.None? && !r.value.dirty
  {
    var di := ReadDiskInode(vol, ino);
    if IsFree(di) then Err(NOT_ALLOCATED_MSG)
    else Ok(Node(ino, TypeFromCode(di.fileType), di, None, None, false))
  }

  // ---------------------------------------------------------------------
  // Direct blocks

  /** The direct pointers of one inode name distinct data blocks, each
      marked in use in the data bitmap (0 means no block). */
  ghost predicate OwnsBlocks(fs: Fs, direct: seq<u64>)
  {
    && |direct| == DIRECT_BLOCKS
    && (forall k :: 0 <= k < |direct| && direct[k] != 0 ==>
          direct[k] >= DATA_BLOCKS_START && GetBit(fs.dataBitmap, direct[k] - DATA_BLOCKS_START))
    && (forall k, l :: 0 <= k < l < |direct| && direct[k] != 0 ==> direct[k] != direct[l])
  }

  /** Block `i` of `data` as `save_*` writes it: its bytes, zero-padded to
      a full block. */
  function Chunk(data: Bytes, i: nat): (r: Bytes)
    requires i * BLOCK_SIZE <= |data|
    ensures |r| == BLOCK_SIZE
    ensures r[..Min(BLOCK_SIZE, |data| - i * BLOCK_SIZE)] == data[i * BLOCK_SIZE..i * BLOCK_SIZE + Min(BLOCK_SIZE, |data| - i * BLOCK_SIZE)]
  {
    var lo := i * BLOCK_SIZE;
    var hi := Min(lo + BLOCK_SIZE, |data|);
    data[lo..hi] + FileData.Zeros(BLOCK_SIZE - (hi - lo))
  }

  /** What a save leaves behind: allocation state, device, direct
      pointers, and the outcome. */
  datatype Saved = Saved(fs: Fs, dev: Device, direct: seq<u64>, out: Outcome)

  /** The loop `for i in 0..blocks_needed.min(DIRECT_BLOCKS)` of
      `save_file_data`, from block `i` on: a missing block is allocated
      (the first failure ends the save), then the block's chunk is
      written. */
  function WriteBlocks(fs: Fs, dev: Device, direct: seq<u64>, data: Bytes, i: nat, k: nat): (r: Saved)
    requires |direct| == DIRECT_BLOCKS && i <= k <= DIRECT_BLOCKS
    requires k == 0 || (k - 1) * BLOCK_SIZE < |data|
    ensures |r.direct| == DIRECT_BLOCKS
    ensures r.out.Fail? ==> r.out.msg == NO_FREE_BLOCKS_MSG
    ensures forall j :: 0 <= j < DIRECT_BLOCKS && (j < i || j >= k) ==> r.direct[j] == direct[j]
    ensures forall j :: i <= j < k && direct[j] != 0 ==> r.direct[j] == direct[j]
    decreases k - i
  {
    if i == k then Saved(fs, dev, direct, Done)
    else
      var st := if direct[i] == 0 then AllocBlock(fs) else Step(fs, Ok(direct[i] as nat));
      if st.result.Err? then Saved(st.fs, dev, direct, Fail(st.result.msg))
      else
        var b: u64 := st.result.value;
        WriteBlocks(st.fs, WriteBlock(dev, b, Chunk(data, i)), direct[i := b], data, i + 1, k)
  }

  /** On a consistent filesystem the write loop keeps the counters in step
      and the pointers owned; on success every block `i .. k - 1` holds its
      chunk, and no other block of the device changed. */
  lemma {:induction false} WriteBlocksSound(fs: Fs, dev: Device, direct: seq<u64>, data: Bytes, i: nat, k: nat)
    requires |direct| == DIRECT_BLOCKS && i <= k <= DIRECT_BLOCKS
    requires k == 0 || (k - 1) * BLOCK_SIZE < |data|
    requires Consistent(fs) && OwnsBlocks(fs, direct)
    ensures var r := WriteBlocks(fs, dev, direct, data, i, k);
      && Consistent(r.fs) && OwnsBlocks(r.fs, r.direct)
      && (r.out.Done? ==> forall j :: i <= j < k ==> r.direct[j] != 0 && ReadBlock(r.dev, r.direct[j]) == Chunk(data, j))
      && (forall c: nat :: (forall j :: i <= j < k ==> c != r.direct[j]) ==> ReadBlock(r.dev, c) == ReadBlock(dev, c))
    decreases k - i
  {
    if i < k {
      var st := if direct[i] == 0 then AllocBlock(fs) else Step(fs, Ok(direct[i] as nat));
      if direct[i] == 0 {
        AllocBlockConsistent(fs);
      }
      if st.result.Ok? {
        var b := st.result.value;
        var dev1 := WriteBlock(dev, b, Chunk(data, i));
        var direct1 := direct[i := b];
        OwnsAfterPlace(fs, st.fs, direct, i, b);
        WriteBlocksSound(st.fs, dev1, direct1, data, i + 1, k);
        var r := WriteBlocks(st.fs, dev1, direct1, data, i + 1, k);
        assert r == WriteBlocks(fs, dev, direct, data, i, k);
        assert r.direct[i] == b;
        if r.out.Done? {
          forall j | i <= j < k ensures r.direct[j] != 0 && ReadBlock(r.dev, r.direct[j]) == Chunk(data, j) {
            if j == i {
              assert b != 0;
              forall l | i + 1 <= l < k ensures b != r.direct[l] {
                DistinctPointers(r.fs, r.direct, i, l);
              }
            }
          }
        }
      }
    }
  }

  /** Distinct slots of an owned pointer array hold distinct blocks. */
  lemma DistinctPointers(fs: Fs, direct: seq<u64>, a: nat, b: nat)
    requires OwnsBlocks(fs, direct) && a < |direct| && b < |direct| && a != b && direct[a] != 0
    ensures direct[a] != direct[b]
  {
    if b < a && direct[b] != 0 {
      assert direct[b] != direct[a];
    }
  }

  /** Placing into slot `i` either the block already there, or a block
      just allocated (whose bit was clear), keeps the pointers owned. */
  lemma OwnsAfterPlace(fs: Fs, fs1: Fs, direct: seq<u64>, i: nat, b: nat)
    requires OwnsBlocks(fs, direct) && i < DIRECT_BLOCKS && b < U64_MODULUS
    requires (direct[i] != 0 && b == direct[i] && fs1 == fs)
          || (direct[i] == 0 && AllocBlock(fs) == Step(fs1, Ok(b)))
    ensures OwnsBlocks(fs1, direct[i := b])
  {
    if direct[i] == 0 {
      PlaceMarked(fs, fs1, direct, i, b, direct[i := b]);
      PlaceDistinct(fs, direct, i, b, direct[i := b]);
    } else {
      assert direct[i := b] == direct;
    }
  }

  lemma PlaceMarked(fs: Fs, fs1: Fs, direct: seq<u64>, i: nat, b: nat, d: seq<u64>)
    requires OwnsBlocks(fs, direct) && i < DIRECT_BLOCKS && b < U64_MODULUS && d == direct[i := b]
    requires direct[i] == 0 && AllocBlock(fs) == Step(fs1, Ok(b))
    ensures forall k :: 0 <= k < DIRECT_BLOCKS && d[k] != 0 ==>
      d[k] >= DATA_BLOCKS_START && GetBit(fs1.dataBitmap, d[k] - DATA_BLOCKS_START)
  {
    var n := b - DATA_BLOCKS_START;
    forall k | 0 <= k < DIRECT_BLOCKS && d[k] != 0
      ensures d[k] >= DATA_BLOCKS_START && GetBit(fs1.dataBitmap, d[k] - DATA_BLOCKS_START)
    {
      GetSetBit(fs.dataBitmap, n, d[k] - DATA_BLOCKS_START);
    }
  }

  lemma PlaceDistinct(fs: Fs, direct: seq<u64>, i: nat, b: nat, d: seq<u64>)
    requires OwnsBlocks(fs, direct) && i < DIRECT_BLOCKS && b < U64_MODULUS && d == direct[i := b]
    requires direct[i] == 0 && b >= DATA_BLOCKS_START && !GetBit(fs.dataBitmap, b - DATA_BLOCKS_START)
    ensures forall k, l :: 0 <= k < l < DIRECT_BLOCKS && d[k] != 0 ==> d[k] != d[l]
  {
    forall k, l | 0 <= k < l < DIRECT_BLOCKS && d[k] != 0 ensures d[k] != d[l] {
      if k == i {
        if direct[l] != 0 {
          assert GetBit(fs.dataBitmap, direct[l] - DATA_BLOCKS_START);
        }
      } else if l == i {
        assert GetBit(fs.dataBitmap, direct[k] - DATA_BLOCKS_START);
      } else {
        assert d[k] == direct[k] && d[l] == direct[l];
      }
    }
  }

  /** The loop `for i in blocks_needed..DIRECT_BLOCKS` of `save_file_data`:
      each block the shorter file no longer needs is freed (the result is
      ignored) and its pointer cleared. */
  function FreeExtra(fs: Fs, direct: seq<u64>, i: nat): (r: (Fs, seq<u64>))
    requires |direct| == DIRECT_BLOCKS && i <= DIRECT_BLOCKS
    ensures |r.1| == DIRECT_BLOCKS
    ensures forall j :: 0 <= j < i ==> r.1[j] == direct[j]
    ensures forall j :: i <= j < DIRECT_BLOCKS ==> r.1[j] == 0
    decreases DIRECT_BLOCKS - i
  {
    if i == DIRECT_BLOCKS then (fs, direct)
    else if direct[i] != 0 then FreeExtra(FreeBlock(fs, direct[i]).fs, direct[i := 0], i + 1)
    else FreeExtra(fs, direct, i + 1)
  }

  /** Freeing the tail keeps the counters in step and the remaining
      pointers owned. */
  lemma {:induction false} FreeExtraSound(fs: Fs, direct: seq<u64>, i: nat)
    requires |direct| == DIRECT_BLOCKS && i <= DIRECT_BLOCKS
    requires Consistent(fs) && OwnsBlocks(fs, direct)
    ensures Consistent(FreeExtra(fs, direct, i).0) && OwnsBlocks(FreeExtra(fs, direct, i).0, FreeExtra(fs, direct, i).1)
    decreases DIRECT_BLOCKS - i
  {
    if i < DIRECT_BLOCKS && direct[i] != 0 {
      FreeBlockConsistent(fs, direct[i]);
      ClearSlotMarked(fs, direct, i, direct[i := 0]);
      ClearSlotDistinct(fs, direct, i, direct[i := 0]);
      FreeExtraSound(FreeBlock(fs, direct[i]).fs, direct[i := 0], i + 1);
    } else if i < DIRECT_BLOCKS {
      FreeExtraSound(fs, direct, i + 1);
    }
  }

  /** Freeing the block of slot `i` leaves the other slots' blocks marked. */
  lemma ClearSlotMarked(fs: Fs, direct: seq<u64>, i: nat, d: seq<u64>)
    requires OwnsBlocks(fs, direct) && i < DIRECT_BLOCKS && direct[i] != 0 && d == direct[i := 0]
    ensures forall k :: 0 <= k < DIRECT_BLOCKS && d[k] != 0 ==>
      d[k] >= DATA_BLOCKS_START && GetBit(FreeBlock(fs, direct[i]).fs.dataBitmap, d[k] - DATA_BLOCKS_START)
  {
    var fs1 := FreeBlock(fs, direct[i]).fs;
    var n := direct[i] - DATA_BLOCKS_START;
    forall k | 0 <= k < DIRECT_BLOCKS && d[k] != 0
      ensures d[k] >= DATA_BLOCKS_START && GetBit(fs1.dataBitmap, d[k] - DATA_BLOCKS_START)
    {
      DistinctPointers(fs, direct, i, k);
      GetClearBit(fs.dataBitmap, n, d[k] - DATA_BLOCKS_START);
    }
  }

  lemma ClearSlotDistinct(fs: Fs, direct: seq<u64>, i: nat, d: seq<u64>)
    requires OwnsBlocks(fs, direct) && i < DIRECT_BLOCKS && d == direct[i := 0]
    ensures forall k, l :: 0 <= k < l < DIRECT_BLOCKS && d[k] != 0 ==> d[k] != d[l]
  {
    forall k, l | 0 <= k < l < DIRECT_BLOCKS && d[k] != 0 ensures d[k] != d[l] {
      assert d[k] == direct[k];
      if l != i {
        assert d[l] == direct[l];
      }
    }
  }

  // ---------------------------------------------------------------------
  // Loading and saving file contents

  /** `load_file_data` from block `i` on, with `remaining` bytes of the
      recorded size still to read: it stops at the size, at a missing
      block, or after the twelfth block. */
  function LoadFrom(dev: Device, direct: seq<u64>, i: nat, remaining: nat): (r: Bytes)
    requires |direct| == DIRECT_BLOCKS && i <= DIRECT_BLOCKS
    ensures |r| <= remaining
    decreases DIRECT_BLOCKS - i
  {
    if i == DIRECT_BLOCKS || remaining == 0 || direct[i] == 0 then []
    else
      var n := Min(remaining, BLOCK_SIZE);
      ReadBlock(dev, direct[i])[..n] + LoadFrom(dev, direct, i + 1, remaining - n)
  }

  function LoadFileData(dev: Device, di: DiskInode): (r: Bytes)
    requires |di.direct| == DIRECT_BLOCKS
    ensures |r| <= di.size && |r| <= MAX_DIRECT_BYTES
  {
    LoadBound(dev, di.direct, 0, di.size);
    LoadFrom(dev, di.direct, 0, di.size)
  }

  lemma {:induction false} LoadBound(dev: Device, direct: seq<u64>, i: nat, remaining: nat)
    requires |direct| == DIRECT_BLOCKS && i <= DIRECT_BLOCKS
    ensures |LoadFrom(dev, direct, i, remaining)| <= (DIRECT_BLOCKS - i) * BLOCK_SIZE
    decreases DIRECT_BLOCKS - i
  {
    if !(i == DIRECT_BLOCKS || remaining == 0 || direct[i] == 0) {
      LoadBound(dev, direct, i + 1, remaining - Min(remaining, BLOCK_SIZE));
    }
  }

  /** Reading back blocks that hold the chunks of `data`, from block `i`
      on, gives the rest of `data` up to the twelve-block limit. */
  lemma {:induction false} LoadChunks(dev: Device, direct: seq<u64>, data: Bytes, i: nat)
    requires |direct| == DIRECT_BLOCKS && i <= DIRECT_BLOCKS && i * BLOCK_SIZE <= |data|
    requires forall j :: i <= j < DIRECT_BLOCKS && j * BLOCK_SIZE < |data| ==>
      direct[j] != 0 && ReadBlock(dev, direct[j]) == Chunk(data, j)
    ensures LoadFrom(dev, direct, i, |data| - i * BLOCK_SIZE) == data[i * BLOCK_SIZE..Min(|data|, MAX_DIRECT_BYTES)]
    decreases DIRECT_BLOCKS - i
  {
    var rem := |data| - i * BLOCK_SIZE;
    if i == DIRECT_BLOCKS || rem == 0 {
    } else {
      var n := Min(rem, BLOCK_SIZE);
      var lo := i * BLOCK_SIZE;
      assert ReadBlock(dev, direct[i])[..n] == data[lo..lo + n];
      if rem <= BLOCK_SIZE {
        assert LoadFrom(dev, direct, i + 1, 0) == [];
        assert lo + n == |data| <= MAX_DIRECT_BYTES;
      } else {
        LoadChunks(dev, direct, data, i + 1);
        assert (i + 1) * BLOCK_SIZE == lo + n;
        assert data[lo..Min(|data|, MAX_DIRECT_BYTES)] == data[lo..lo + n] + data[lo + n..Min(|data|, MAX_DIRECT_BYTES)];
      }
    }
  }

  /** `save_file_data`. Blocks are allocated and written for as much of
      the contents as twelve blocks hold, blocks past the new length are
      freed, and the inode records the full length and block count and is
      written to the table. A failed allocation ends the save with the
      pointers placed so far kept in memory only. */
  function SaveFileData(vol: Volume, node: Node): (r: (Volume, Node, Outcome))
    requires |node.disk.direct| == DIRECT_BLOCKS
    requires node.data.Some? ==> |node.data.value| < U64_MODULUS
    ensures node.fileType != Vfs.Regular ==> r == (vol, node, Fail(Vfs.NOT_REGULAR_MSG))
    ensures node.fileType == Vfs.Regular && node.data.None? ==> r == (vol, node, Fail(NOT_LOADED_MSG))
    ensures |r.1.disk.direct| == DIRECT_BLOCKS && r.1.data == node.data && r.1.ino == node.ino
    ensures r.1.fileType == node.fileType && r.1.entries == node.entries
    ensures r.2.Fail? ==> r.1.dirty == node.dirty && r.0.table == vol.table
    ensures r.2.Done? ==>
      var n := |node.data.value|;
      && r.1.disk == node.disk.(size := n, blocks := FileData.BlocksFor(n), direct := r.1.disk.direct)
      && r.0.table == vol.table[node.ino := r.1.disk]
      && !r.1.dirty
      && (forall j :: FileData.BlocksFor(n) <= j < DIRECT_BLOCKS ==> r.1.disk.direct[j] == 0)
  {
    if node.fileType != Vfs.Regular then (vol, node, Fail(Vfs.NOT_REGULAR_MSG))
    else if node.data.None? then (vol, node, Fail(NOT_LOADED_MSG))
    else
      var data := node.data.value;
      var needed := FileData.BlocksFor(|data|);
      var w := WriteBlocks(vol.fs, vol.dev, node.disk.direct, data, 0, Min(needed, DIRECT_BLOCKS));
      if w.out.Fail? then
        (vol.(fs := w.fs, dev := w.dev), node.(disk := node.disk.(direct := w.direct)), w.out)
      else
        var (fs2, direct2) := FreeExtra(w.fs, w.direct, Min(needed, DIRECT_BLOCKS));
        var di := node.disk.(size := |data|, blocks := needed, direct := direct2);
        (Volume(fs2, w.dev, vol.table[node.ino := di]), node.(disk := di, dirty := false), Done)
  }

  /** The pointers of a file are owned and its data bitmap consistent: the
      invariant every save keeps. */
  ghost predicate FileOk(vol: Volume, node: Node)
  {
    Consistent(vol.fs) && OwnsBlocks(vol.fs, node.disk.direct)
  }

  /** Saving keeps the counters in step and the pointers owned, and a
      successful save can be loaded back: a remount reads the contents
      saved, cut to the twelve direct blocks. */
  lemma SaveLoadRoundTrip(vol: Volume, node: Node)
    requires FileOk(vol, node)
    requires node.data.Some? ==> |node.data.value| < U64_MODULUS
    ensures var (vol', node', out) := SaveFileData(vol, node);
      && FileOk(vol', node')
      && (out.Done? ==> LoadFileData(vol'.dev, node'.disk) == node.data.value[..Min(|node.data.value|, MAX_DIRECT_BYTES)])
  {
    if node.fileType == Vfs.Regular && node.data.Some? {
      var data := node.data.value;
      var k := Min(FileData.BlocksFor(|data|), DIRECT_BLOCKS);
      WriteBlocksSound(vol.fs, vol.dev, node.disk.direct, data, 0, k);
      var w := WriteBlocks(vol.fs, vol.dev, node.disk.direct, data, 0, k);
      if w.out.Done? {
        FreeExtraSound(w.fs, w.direct, k);
        SavedLoads(w, data, k);
      }
    }
  }

  /** After the write loop succeeded, freeing the tail leaves pointers
      from which the contents load back. */
  lemma SavedLoads(w: Saved, data: Bytes, k: nat)
    requires |w.direct| == DIRECT_BLOCKS && k == Min(FileData.BlocksFor(|data|), DIRECT_BLOCKS)
    requires forall j :: 0 <= j < k ==> w.direct[j] != 0 && ReadBlock(w.dev, w.direct[j]) == Chunk(data, j)
    ensures LoadFrom(w.dev, FreeExtra(w.fs, w.direct, k).1, 0, |data|) == data[..Min(|data|, MAX_DIRECT_BYTES)]
  {
    var direct2 := FreeExtra(w.fs, w.direct, k).1;
    forall j | 0 <= j < DIRECT_BLOCKS && j * BLOCK_SIZE < |data|
      ensures direct2[j] != 0 && ReadBlock(w.dev, direct2[j]) == Chunk(data, j)
    {
      assert j < FileData.BlocksFor(|data|);
    }
    LoadChunks(w.dev, direct2, data, 0);
    assert data[0 * BLOCK_SIZE..Min(|data|, MAX_DIRECT_BYTES)] == data[..Min(|data|, MAX_DIRECT_BYTES)];
  }

  // ---------------------------------------------------------------------
  // File operations

  /** The contents a file operation works on: the cache, or what
      `load_file_data` reads when nothing is cached. */
  function Contents(vol: Volume, node: Node): (data: Bytes)
    requires |node.disk.direct| == DIRECT_BLOCKS
    ensures node.data.Some? ==> data == node.data.value
    ensures node.data.None? ==> |data| <= MAX_DIRECT_BYTES
  {
    if node.data.Some? then node.data.value else LoadFileData(vol.dev, node.disk)
  }

  /** `read(offset, buf)`: the contents are loaded if not cached, then the
      count and the buffer afterwards are `FileData.Read`'s. */
  function Read(vol: Volume, node: Node, offset: u64, buf: Bytes): (r: (Node, Result<(nat, Bytes)>))
    requires |node.disk.direct| == DIRECT_BLOCKS
    ensures node.fileType != Vfs.Regular ==> r == (node, Err(Vfs.NOT_REGULAR_MSG))
    ensures node.fileType == Vfs.Regular ==>
      && r.0 == node.(data := Some(Contents(vol, node)))
      && r.1 == Ok(FileData.Read(Contents(vol, node), offset, buf))
  {
    if node.fileType != Vfs.Regular then (node, Err(Vfs.NOT_REGULAR_MSG))
    else
      var data := Contents(vol, node);
      (node.(data := Some(data)), Ok(FileData.Read(data, offset, buf)))
  }

  /** `write(offset, buf)`: the cached contents take the bytes as
      `FileData.Write` places them, the file is saved at once, and the
      answer is the length of `buf` or the save's error. The source
      panics when `offset + buf.len()` overflows. */
  function Write(vol: Volume, node: Node, offset: u64, buf: Bytes): (r: (Volume, Node, Result<nat>))
    requires |node.disk.direct| == DIRECT_BLOCKS
    requires node.data.Some? ==> |node.data.value| < U64_MODULUS
    requires offset + |buf| < U64_MODULUS
    ensures node.fileType != Vfs.Regular ==> r == (vol, node, Err(Vfs.NOT_REGULAR_MSG))
    ensures node.fileType == Vfs.Regular ==>
      && r.1.data == Some(FileData.Write(Contents(vol, node), offset, buf))
      && (r.2.Ok? ==> r.2.value == |buf| && !r.1.dirty)
      && (r.2.Err? ==> r.2.msg == NO_FREE_BLOCKS_MSG && r.1.dirty)
    ensures |r.1.disk.direct| == DIRECT_BLOCKS && r.1.fileType == node.fileType
  {
    if node.fileType != Vfs.Regular then (vol, node, Err(Vfs.NOT_REGULAR_MSG))
    else
      var data := FileData.Write(Contents(vol, node), offset, buf);
      var (vol', node', out) := SaveFileData(vol, node.(data := Some(data), dirty := true));
      if out.Fail? then (vol', node', Err(out.msg)) else (vol', node', Ok(|buf|))
  }

  /** `truncate(size)`: the cached contents are resized as
      `FileData.Truncate` does and the file is saved. */
  function Truncate(vol: Volume, node: Node, size: u64): (r: (Volume, Node, Outcome))
    requires |node.disk.direct| == DIRECT_BLOCKS
    ensures node.fileType != Vfs.Regular ==> r == (vol, node, Fail(Vfs.NOT_REGULAR_MSG))
    ensures node.fileType == Vfs.Regular ==>
      && r.1.data == Some(FileData.Truncate(Contents(vol, node), size))
      && (r.2.Done? ==> r.1.disk.size == size && !r.1.dirty)
      && (r.2.Fail? ==> r.2.msg == NO_FREE_BLOCKS_MSG && r.1.dirty)
    ensures |r.1.disk.direct| == DIRECT_BLOCKS && r.1.fileType == node.fileType
  {
    if node.fileType != Vfs.Regular then (vol, node, Fail(Vfs.NOT_REGULAR_MSG))
    else
      var data := FileData.Truncate(Contents(vol, node), size);
      SaveFileData(vol, node.(data := Some(data), dirty := true))
  }

  /** `stat`: the disk inode's attributes, device 1, 4 KiB blocks, and
      the mode cut to the permission bits. */
  function Stat(node: Node): (s: Vfs.Stat)
    ensures s.ino == node.ino && s.size == node.disk.size && s.blocks == node.disk.blocks
    ensures s.fileType == node.fileType && s.nlink == node.disk.nlink
    ensures s.dev == 1 && s.rdev == 0 && s.blksize == BLOCK_SIZE
    ensures s.mode == Vfs.FromBitsTruncate(node.disk.mode)
  {
    Vfs.Stat(1, node.ino, Vfs.FromBitsTruncate(node.disk.mode), node.disk.nlink, node.disk.uid, node.disk.gid,
             0, node.disk.size, BLOCK_SIZE, node.disk.blocks, node.disk.atime, node.disk.mtime, node.disk.ctime,
             node.fileType)
  }

  /** A successful write can be read straight back through the cache. */
  lemma WriteThenRead(vol: Volume, node: Node, offset: u64, buf: Bytes, scratch: Bytes)
    requires |node.disk.direct| == DIRECT_BLOCKS
    requires node.data.Some? ==> |node.data.value| < U64_MODULUS
    requires offset + |buf| < U64_MODULUS
    requires node.fileType == Vfs.Regular && |scratch| == |buf| && |buf| > 0
    ensures var (vol', node', _) := Write(vol, node, offset, buf);
      Read(vol', node', offset, scratch).1 == Ok((|buf|, buf))
  {
    FileData.ReadAfterWrite(Contents(vol, node), offset, buf, scratch);
  }

  /** A successful write is on disk: reloading the file after a remount
      gives the cached contents (up to the twelve-block limit), and `stat`
      reports their length. */
  lemma WritePersists(vol: Volume, node: Node, offset: u64, buf: Bytes)
    requires FileOk(vol, node)
    requires node.data.Some? ==> |node.data.value| < U64_MODULUS
    requires offset + |buf| < U64_MODULUS
    ensures var (vol', node', out) := Write(vol, node, offset, buf);
      && FileOk(vol', node')
      && (out.Ok? ==>
            var data := node'.data.value;
            && LoadFileData(vol'.dev, vol'.table[node.ino]) == data[..Min(|data|, MAX_DIRECT_BYTES)]
            && Stat(node').size == |data|)
  {
    if node.fileType == Vfs.Regular {
      var data := FileData.Write(Contents(vol, node), offset, buf);
      SaveLoadRoundTrip(vol, node.(data := Some(data), dirty := true));
    }
  }

  /** A truncation is on disk too, and `stat` reports the new size. */
  lemma TruncatePersists(vol: Volume, node: Node, size: u64)
    requires FileOk(vol, node)
    ensures var (vol', node', out) := Truncate(vol, node, size);
      && FileOk(vol', node')
      && (out.Done? ==>
            && LoadFileData(vol'.dev, vol'.table[node.ino]) == node'.data.value[..Min(size, MAX_DIRECT_BYTES)]
            && Stat(node').size == size)
  {
    if node.fileType == Vfs.Regular {
      var data := FileData.Truncate(Contents(vol, node), size);
      SaveLoadRoundTrip(vol, node.(data := Some(data), dirty := true));
    }
  }
}
