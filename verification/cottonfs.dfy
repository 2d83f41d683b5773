/** CottonFS on-disk layout and allocation (kernel/src/fs/cottonfs.rs):
    the superblock, the inode and data-block bitmaps and the counters that
    track them, inode-table addressing, and the statistics derived from
    the superblock. The bitmaps are the in-memory caches the source keeps;
    writing them back to the device (`sync_*`) is not modelled. */
module CottonFs {
  import opened Common
  import opened Bitmap

  const BLOCK_SIZE: nat := 4096
  const FS_MAGIC: u32 := 0x4354_4653  // "CTFS"
  const FS_VERSION: u32 := 2

  const SUPERBLOCK_BLOCK: nat := 0
  const INODE_BITMAP_START: nat := 1
  const INODE_BITMAP_BLOCKS: nat := 31
  const DATA_BITMAP_START: nat := 32
  const DATA_BITMAP_BLOCKS: nat := 32
  const INODE_TABLE_START: nat := 64
  const INODE_TABLE_BLOCKS: nat := 64
  const DATA_BLOCKS_START: nat := 128

  const DISK_INODE_SIZE: nat := 128
  const INODES_PER_BLOCK: nat := BLOCK_SIZE / DISK_INODE_SIZE
  const MAX_INODES: nat := INODE_TABLE_BLOCKS * BLOCK_SIZE / DISK_INODE_SIZE
  const MAX_FILENAME: nat := 60
  const DIRECT_BLOCKS: nat := 12
  const ROOT_INODE: nat := 1

  const INODE_BITMAP_BYTES: nat := INODE_BITMAP_BLOCKS * BLOCK_SIZE
  const DATA_BITMAP_BYTES: nat := DATA_BITMAP_BLOCKS * BLOCK_SIZE
  /** Data blocks the data bitmap can describe. */
  const DATA_BITMAP_BITS: nat := 8 * DATA_BITMAP_BYTES

  /** The regions follow one another, and the inode table holds 2048
      inodes, 32 to a block. */
  lemma Layout()
    ensures MAX_INODES == 2048 && INODES_PER_BLOCK == 32
    ensures INODE_BITMAP_START == SUPERBLOCK_BLOCK + 1
    ensures DATA_BITMAP_START == INODE_BITMAP_START + INODE_BITMAP_BLOCKS
    ensures INODE_TABLE_START == DATA_BITMAP_START + DATA_BITMAP_BLOCKS
    ensures DATA_BLOCKS_START == INODE_TABLE_START + INODE_TABLE_BLOCKS
    ensures MAX_INODES <= 8 * INODE_BITMAP_BYTES
    ensures DATA_BITMAP_BITS == 0x10_0000
  {
  }

  datatype Superblock = Superblock(
    magic: u32,
    version: u32,
    blockSize: u32,
    totalBlocks: u64,
    totalInodes: u64,
    freeBlocks: u64,
    freeInodes: u64,
    rootInode: u64,
    mountCount: u32,
    lastMountTime: u64)

  /** Blocks past the metadata area (`total_blocks.saturating_sub(128)`). */
  function DataBlocks(totalBlocks: u64): nat
  {
    SaturatingSub64(totalBlocks, DATA_BLOCKS_START)
  }

  /** `Superblock::new`. */
  function NewSuperblock(totalBlocks: u64): (sb: Superblock)
    ensures sb.magic == FS_MAGIC && sb.version == FS_VERSION && sb.blockSize == BLOCK_SIZE
    ensures sb.totalBlocks == totalBlocks && sb.totalInodes == MAX_INODES
    ensures sb.rootInode == ROOT_INODE && sb.mountCount == 1
  {
    Superblock(FS_MAGIC, FS_VERSION, BLOCK_SIZE, totalBlocks, MAX_INODES,
               DataBlocks(totalBlocks), MAX_INODES - 1, ROOT_INODE, 1, 0)
  }

  /** The filesystem's allocation state: the cached superblock and the two
      bitmaps. */
  datatype Fs = Fs(sb: Superblock, inodeBitmap: seq<bv8>, dataBitmap: seq<bv8>)

  function ZeroBytes(n: nat): (z: seq<bv8>)
    ensures |z| == n && forall k :: 0 <= k < n ==> z[k] == 0
  {
    seq(n, _ => 0)
  }

  /** A freshly formatted filesystem: empty bitmaps except the root inode. */
  function Format(totalBlocks: u64): Fs
  {
    Fs(NewSuperblock(totalBlocks), SetBit(ZeroBytes(INODE_BITMAP_BYTES), ROOT_INODE), ZeroBytes(DATA_BITMAP_BYTES))
  }

  /** `CottonFS::new`: an existing filesystem is used as found when its
      magic and version match; anything else is formatted to the device's
      size. The second component says whether it formatted. */
  function Mount(onDisk: Superblock, inodeBitmap: seq<bv8>, dataBitmap: seq<bv8>, deviceBlocks: u64): (r: (Fs, bool))
    ensures r.1 <==> onDisk.magic != FS_MAGIC || onDisk.version != FS_VERSION
    ensures !r.1 ==> r.0 == Fs(onDisk, inodeBitmap, dataBitmap)
    ensures r.1 ==> r.0.sb.totalBlocks == deviceBlocks
  {
    if onDisk.magic == FS_MAGIC && onDisk.version == FS_VERSION then (Fs(onDisk, inodeBitmap, dataBitmap), false)
    else (Format(deviceBlocks), true)
  }

  /** The counters agree with the bitmaps. Inode 0 is never handed out, so
      its bit stays clear, and it is counted among the free inodes: the
      free count is 2048 minus the set bits, as `Superblock::new`'s
      `MAX_INODES - 1` makes it at format time. No bit past the inode table
      or past the end of the disk is ever set. */
  ghost predicate Consistent(fs: Fs)
  {
    && |fs.inodeBitmap| == INODE_BITMAP_BYTES
    && |fs.dataBitmap| == DATA_BITMAP_BYTES
    && fs.sb.blockSize == BLOCK_SIZE
    && fs.sb.totalInodes == MAX_INODES
    && !GetBit(fs.inodeBitmap, 0)
    && GetBit(fs.inodeBitmap, ROOT_INODE)
    && (forall i: nat :: i >= MAX_INODES ==> !GetBit(fs.inodeBitmap, i))
    && fs.sb.freeInodes == MAX_INODES - CountSet(fs.inodeBitmap, MAX_INODES)
    && (forall i: nat :: i >= DataBlocks(fs.sb.totalBlocks) ==> !GetBit(fs.dataBitmap, i))
    && fs.sb.freeBlocks == DataBlocks(fs.sb.totalBlocks) - CountSet(fs.dataBitmap, DataBlocks(fs.sb.totalBlocks))
  }

  /** Formatting establishes the counters: 2047 free inodes with only the
      root's bit set, and every data block free. */
  lemma FormatConsistent(totalBlocks: u64)
    ensures Consistent(Format(totalBlocks))
    ensures Format(totalBlocks).sb.freeInodes == MAX_INODES - 1
    ensures Format(totalBlocks).sb.freeBlocks == DataBlocks(totalBlocks)
  {
    var fs := Format(totalBlocks);
    var z := ZeroBytes(INODE_BITMAP_BYTES);
    CountEmpty(z, MAX_INODES);
    CountAfterSet(z, ROOT_INODE, MAX_INODES);
    ZerosClear(z, ROOT_INODE);
    GetSetBit(z, ROOT_INODE, 0);
    ZerosClear(z, 0);
    GetSetBit(z, ROOT_INODE, ROOT_INODE);
    forall i: nat | i >= MAX_INODES ensures !GetBit(fs.inodeBitmap, i) {
      GetSetBit(z, ROOT_INODE, i);
      ZerosClear(z, i);
    }
    CountEmpty(fs.dataBitmap, DataBlocks(totalBlocks));
    forall i: nat | i >= DataBlocks(totalBlocks) ensures !GetBit(fs.dataBitmap, i) {
      ZerosClear(fs.dataBitmap, i);
    }
  }

  /** A state after an allocation or a release: the new state and the
      result. */
  datatype Step<T> = Step(fs: Fs, result: Result<T>)

  const NO_FREE_INODES_MSG: string := "No free inodes"
  const ROOT_INODE_MSG: string := "Cannot free root inode"
  const NO_FREE_BLOCKS_MSG: string := "No free blocks"
  const INVALID_BLOCK_MSG: string := "Invalid block number"

  /** `alloc_inode`: the lowest inode number from 1 up whose bit is clear. */
  function AllocInode(fs: Fs): (r: Step<nat>)
    ensures r.result.Err? ==> r.fs == fs && r.result.msg == NO_FREE_INODES_MSG
    ensures r.result.Err? <==>
      fs.sb.freeInodes == 0 || forall i :: 1 <= i < MAX_INODES ==> GetBit(fs.inodeBitmap, i)
    ensures r.result.Ok? ==>
      var ino := r.result.value;
      && 1 <= ino < MAX_INODES
      && !GetBit(fs.inodeBitmap, ino)
      && (forall j :: 1 <= j < ino ==> GetBit(fs.inodeBitmap, j))
      && r.fs.inodeBitmap == SetBit(fs.inodeBitmap, ino)
      && r.fs.sb == fs.sb.(freeInodes := fs.sb.freeInodes - 1)
      && r.fs.dataBitmap == fs.dataBitmap
  {
    if fs.sb.freeInodes == 0 then Step(fs, Err(NO_FREE_INODES_MSG))
    else match FirstClear(fs.inodeBitmap, 1, MAX_INODES)
      case None => Step(fs, Err(NO_FREE_INODES_MSG))
      case Some(ino) =>
        Step(fs.(sb := fs.sb.(freeInodes := fs.sb.freeInodes - 1), inodeBitmap := SetBit(fs.inodeBitmap, ino)), Ok(ino))
  }

  /** Allocating an inode keeps the counters in step, and the inode it
      returns is now marked. */
  lemma AllocInodeConsistent(fs: Fs)
    requires Consistent(fs)
    ensures Consistent(AllocInode(fs).fs)
    ensures AllocInode(fs).result.Ok? ==> GetBit(AllocInode(fs).fs.inodeBitmap, AllocInode(fs).result.value)
  {
    var r := AllocInode(fs);
    if r.result.Ok? {
      var ino := r.result.value;
      var bm := fs.inodeBitmap;
      CountAfterSet(bm, ino, MAX_INODES);
      GetSetBit(bm, ino, ino);
      GetSetBit(bm, ino, 0);
      GetSetBit(bm, ino, ROOT_INODE);
      forall i: nat | i >= MAX_INODES ensures !GetBit(r.fs.inodeBitmap, i) {
        GetSetBit(bm, ino, i);
      }
    }
  }

  /** On a consistent filesystem the counter never reads 0, because it
      includes inode 0: allocation fails exactly when inodes 1 to 2047 are
      all in use, and the counter then still reports one free inode. */
  lemma AllocInodeFailsWhenFull(fs: Fs)
    requires Consistent(fs)
    ensures fs.sb.freeInodes >= 1
    ensures AllocInode(fs).result.Err? <==> forall i :: 1 <= i < MAX_INODES ==> GetBit(fs.inodeBitmap, i)
    ensures AllocInode(fs).result.Err? ==> fs.sb.freeInodes == 1
  {
    CountSetClear(fs.inodeBitmap, 0, MAX_INODES);
    if forall i :: 1 <= i < MAX_INODES ==> GetBit(fs.inodeBitmap, i) {
      CountSetTail(fs.inodeBitmap, 1, MAX_INODES);
    }
  }

  /** `free_inode` as written: the bit is cleared and the counter raised
      whether or not the inode was in use. */
  function FreeInodeAsWritten(fs: Fs, ino: u64): (r: Step<()>)
    ensures ino == ROOT_INODE ==> r == Step(fs, Err(ROOT_INODE_MSG))
    ensures ino != ROOT_INODE ==> r.result.Ok? && !GetBit(r.fs.inodeBitmap, ino)
    ensures ino != ROOT_INODE ==> r.fs.sb.freeInodes == WrappingAdd64(fs.sb.freeInodes, 1)
  {
    if ino == ROOT_INODE then Step(fs, Err(ROOT_INODE_MSG))
    else Step(fs.(sb := fs.sb.(freeInodes := WrappingAdd64(fs.sb.freeInodes, 1)), inodeBitmap := ClearBit(fs.inodeBitmap, ino)), Ok(()))
  }

  /** Freeing an inode that is not in use (here, inode 2 straight after a
      format) raises the free count past the bitmap: the filesystem then
      reports all 2048 inodes free while the root is still allocated. */
  lemma FreeInodeAsWrittenInflates(totalBlocks: u64)
    ensures var r := FreeInodeAsWritten(Format(totalBlocks), 2);
      r.result.Ok? && r.fs.sb.freeInodes == MAX_INODES && GetBit(r.fs.inodeBitmap, ROOT_INODE)
    ensures !Consistent(FreeInodeAsWritten(Format(totalBlocks), 2).fs)
  {
    var fs := Format(totalBlocks);
    FormatConsistent(totalBlocks);
    FreeUnusedInodeBreaks(fs, 2);
    GetClearBit(fs.inodeBitmap, 2, ROOT_INODE);
  }

  /** In general, on any consistent filesystem, freeing an inode whose bit
      is clear breaks the counter. */
  lemma FreeUnusedInodeBreaks(fs: Fs, ino: u64)
    requires Consistent(fs) && ino != ROOT_INODE && !GetBit(fs.inodeBitmap, ino)
    ensures !Consistent(FreeInodeAsWritten(fs, ino).fs)
  {
    CountAfterClear(fs.inodeBitmap, ino, MAX_INODES);
  }

  /** `free_inode` with the check `free_block` makes: an inode that is
      already free is left alone. */
  function FreeInode(fs: Fs, ino: u64): (r: Step<()>)
    ensures ino == ROOT_INODE ==> r == Step(fs, Err(ROOT_INODE_MSG))
    ensures ino != ROOT_INODE ==> r.result.Ok? && !GetBit(r.fs.inodeBitmap, ino)
    ensures ino != ROOT_INODE && !GetBit(fs.inodeBitmap, ino) ==> r.fs == fs
  {
    if ino == ROOT_INODE then Step(fs, Err(ROOT_INODE_MSG))
    else if !GetBit(fs.inodeBitmap, ino) then Step(fs, Ok(()))
    else Step(fs.(sb := fs.sb.(freeInodes := WrappingAdd64(fs.sb.freeInodes, 1)), inodeBitmap := ClearBit(fs.inodeBitmap, ino)), Ok(()))
  }

  /** Freeing any inode keeps the counters in step. */
  lemma FreeInodeConsistent(fs: Fs, ino: u64)
    requires Consistent(fs)
    ensures Consistent(FreeInode(fs, ino).fs)
  {
    var r := FreeInode(fs, ino);
    if ino != ROOT_INODE && GetBit(fs.inodeBitmap, ino) {
      var bm := fs.inodeBitmap;
      CountAfterClear(bm, ino, MAX_INODES);
      assert ino < MAX_INODES;
      GetClearBit(bm, ino, 0);
      GetClearBit(bm, ino, ROOT_INODE);
      forall i: nat | i >= MAX_INODES ensures !GetBit(r.fs.inodeBitmap, i) {
        GetClearBit(bm, ino, i);
      }
    }
  }

  /** Freeing the inode just allocated restores the filesystem exactly. */
  lemma AllocFreeInode(fs: Fs)
    requires Consistent(fs) && AllocInode(fs).result.Ok?
    ensures FreeInode(AllocInode(fs).fs, AllocInode(fs).result.value) == Step(fs, Ok(()))
  {
    var r := AllocInode(fs);
    var ino := r.result.value;
    GetSetBit(fs.inodeBitmap, ino, ino);
    ClearSetBit(fs.inodeBitmap, ino);
    AllocInodeFailsWhenFull(fs);
  }

  /** `alloc_block` as written: it scans every data block the disk has,
      even past the 1,048,576 the bitmap can describe. Beyond the bitmap a
      bit reads clear and setting it does nothing. */
  function AllocBlockAsWritten(fs: Fs): (r: Step<nat>)
    ensures r.result.Err? ==> r.fs == fs && r.result.msg == NO_FREE_BLOCKS_MSG
    ensures r.result.Ok? ==>
      var i := r.result.value - DATA_BLOCKS_START;
      && fs.sb.freeBlocks > 0
      && r.result.value >= DATA_BLOCKS_START
      && i < DataBlocks(fs.sb.totalBlocks)
      && !GetBit(fs.dataBitmap, i)
      && r.fs.dataBitmap == SetBit(fs.dataBitmap, i)
      && r.fs.sb == fs.sb.(freeBlocks := fs.sb.freeBlocks - 1)
  {
    if fs.sb.freeBlocks == 0 then Step(fs, Err(NO_FREE_BLOCKS_MSG))
    else match FirstClear(fs.dataBitmap, 0, DataBlocks(fs.sb.totalBlocks))
      case None => Step(fs, Err(NO_FREE_BLOCKS_MSG))
      case Some(i) =>
        Step(fs.(sb := fs.sb.(freeBlocks := fs.sb.freeBlocks - 1), dataBitmap := SetBit(fs.dataBitmap, i)), Ok(DATA_BLOCKS_START + i))
  }

  function AllOnes(n: nat): (z: seq<bv8>)
    ensures |z| == n && forall k :: 0 <= k < n ==> z[k] == 0xFF
  {
    seq(n, _ => 0xFF)
  }

  /** On a disk two blocks larger than the bitmap covers, once every block
      the bitmap describes is in use, the state is consistent (two free
      blocks, both beyond the bitmap) and two allocations in a row return
      the same block. */
  lemma AllocBlockAsWrittenRepeats()
    ensures var fs := FullBitmapFs();
      var a := AllocBlockAsWritten(fs);
      var b := AllocBlockAsWritten(a.fs);
      && Consistent(fs)
      && a.result == Ok(DATA_BLOCKS_START + DATA_BITMAP_BITS)
      && b.result == a.result
  {
    var fs := FullBitmapFs();
    FullBitmapConsistent();
    var bm := fs.dataBitmap;
    var n := DataBlocks(fs.sb.totalBlocks);
    assert n == DATA_BITMAP_BITS + 2;
    forall j | 0 <= j < DATA_BITMAP_BITS ensures GetBit(bm, j) {
      OnesSet(bm, j);
    }
    assert !InRange(bm, DATA_BITMAP_BITS);
    FirstClearIs(bm, n, DATA_BITMAP_BITS);
    var a := AllocBlockAsWritten(fs);
    assert a.result == Ok(DATA_BLOCKS_START + DATA_BITMAP_BITS);
    assert a.fs.dataBitmap == bm;
    assert a.fs.sb.totalBlocks == fs.sb.totalBlocks && a.fs.sb.freeBlocks == 1;
  }

  /** A clear bit with every bit below it set is the one the scan finds. */
  lemma FirstClearIs(bm: seq<bv8>, to: nat, i: nat)
    requires i < to && !GetBit(bm, i)
    requires forall j :: 0 <= j < i ==> GetBit(bm, j)
    ensures FirstClear(bm, 0, to) == Some(i)
  {
  }

  /** A disk two blocks larger than the data bitmap covers, every block the
      bitmap describes in use, two free blocks counted. */
  function FullBitmapFs(): Fs
  {
    Fs(NewSuperblock(DATA_BLOCKS_START + DATA_BITMAP_BITS + 2).(freeBlocks := 2),
       SetBit(ZeroBytes(INODE_BITMAP_BYTES), ROOT_INODE), AllOnes(DATA_BITMAP_BYTES))
  }

  lemma FullBitmapConsistent()
    ensures Consistent(FullBitmapFs())
  {
    var total := DATA_BLOCKS_START + DATA_BITMAP_BITS + 2;
    FormatConsistent(total);
    var fs := FullBitmapFs();
    var bm := fs.dataBitmap;
    assert DataBlocks(total) == DATA_BITMAP_BITS + 2;
    CountFull(bm, DATA_BITMAP_BITS);
    assert !InRange(bm, DATA_BITMAP_BITS) && !InRange(bm, DATA_BITMAP_BITS + 1);
    assert CountSet(bm, DataBlocks(total)) == DATA_BITMAP_BITS;
    forall i: nat | i >= DataBlocks(total) ensures !GetBit(bm, i) {
    }
  }

  /** `alloc_block` scanning only the blocks both the disk and the bitmap
      cover. */
  function AllocBlock(fs: Fs): (r: Step<nat>)
    ensures r.result.Err? ==> r.fs == fs && r.result.msg == NO_FREE_BLOCKS_MSG
    ensures r.result.Err? <==>
      fs.sb.freeBlocks == 0
      || forall i :: 0 <= i < Min(DataBlocks(fs.sb.totalBlocks), 8 * |fs.dataBitmap|) ==> GetBit(fs.dataBitmap, i)
    ensures r.result.Ok? ==>
      var i := r.result.value - DATA_BLOCKS_START;
      && r.result.value >= DATA_BLOCKS_START
      && i < DataBlocks(fs.sb.totalBlocks) && InRange(fs.dataBitmap, i)
      && !GetBit(fs.dataBitmap, i)
      && (forall j :: 0 <= j < i ==> GetBit(fs.dataBitmap, j))
      && r.fs.dataBitmap == SetBit(fs.dataBitmap, i)
      && r.fs.sb == fs.sb.(freeBlocks := fs.sb.freeBlocks - 1)
      && r.fs.inodeBitmap == fs.inodeBitmap
  {
    if fs.sb.freeBlocks == 0 then Step(fs, Err(NO_FREE_BLOCKS_MSG))
    else match FirstClear(fs.dataBitmap, 0, Min(DataBlocks(fs.sb.totalBlocks), 8 * |fs.dataBitmap|))
      case None => Step(fs, Err(NO_FREE_BLOCKS_MSG))
      case Some(i) =>
        Step(fs.(sb := fs.sb.(freeBlocks := fs.sb.freeBlocks - 1), dataBitmap := SetBit(fs.dataBitmap, i)), Ok(DATA_BLOCKS_START + i))
  }

  /** Allocating a block keeps the counters in step, and the block it
      returns is now marked in the bitmap. */
  lemma AllocBlockConsistent(fs: Fs)
    requires Consistent(fs)
    ensures Consistent(AllocBlock(fs).fs)
    ensures AllocBlock(fs).result.Ok? ==>
      GetBit(AllocBlock(fs).fs.dataBitmap, AllocBlock(fs).result.value - DATA_BLOCKS_START)
  {
    var r := AllocBlock(fs);
    if r.result.Ok? {
      var i := r.result.value - DATA_BLOCKS_START;
      SetDataBitConsistent(fs, i);
      GetSetBit(fs.dataBitmap, i, i);
    }
  }

  /** Marking one free data block used, and counting it, keeps the
      filesystem consistent. */
  lemma SetDataBitConsistent(fs: Fs, i: nat)
    requires Consistent(fs)
    requires i < DataBlocks(fs.sb.totalBlocks) && InRange(fs.dataBitmap, i) && !GetBit(fs.dataBitmap, i)
    ensures fs.sb.freeBlocks > 0
    ensures Consistent(fs.(sb := fs.sb.(freeBlocks := fs.sb.freeBlocks - 1), dataBitmap := SetBit(fs.dataBitmap, i)))
  {
    var bm := fs.dataBitmap;
    var n := DataBlocks(fs.sb.totalBlocks);
    CountAfterSet(bm, i, n);
    CountSetFull(bm, n);
    var fs' := fs.(sb := fs.sb.(freeBlocks := fs.sb.freeBlocks - 1), dataBitmap := SetBit(bm, i));
    forall j: nat | j >= n ensures !GetBit(fs'.dataBitmap, j) {
      GetSetBit(bm, i, j);
    }
    DataUpdateConsistent(fs, fs');
  }

  /** A change to the data bitmap and the free-block counter alone keeps
      the filesystem consistent when the new bitmap and counter agree. */
  lemma DataUpdateConsistent(fs: Fs, fs': Fs)
    requires Consistent(fs)
    requires fs'.inodeBitmap == fs.inodeBitmap
    requires fs'.sb == fs.sb.(freeBlocks := fs'.sb.freeBlocks)
    requires |fs'.dataBitmap| == DATA_BITMAP_BYTES
    requires forall j: nat :: j >= DataBlocks(fs.sb.totalBlocks) ==> !GetBit(fs'.dataBitmap, j)
    requires fs'.sb.freeBlocks == DataBlocks(fs.sb.totalBlocks) - CountSet(fs'.dataBitmap, DataBlocks(fs.sb.totalBlocks))
    ensures Consistent(fs')
  {
    assert fs'.sb.totalBlocks == fs.sb.totalBlocks;
  }

  /** Two allocations in a row never return the same block. */
  lemma AllocBlockTwiceDistinct(fs: Fs)
    requires Consistent(fs)
    ensures var a := AllocBlock(fs);
      var b := AllocBlock(a.fs);
      a.result.Ok? && b.result.Ok? ==> a.result.value != b.result.value
  {
    AllocBlockConsistent(fs);
  }

  /** `free_block`: blocks below the data area are refused; a block that is
      already free is left alone. */
  function FreeBlock(fs: Fs, block: u64): (r: Step<()>)
    ensures block < DATA_BLOCKS_START ==> r == Step(fs, Err(INVALID_BLOCK_MSG))
    ensures block >= DATA_BLOCKS_START ==> r.result.Ok? && !GetBit(r.fs.dataBitmap, block - DATA_BLOCKS_START)
    ensures block >= DATA_BLOCKS_START && !GetBit(fs.dataBitmap, block - DATA_BLOCKS_START) ==> r.fs == fs
    ensures r.fs.inodeBitmap == fs.inodeBitmap
  {
    if block < DATA_BLOCKS_START then Step(fs, Err(INVALID_BLOCK_MSG))
    else
      var i := block - DATA_BLOCKS_START;
      if !GetBit(fs.dataBitmap, i) then Step(fs, Ok(()))
      else Step(fs.(sb := fs.sb.(freeBlocks := WrappingAdd64(fs.sb.freeBlocks, 1)), dataBitmap := ClearBit(fs.dataBitmap, i)), Ok(()))
  }

  /** Freeing any block keeps the counters in step. */
  lemma FreeBlockConsistent(fs: Fs, block: u64)
    requires Consistent(fs)
    ensures Consistent(FreeBlock(fs, block).fs)
  {
    if block >= DATA_BLOCKS_START && GetBit(fs.dataBitmap, block - DATA_BLOCKS_START) {
      ClearDataBitConsistent(fs, block - DATA_BLOCKS_START);
    }
  }

  /** Marking one used data block free, and counting it, keeps the
      filesystem consistent; the counter cannot wrap. */
  lemma ClearDataBitConsistent(fs: Fs, i: nat)
    requires Consistent(fs) && GetBit(fs.dataBitmap, i)
    ensures fs.sb.freeBlocks + 1 < U64_MODULUS
    ensures Consistent(fs.(sb := fs.sb.(freeBlocks := WrappingAdd64(fs.sb.freeBlocks, 1)), dataBitmap := ClearBit(fs.dataBitmap, i)))
  {
    var bm := fs.dataBitmap;
    var n := DataBlocks(fs.sb.totalBlocks);
    assert i < n;
    CountAfterClear(bm, i, n);
    var fs' := fs.(sb := fs.sb.(freeBlocks := fs.sb.freeBlocks + 1), dataBitmap := ClearBit(bm, i));
    forall j: nat | j >= n ensures !GetBit(fs'.dataBitmap, j) {
      GetClearBit(bm, i, j);
    }
    DataUpdateConsistent(fs, fs');
  }

  /** Freeing the block just allocated restores the filesystem exactly. */
  lemma AllocFreeBlock(fs: Fs)
    requires Consistent(fs) && AllocBlock(fs).result.Ok?
    ensures FreeBlock(AllocBlock(fs).fs, AllocBlock(fs).result.value) == Step(fs, Ok(()))
  {
    var r := AllocBlock(fs);
    var i := r.result.value - DATA_BLOCKS_START;
    AllocBlockConsistent(fs);
    GetSetBit(fs.dataBitmap, i, i);
    ClearSetBit(fs.dataBitmap, i);
    var f := FreeBlock(r.fs, r.result.value);
    assert f.fs.dataBitmap == fs.dataBitmap;
    assert f.fs.sb == fs.sb;
  }

  /** Where `read_disk_inode`/`write_disk_inode` find inode `ino`: a block
      of the inode table and a byte offset in it. */
  function InodeLocation(ino: u64): (nat, nat)
  {
    (INODE_TABLE_START + ino / INODES_PER_BLOCK, (ino % INODES_PER_BLOCK) * DISK_INODE_SIZE)
  }

  /** Every inode number below 2048 has its own 128-byte slot inside the
      inode table; larger numbers, which the source does not reject, land
      in the data area. */
  lemma InodeLocationSlots(a: u64, b: u64)
    ensures var (blk, off) := InodeLocation(a);
      && off % DISK_INODE_SIZE == 0 && off + DISK_INODE_SIZE <= BLOCK_SIZE
      && (INODE_TABLE_START <= blk < DATA_BLOCKS_START <==> a < MAX_INODES)
    ensures a != b ==> InodeLocation(a) != InodeLocation(b)
  {
    assert INODES_PER_BLOCK == 32 && MAX_INODES == 2048;
    assert a == 32 * (a / 32) + a % 32 && b == 32 * (b / 32) + b % 32;
    assert a < 2048 <==> a / 32 < 64;
  }

  /** `get_stats` (the `statfs` answer). */
  function GetStats(fs: Fs): (st: (u32, u64, u64, u64, u64))
    ensures st.1 == DataBlocks(fs.sb.totalBlocks)
  {
    (fs.sb.blockSize, DataBlocks(fs.sb.totalBlocks), fs.sb.freeBlocks, fs.sb.totalInodes, fs.sb.freeInodes)
  }

  datatype StorageInfo = StorageInfo(
    totalBytes: u64,
    usedBytes: u64,
    freeBytes: u64,
    totalInodes: u64,
    usedInodes: u64,
    freeInodes: u64)

  /** `CottonFS::get_storage_info`: byte counts from block counts; the
      used inode count is an unchecked subtraction. */
  function GetStorageInfo(fs: Fs): StorageInfo
  {
    var total := DataBlocks(fs.sb.totalBlocks);
    var used := SaturatingSub64(total, fs.sb.freeBlocks);
    StorageInfo(WrappingMul64(total, BLOCK_SIZE), WrappingMul64(used, BLOCK_SIZE),
                WrappingMul64(fs.sb.freeBlocks, BLOCK_SIZE), fs.sb.totalInodes,
                WrappingSub64(fs.sb.totalInodes, fs.sb.freeInodes), fs.sb.freeInodes)
  }

  /** The global `get_storage_info`, built from `statfs`'s answer with a
      saturating inode subtraction. */
  function StorageInfoFromStats(st: (u32, u64, u64, u64, u64)): StorageInfo
  {
    var (blockSize, total, free, totalInodes, freeInodes) := st;
    StorageInfo(WrappingMul64(total, blockSize), WrappingMul64(SaturatingSub64(total, free), blockSize),
                WrappingMul64(free, blockSize), totalInodes, SaturatingSub64(totalInodes, freeInodes), freeInodes)
  }

  /** `StorageInfo::usage_percent`. */
  function UsagePercent(info: StorageInfo): u64
  {
    if info.totalBytes == 0 then 0 else WrappingMul64(info.usedBytes, 100) / info.totalBytes
  }

  /** On a consistent filesystem (of less than about 45 PB, so that no
      product wraps) the two ways of computing storage information agree,
      used and free add up to the total, and the usage is a percentage. */
  lemma StorageInfoAddsUp(fs: Fs)
    requires Consistent(fs)
    requires DataBlocks(fs.sb.totalBlocks) * BLOCK_SIZE * 100 < U64_MODULUS
    ensures GetStorageInfo(fs) == StorageInfoFromStats(GetStats(fs))
    ensures var info := GetStorageInfo(fs);
      && info.usedBytes + info.freeBytes == info.totalBytes
      && info.usedInodes + info.freeInodes == info.totalInodes
      && UsagePercent(info) <= 100
  {
    var info := GetStorageInfo(fs);
    var total := DataBlocks(fs.sb.totalBlocks);
    var used := total - fs.sb.freeBlocks;
    assert info.totalBytes == total * BLOCK_SIZE;
    assert info.usedBytes == used * BLOCK_SIZE;
    assert info.freeBytes == fs.sb.freeBlocks * BLOCK_SIZE;
    if info.totalBytes > 0 {
      assert info.usedBytes * 100 <= info.totalBytes * 100;
      DivBound(info.usedBytes * 100, info.totalBytes);
    }
  }

  lemma DivBound(a: nat, b: nat)
    requires b > 0 && a <= b * 100
    ensures a / b <= 100
  {
  }
}
