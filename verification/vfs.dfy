/** The VFS vocabulary (kernel/src/fs/vfs.rs): file types, permission
    bits, `Stat`, directory entries, filesystem statistics, and the results
    the `Inode` and `FileSystem` traits give for operations an implementor
    does not override. */
module Vfs {
  import opened Common

  datatype FileType = Regular | Directory | CharDevice | BlockDevice | Fifo | Socket | Symlink

  /** `FileMode` permission bits. */
  const OWNER_READ: bv16 := 0x100
  const OWNER_WRITE: bv16 := 0x80
  const OWNER_EXEC: bv16 := 0x40
  const GROUP_READ: bv16 := 0x20
  const GROUP_WRITE: bv16 := 0x10
  const GROUP_EXEC: bv16 := 0x8
  const OTHER_READ: bv16 := 0x4
  const OTHER_WRITE: bv16 := 0x2
  const OTHER_EXEC: bv16 := 0x1

  const OWNER_RWX: bv16 := OWNER_READ | OWNER_WRITE | OWNER_EXEC
  const GROUP_RWX: bv16 := GROUP_READ | GROUP_WRITE | GROUP_EXEC
  const OTHER_RWX: bv16 := OTHER_READ | OTHER_WRITE | OTHER_EXEC
  const DEFAULT_FILE: bv16 := OWNER_READ | OWNER_WRITE | GROUP_READ | OTHER_READ
  const DEFAULT_DIR: bv16 := OWNER_RWX | GROUP_READ | GROUP_EXEC | OTHER_READ | OTHER_EXEC

  /** Every bit `FileMode` defines. */
  const ALL_MODE_BITS: bv16 := OWNER_RWX | GROUP_RWX | OTHER_RWX

  /** The composite modes are the familiar octal permissions. */
  lemma ModeConstants()
    ensures DEFAULT_FILE == 0x1A4  // 0o644
    ensures DEFAULT_DIR == 0x1ED   // 0o755
    ensures OWNER_RWX == 0x1C0     // 0o700
    ensures ALL_MODE_BITS == 0x1FF // 0o777
  {
  }

  /** `FileMode::from_bits_truncate`: bits `FileMode` does not define are
      dropped. */
  function FromBitsTruncate(bits: bv16): (m: bv16)
    ensures m & !ALL_MODE_BITS == 0
    ensures m & ALL_MODE_BITS == bits & ALL_MODE_BITS
  {
    bits & 0x1FF
  }

  /** `Stat`. */
  datatype Stat = Stat(
    dev: u64,
    ino: u64,
    mode: bv16,
    nlink: u32,
    uid: u32,
    gid: u32,
    rdev: u64,
    size: u64,
    blksize: u32,
    blocks: u64,
    atime: u64,
    mtime: u64,
    ctime: u64,
    fileType: FileType)

  /** `Stat::default()`: an empty, singly-linked regular file with the
      default file mode and 4 KiB blocks. */
  function DefaultStat(): (s: Stat)
    ensures s.mode == DEFAULT_FILE && s.nlink == 1 && s.blksize == 4096 && s.fileType == Regular
    ensures s.size == 0 && s.blocks == 0 && s.ino == 0 && s.dev == 0 && s.rdev == 0
  {
    Stat(0, 0, DEFAULT_FILE, 1, 0, 0, 0, 0, 4096, 0, 0, 0, 0, Regular)
  }

  /** `DirEntry`. */
  datatype DirEntry = DirEntry(name: string, fileType: FileType, inode: u64)

  /** `FsStats`. */
  datatype FsStats = FsStats(blockSize: u32, totalBlocks: u64, freeBlocks: u64, totalInodes: u64, freeInodes: u64)

  /** The operations of the `Inode` trait that have a default body. */
  datatype InodeOp = Read | Write | Readdir | Lookup | Create | Mkdir | Unlink | Rmdir | Rename
                   | Truncate | Chmod | Chown | Sync | Ioctl

  const NOT_REGULAR_MSG: string := "Not a regular file"
  const NOT_DIRECTORY_MSG: string := "Not a directory"
  const NOT_SUPPORTED_MSG: string := "Operation not supported"
  const NOT_DEVICE_MSG: string := "Not a device"

  /** Operations that only make sense on a regular file. */
  predicate IsFileOp(op: InodeOp) { op == Read || op == Write || op == Truncate }

  /** Operations that only make sense on a directory. */
  predicate IsDirOp(op: InodeOp)
  {
    op == Readdir || op == Lookup || op == Create || op == Mkdir || op == Unlink || op == Rmdir || op == Rename
  }

  /** What a trait method returns when the implementor keeps the default. */
  function DefaultResult(op: InodeOp): (r: Outcome)
    ensures r == Done <==> op == Sync
    ensures IsFileOp(op) ==> r == Fail(NOT_REGULAR_MSG)
    ensures IsDirOp(op) ==> r == Fail(NOT_DIRECTORY_MSG)
    ensures op == Chmod || op == Chown ==> r == Fail(NOT_SUPPORTED_MSG)
    ensures op == Ioctl ==> r == Fail(NOT_DEVICE_MSG)
  {
    match op
    case Read | Write | Truncate => Fail(NOT_REGULAR_MSG)
    case Readdir | Lookup | Create | Mkdir | Unlink | Rmdir | Rename => Fail(NOT_DIRECTORY_MSG)
    case Chmod | Chown => Fail(NOT_SUPPORTED_MSG)
    case Sync => Done
    case Ioctl => Fail(NOT_DEVICE_MSG)
  }

  /** The default results fall into exactly one of the classes: file
      operations, directory operations, attribute changes, sync and ioctl. */
  lemma DefaultResultClasses(op: InodeOp)
    ensures DefaultResult(op) == Fail(NOT_REGULAR_MSG) <==> IsFileOp(op)
    ensures DefaultResult(op) == Fail(NOT_DIRECTORY_MSG) <==> IsDirOp(op)
  {
  }

  /** `FileSystem::sync` and `FileSystem::statfs` defaults. */
  const DEFAULT_FS_SYNC: Outcome := Done
  const NOT_IMPLEMENTED_MSG: string := "Not implemented"

  function DefaultStatfs(): (r: Result<FsStats>)
    ensures r.Err? && r.msg == NOT_IMPLEMENTED_MSG
  {
    Err(NOT_IMPLEMENTED_MSG)
  }
}
