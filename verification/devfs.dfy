/** The device filesystem (`DevFS`, kernel/src/fs/devfs.rs): one directory,
    inode 1, naming five character devices, and what reading and writing
    each device does. The pseudo-random generator behind /dev/random keeps
    its seed in a static shared by every read; here it is the state
    threaded through `Read`. */
module DevFs {
  import opened Common
  import Vfs
  import FileData
  import SortedMap

  datatype Device = Null | Zero | Random | Console | Tty

  /** One device inode: its number and which device it is. */
  datatype DevInode = DevInode(ino: u64, device: Device)

  /** The root directory's map from names to devices. */
  datatype DevFs = DevFs(entries: seq<(string, DevInode)>)

  /** The seed `DevRandom::read` keeps between calls. */
  datatype DevState = DevState(seed: bv64)

  const ROOT_INO: u64 := 1
  const INITIAL_SEED: bv64 := 0x12345678
  const NAME: string := "devfs"

  function InitialState(): DevState { DevState(INITIAL_SEED) }

  /** `DevFS::new`: null, zero, random, console and tty, numbered 2 to 6 in
      that order of insertion. */
  function New(): DevFs
  {
    var m0: seq<(string, DevInode)> := [];
    var m1 := SortedMap.Insert(m0, "null", DevInode(2, Null));
    var m2 := SortedMap.Insert(m1, "zero", DevInode(3, Zero));
    var m3 := SortedMap.Insert(m2, "random", DevInode(4, Random));
    var m4 := SortedMap.Insert(m3, "console", DevInode(5, Console));
    DevFs(SortedMap.Insert(m4, "tty", DevInode(6, Tty)))
  }

  /** The first three insertions: null, zero, random. */
  lemma FirstThree()
    ensures var m0: seq<(string, DevInode)> := [];
      SortedMap.Insert(SortedMap.Insert(SortedMap.Insert(m0, "null", DevInode(2, Null)), "zero", DevInode(3, Zero)),
                       "random", DevInode(4, Random))
      == NewEntries()[1..3] + NewEntries()[4..]
  {
    var e := NewEntries();
    var m0: seq<(string, DevInode)> := [];
    var m1 := SortedMap.Insert(m0, "null", DevInode(2, Null));
    assert m1 == [e[1]];
    assert SortedMap.Less("null", "zero");
    SortedMap.InsertPast(m1, "zero", DevInode(3, Zero));
    var m2 := [e[1], e[4]];
    assert SortedMap.Less("null", "random") && SortedMap.Less("random", "zero");
    SortedMap.InsertPast(m2, "random", DevInode(4, Random));
    SortedMap.InsertFront(m2[1..], "random", DevInode(4, Random));
  }

  /** The last two insertions: console, then tty. */
  lemma LastTwo()
    ensures SortedMap.Insert(SortedMap.Insert(NewEntries()[1..3] + NewEntries()[4..], "console", DevInode(5, Console)),
                             "tty", DevInode(6, Tty))
      == NewEntries()
  {
    var e := NewEntries();
    var m3 := e[1..3] + e[4..];
    assert m3 == [e[1], e[2], e[4]];
    assert SortedMap.Less("console", "null");
    SortedMap.InsertFront(m3, "console", DevInode(5, Console));
    var m4 := [e[0], e[1], e[2], e[4]];
    assert SortedMap.Less("console", "tty") && SortedMap.Less("null", "tty");
    assert SortedMap.Less("random", "tty") && SortedMap.Less("tty", "zero");
    SortedMap.InsertPast(m4, "tty", DevInode(6, Tty));
    SortedMap.InsertPast(m4[1..], "tty", DevInode(6, Tty));
    SortedMap.InsertPast(m4[2..], "tty", DevInode(6, Tty));
    SortedMap.InsertFront(m4[3..], "tty", DevInode(6, Tty));
  }

  /** The map `New` builds holds exactly the five devices, in name order. */
  lemma NewContents()
    ensures New().entries == NewEntries()
    ensures SortedMap.Sorted(New().entries)
  {
    FirstThree();
    LastTwo();
    NewEntriesSorted();
  }

  lemma NewEntriesSorted()
    ensures SortedMap.Sorted(NewEntries())
  {
    var e := NewEntries();
    assert SortedMap.Less("console", "null") && SortedMap.Less("null", "random");
    assert SortedMap.Less("random", "tty") && SortedMap.Less("tty", "zero");
    SortedMap.LessTransitive("console", "null", "random");
    SortedMap.LessTransitive("console", "random", "tty");
    SortedMap.LessTransitive("console", "tty", "zero");
    SortedMap.LessTransitive("null", "random", "tty");
    SortedMap.LessTransitive("null", "tty", "zero");
    SortedMap.LessTransitive("random", "tty", "zero");
    assert SortedMap.Sorted(e[4..]);
    assert SortedMap.Sorted(e[3..]);
    assert SortedMap.Sorted(e[2..]);
    assert SortedMap.Sorted(e[1..]);
  }

  /** The five devices in name order. */
  function NewEntries(): seq<(string, DevInode)>
  {
    [("console", DevInode(5, Console)), ("null", DevInode(2, Null)), ("random", DevInode(4, Random)),
     ("tty", DevInode(6, Tty)), ("zero", DevInode(3, Zero))]
  }

  // ---------------------------------------------------------------------
  // Device numbers and permissions

  function Major(d: Device): nat
  {
    match d
    case Null | Zero | Random => 1
    case Console | Tty => 5
  }

  function Minor(d: Device): nat
  {
    match d
    case Null => 3
    case Zero => 5
    case Random => 8
    case Console => 1
    case Tty => 0
  }

  /** `rdev`: the major number shifted left by 8, or'ed with the minor. */
  function Rdev(d: Device): (r: u64)
    ensures r / 256 == Major(d) && r % 256 == Minor(d)
  {
    match d
    case Null => 0x103
    case Zero => 0x105
    case Random => 0x108
    case Console => 0x501
    case Tty => 0x500
  }

  /** The permission bits each device reports. */
  function DeviceMode(d: Device): (m: bv16)
    ensures m & Vfs.OWNER_READ != 0 && m & Vfs.OWNER_WRITE != 0
    ensures m & (Vfs.OWNER_EXEC | Vfs.GROUP_EXEC | Vfs.OTHER_EXEC) == 0
  {
    match d
    case Null | Zero =>
      Vfs.OWNER_READ | Vfs.OWNER_WRITE | Vfs.GROUP_READ | Vfs.GROUP_WRITE | Vfs.OTHER_READ | Vfs.OTHER_WRITE
    case Random => Vfs.OWNER_READ | Vfs.OWNER_WRITE | Vfs.GROUP_READ | Vfs.OTHER_READ
    case Console | Tty => Vfs.OWNER_READ | Vfs.OWNER_WRITE | Vfs.GROUP_WRITE
  }

  /** In octal: 0666 for null and zero, 0644 for random, 0620 for the
      terminals (which others may not read). */
  lemma DeviceModes()
    ensures DeviceMode(Null) == DeviceMode(Zero) == 0x1B6
    ensures DeviceMode(Random) == Vfs.DEFAULT_FILE
    ensures DeviceMode(Console) == DeviceMode(Tty) == 0x190
    ensures forall d :: DeviceMode(d) & Vfs.OTHER_WRITE != 0 <==> d == Null || d == Zero
  {
  }

  /** `stat` of a device: a character device of size zero with one link. */
  function DeviceStat(i: DevInode): (s: Vfs.Stat)
    ensures s.ino == i.ino && s.fileType == Vfs.CharDevice && s.mode == DeviceMode(i.device)
    ensures s.rdev == Rdev(i.device) && s.nlink == 1 && s.size == 0 && s.blocks == 0 && s.dev == 0
    ensures s.blksize == 4096
  {
    Vfs.Stat(0, i.ino, DeviceMode(i.device), 1, 0, 0, Rdev(i.device), 0, 4096, 0, 0, 0, 0, Vfs.CharDevice)
  }

  /** `stat` of the directory: two links, size zero. */
  function DirStat(): (s: Vfs.Stat)
    ensures s.ino == ROOT_INO && s.fileType == Vfs.Directory && s.mode == Vfs.DEFAULT_DIR
    ensures s.nlink == 2 && s.size == 0 && s.rdev == 0
  {
    Vfs.Stat(0, ROOT_INO, Vfs.DEFAULT_DIR, 2, 0, 0, 0, 0, 4096, 0, 0, 0, 0, Vfs.Directory)
  }

  // ---------------------------------------------------------------------
  // The directory

  function Listing(es: seq<(string, DevInode)>): (r: seq<Vfs.DirEntry>)
    ensures |r| == |es|
    ensures forall k :: 0 <= k < |es| ==> r[k] == Vfs.DirEntry(es[k].0, Vfs.CharDevice, es[k].1.ino)
  {
    if es == [] then [] else [Vfs.DirEntry(es[0].0, Vfs.CharDevice, es[0].1.ino)] + Listing(es[1..])
  }

  /** `readdir`: ".", then ".." (inode 1, as `DevDir` always reports), then
      the devices in name order. */
  function Readdir(fs: DevFs): (r: seq<Vfs.DirEntry>)
    ensures |r| == 2 + |fs.entries|
    ensures r[0] == Vfs.DirEntry(".", Vfs.Directory, ROOT_INO)
    ensures r[1] == Vfs.DirEntry("..", Vfs.Directory, 1)
    ensures r[2..] == Listing(fs.entries)
  {
    [Vfs.DirEntry(".", Vfs.Directory, ROOT_INO), Vfs.DirEntry("..", Vfs.Directory, 1)] + Listing(fs.entries)
  }

  /** `lookup`: "." and ".." find nothing; any other name is looked up in
      the map. */
  function Lookup(fs: DevFs, name: string): (r: Result<Option<DevInode>>)
    ensures r.Ok?
    ensures name == "." || name == ".." ==> r.value.None?
    ensures name != "." && name != ".." ==> r.value == SortedMap.Get(fs.entries, name)
  {
    if name == "." || name == ".." then Ok(None) else Ok(SortedMap.Get(fs.entries, name))
  }

  /** In a fresh devfs, each device is found under its name with its inode
      number. */
  lemma NewLookup(k: nat)
    requires k < 5
    ensures Lookup(New(), NewEntries()[k].0) == Ok(Some(NewEntries()[k].1))
  {
    NewContents();
    SortedMap.GetSorted(NewEntries(), k);
  }

  /** "null" in a fresh devfs is the null device, inode 2. */
  lemma NewLookupNull()
    ensures Lookup(New(), "null") == Ok(Some(DevInode(2, Null)))
  {
    NewLookup(1);
    assert NewEntries()[1] == ("null", DevInode(2, Null));
  }

  /** A fresh devfs lists the five devices in name order after "." and
      "..". */
  lemma NewListing()
    ensures Readdir(New())[2..] == [Vfs.DirEntry("console", Vfs.CharDevice, 5), Vfs.DirEntry("null", Vfs.CharDevice, 2),
                                    Vfs.DirEntry("random", Vfs.CharDevice, 4), Vfs.DirEntry("tty", Vfs.CharDevice, 6),
                                    Vfs.DirEntry("zero", Vfs.CharDevice, 3)]
  {
    NewContents();
  }

  // ---------------------------------------------------------------------
  // Reading and writing devices

  /** The three shift-and-xor steps; shifts drop the bits that leave the
      word. */
  function ShlXor13(x: bv64): bv64 { x ^ (x << 13) }
  function ShrXor17(x: bv64): bv64 { x ^ (x >> 17) }
  function ShlXor5(x: bv64): bv64 { x ^ (x << 5) }

  /** One step of the xorshift generator. */
  function Xorshift(s: bv64): bv64
  {
    ShlXor5(ShrXor17(ShlXor13(s)))
  }

  lemma ShlXor13Nonzero(x: bv64)
    requires x != 0
    ensures ShlXor13(x) != 0
  {
  }

  lemma ShrXor17Nonzero(x: bv64)
    requires x != 0
    ensures ShrXor17(x) != 0
  {
  }

  lemma ShlXor5Nonzero(x: bv64)
    requires x != 0
    ensures ShlXor5(x) != 0
  {
  }

  /** Each of the three steps is invertible, so a nonzero seed never turns
      into zero, the state from which the generator would emit zeros
      forever. */
  lemma XorshiftNonzero(s: bv64)
    requires s != 0
    ensures Xorshift(s) != 0
  {
    ShlXor13Nonzero(s);
    ShrXor17Nonzero(ShlXor13(s));
    ShlXor5Nonzero(ShrXor17(ShlXor13(s)));
  }

  function LowByte(s: bv64): byte
  {
    (s & 0xFF) as bv8 as int
  }

  /** `n` bytes of /dev/random: the seed advances one step per byte and
      each byte is the low byte of the new seed. */
  function RandomBytes(seed: bv64, n: nat): (r: (bv64, seq<byte>))
    decreases n
    ensures |r.1| == n
    ensures n > 0 ==> r.1[0] == LowByte(Xorshift(seed))
  {
    if n == 0 then (seed, [])
    else
      var s := Xorshift(seed);
      var rest := RandomBytes(s, n - 1);
      (rest.0, [LowByte(s)] + rest.1)
  }

  /** Two reads in a row give the same bytes and the same final seed as one
      read of their combined length. */
  lemma {:induction false} RandomBytesCompose(seed: bv64, n: nat, m: nat)
    ensures var first := RandomBytes(seed, n);
      var second := RandomBytes(first.0, m);
      RandomBytes(seed, n + m) == (second.0, first.1 + second.1)
    decreases n
  {
    if n > 0 {
      RandomBytesCompose(Xorshift(seed), n - 1, m);
      var first := RandomBytes(Xorshift(seed), n - 1);
      var second := RandomBytes(first.0, m);
      assert RandomBytes(seed, n) == (first.0, [LowByte(Xorshift(seed))] + first.1);
      assert RandomBytes(seed, n + m) == (second.0, [LowByte(Xorshift(seed))] + (first.1 + second.1));
      assert [LowByte(Xorshift(seed))] + (first.1 + second.1) == ([LowByte(Xorshift(seed))] + first.1) + second.1;
    } else {
      assert [] + RandomBytes(seed, m).1 == RandomBytes(seed, m).1;
    }
  }

  /** Starting from the initial seed, the generator never reaches zero. */
  lemma {:induction false} RandomSeedNonzero(seed: bv64, n: nat)
    requires seed != 0
    ensures RandomBytes(seed, n).0 != 0
    decreases n
  {
    if n > 0 {
      XorshiftNonzero(seed);
      RandomSeedNonzero(Xorshift(seed), n - 1);
    }
  }

  /** `read` on a device: the count, the buffer afterwards and the new
      generator state. The offset is ignored by every device. */
  function Read(st: DevState, d: Device, offset: u64, buf: seq<byte>): (r: (DevState, nat, seq<byte>))
    ensures |r.2| == |buf|
    ensures d != Random ==> r.0 == st
    ensures d == Null || d == Console || d == Tty ==> r.1 == 0 && r.2 == buf
    ensures d == Zero ==> r.1 == |buf| && forall k :: 0 <= k < |buf| ==> r.2[k] == 0
    ensures d == Random ==> r.1 == |buf|
  {
    match d
    case Null | Console | Tty => (st, 0, buf)
    case Zero => (st, |buf|, FileData.Zeros(|buf|))
    case Random =>
      var g := RandomBytes(st.seed, |buf|);
      (DevState(g.0), |buf|, g.1)
  }

  /** `write` on a device: every byte is accepted (null, zero and random
      discard them; the terminals print them). */
  function Write(d: Device, offset: u64, buf: seq<byte>): (n: nat)
    ensures n == |buf|
  {
    |buf|
  }

  /** Reading /dev/random in two pieces gives the bytes one read of the
      whole length would, and leaves the same seed. */
  lemma RandomReadsCompose(st: DevState, a: seq<byte>, b: seq<byte>)
    ensures var r1 := Read(st, Random, 0, a);
      var r2 := Read(r1.0, Random, 0, b);
      Read(st, Random, 0, a + b) == (r2.0, |a + b|, r1.2 + r2.2)
  {
    RandomBytesCompose(st.seed, |a|, |b|);
  }
}
