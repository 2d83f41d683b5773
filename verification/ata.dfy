/** The ATA/IDE PIO driver (kernel/src/drivers/storage/ata.rs). Port
    reads are given as values: the status polls of each sector as a
    sequence of status bytes, the data register as a stream of words, the
    IDENTIFY answer as 256 words; port writes of a command are returned as
    a list of (register offset, value) pairs. */
module Ata {
  import opened Common

  const SECTOR_BYTES: nat := 512
  const SECTOR_WORDS: nat := 256
  const MODEL_SIZE: nat := 40
  const SERIAL_SIZE: nat := 20
  const NAME_SIZE: nat := 8
  const MAX_DEVICES: nat := 4
  /** The number of status reads before a wait gives up. */
  const POLL_LIMIT: nat := 100000
  /** The largest sector count one command carries. */
  const MAX_COUNT: nat := 255

  const STATUS_ERR: bv8 := 0x01
  const STATUS_DRQ: bv8 := 0x08

  const CMD_READ_PIO: bv8 := 0x20
  const CMD_READ_PIO_EXT: bv8 := 0x24
  const CMD_WRITE_PIO: bv8 := 0x30
  const CMD_WRITE_PIO_EXT: bv8 := 0x34

  /** Register offsets from the channel's base port. */
  const REG_COUNT: nat := 2
  const REG_LBA_LO: nat := 3
  const REG_LBA_MID: nat := 4
  const REG_LBA_HI: nat := 5
  const REG_DRIVE: nat := 6
  const REG_COMMAND: nat := 7

  datatype Device = Device(
    channel: byte, drive: byte,
    name: seq<byte>, model: seq<byte>, serial: seq<byte>,
    sectors: u64, lba48: bool, present: bool)

  function Zeros(n: nat): (z: seq<byte>)
    ensures |z| == n && forall i :: 0 <= i < n ==> z[i] == 0
  {
    if n == 0 then [] else [0] + Zeros(n - 1)
  }

  /** `AtaDevice::empty`: an unused slot. */
  function Empty(): (d: Device)
    ensures !d.present
  {
    Device(0, 0, Zeros(NAME_SIZE), Zeros(MODEL_SIZE), Zeros(SERIAL_SIZE), 0, false, false)
  }

  // ---------------------------------------------------------------------
  // Words and bytes

  /** A word's high byte, `(word >> 8) & 0xFF`. */
  function Hi(w: u16): byte { w / 256 }
  /** A word's low byte, `word & 0xFF`. */
  function Lo(w: u16): byte { w % 256 }

  /** The word `write_sectors` sends for two buffer bytes,
      `lo | (hi << 8)`: the first byte is the low one. */
  function Word(lo: byte, hi: byte): u16 { lo + 256 * hi }

  lemma WordHalves(w: u16, lo: byte, hi: byte)
    ensures Word(Lo(w), Hi(w)) == w
    ensures Lo(Word(lo, hi)) == lo && Hi(Word(lo, hi)) == hi
  {
  }

  /** The bytes `read_sectors` stores for a run of data words, low byte
      first. */
  function Unpack(ws: seq<u16>): (bs: seq<byte>)
    ensures |bs| == 2 * |ws|
  {
    if ws == [] then [] else [Lo(ws[0]), Hi(ws[0])] + Unpack(ws[1..])
  }

  /** The words `write_sectors` sends for a run of bytes of even length. */
  function Pack(bs: seq<byte>): (ws: seq<u16>)
    ensures |ws| == |bs| / 2
  {
    if |bs| < 2 then [] else [Word(bs[0], bs[1])] + Pack(bs[2..])
  }

  lemma {:induction false} UnpackAppend(a: seq<u16>, b: seq<u16>)
    ensures Unpack(a + b) == Unpack(a) + Unpack(b)
  {
    if a != [] {
      assert (a + b)[0] == a[0] && (a + b)[1..] == a[1..] + b;
      UnpackAppend(a[1..], b);
      var h := [Lo(a[0]), Hi(a[0])];
      calc {
        Unpack(a + b);
        h + Unpack(a[1..] + b);
        h + (Unpack(a[1..]) + Unpack(b));
        (h + Unpack(a[1..])) + Unpack(b);
        Unpack(a) + Unpack(b);
      }
    } else {
      assert a + b == b;
    }
  }

  lemma {:induction false} PackAppend(a: seq<byte>, b: seq<byte>)
    requires |a| % 2 == 0
    ensures Pack(a + b) == Pack(a) + Pack(b)
  {
    if a != [] {
      assert (a + b)[0] == a[0] && (a + b)[1] == a[1] && (a + b)[2..] == a[2..] + b;
      PackAppend(a[2..], b);
      var h := [Word(a[0], a[1])];
      calc {
        Pack(a + b);
        h + Pack(a[2..] + b);
        h + (Pack(a[2..]) + Pack(b));
        (h + Pack(a[2..])) + Pack(b);
        Pack(a) + Pack(b);
      }
    } else {
      assert a + b == b;
    }
  }

  /** Bytes written to the disk and read back come back unchanged. */
  lemma {:induction false} UnpackPack(bs: seq<byte>)
    requires |bs| % 2 == 0
    ensures Unpack(Pack(bs)) == bs
  {
    if bs != [] {
      WordHalves(Word(bs[0], bs[1]), bs[0], bs[1]);
      UnpackPack(bs[2..]);
      assert Pack(bs)[1..] == Pack(bs[2..]);
    }
  }

  /** Words read from the disk and written back come back unchanged. */
  lemma {:induction false} PackUnpack(ws: seq<u16>)
    ensures Pack(Unpack(ws)) == ws
  {
    if ws != [] {
      WordHalves(ws[0], 0, 0);
      PackUnpack(ws[1..]);
      assert Unpack(ws)[2..] == Unpack(ws[1..]);
    }
  }

  // ---------------------------------------------------------------------
  // IDENTIFY

  /** A string byte kept by `detect`: not NUL, and for the serial not a
      space either. */
  function Keep(b: byte, skipSpace: bool): seq<byte>
  {
    if b == 0 || (skipSpace && b == 0x20) then [] else [b]
  }

  /** The string bytes of a run of IDENTIFY words: the high byte of each
      word before its low byte, the dropped bytes left out. */
  function Text(words: seq<u16>, skipSpace: bool): (t: seq<byte>)
    ensures |t| <= 2 * |words|
  {
    if words == [] then []
    else Keep(Hi(words[0]), skipSpace) + Keep(Lo(words[0]), skipSpace) + Text(words[1..], skipSpace)
  }

  /** The text holds no NUL, and the serial's no space. */
  lemma {:induction false} TextBytes(words: seq<u16>, skipSpace: bool)
    ensures forall i :: 0 <= i < |Text(words, skipSpace)| ==>
      Text(words, skipSpace)[i] != 0 && (skipSpace ==> Text(words, skipSpace)[i] != 0x20)
  {
    if words != [] {
      TextBytes(words[1..], skipSpace);
    }
  }

  lemma {:induction false} TextAppend(a: seq<u16>, b: seq<u16>, skipSpace: bool)
    ensures Text(a + b, skipSpace) == Text(a, skipSpace) + Text(b, skipSpace)
  {
    if a != [] {
      assert (a + b)[0] == a[0] && (a + b)[1..] == a[1..] + b;
      TextAppend(a[1..], b, skipSpace);
      var h := Keep(Hi(a[0]), skipSpace) + Keep(Lo(a[0]), skipSpace);
      calc {
        Text(a + b, skipSpace);
        h + Text(a[1..] + b, skipSpace);
        h + (Text(a[1..], skipSpace) + Text(b, skipSpace));
        (h + Text(a[1..], skipSpace)) + Text(b, skipSpace);
        Text(a, skipSpace) + Text(b, skipSpace);
      }
    } else {
      assert a + b == b;
    }
  }

  /** A fixed-size string field: the first `size` text bytes, then zeros. */
  function Field(words: seq<u16>, size: nat, skipSpace: bool): (f: seq<byte>)
    ensures |f| == size
  {
    var t := Text(words, skipSpace);
    var k := Min(|t|, size);
    t[..k] + Zeros(size - k)
  }

  /** `detect`'s copy loop for the model and serial fields: it walks the
      words, storing each kept byte at the next free index while there is
      one. */
  method ExtractField(words: seq<u16>, size: nat, skipSpace: bool) returns (field: seq<byte>)
    ensures field == Field(words, size, skipSpace)
  {
    field := Zeros(size);
    var idx := 0;
    var i := 0;
    ghost var t: seq<byte> := [];
    while i < |words|
      invariant 0 <= i <= |words|
      invariant t == Text(words[..i], skipSpace)
      invariant Filled(field, idx, t, size)
    {
      var hi := Hi(words[i]);
      var lo := Lo(words[i]);
      ghost var t1 := t + Keep(hi, skipSpace);
      ghost var t2 := t1 + Keep(lo, skipSpace);
      PushStep(field, idx, t, hi, size, skipSpace);
      if idx < size && hi != 0 && !(skipSpace && hi == 0x20) {
        field := field[idx := hi];
        idx := idx + 1;
      }
      assert Filled(field, idx, t1, size);
      PushStep(field, idx, t1, lo, size, skipSpace);
      if idx < size && lo != 0 && !(skipSpace && lo == 0x20) {
        field := field[idx := lo];
        idx := idx + 1;
      }
      TextSnoc(words, i, skipSpace);
      t := t2;
      i := i + 1;
    }
    assert words[..i] == words;
    FilledIsField(field, idx, t, words, size, skipSpace);
  }

  lemma TextSnoc(words: seq<u16>, i: nat, skipSpace: bool)
    requires i < |words|
    ensures Text(words[..i + 1], skipSpace)
         == Text(words[..i], skipSpace) + Keep(Hi(words[i]), skipSpace) + Keep(Lo(words[i]), skipSpace)
  {
    assert words[..i + 1] == words[..i] + [words[i]];
    TextAppend(words[..i], [words[i]], skipSpace);
    assert [words[i]][1..] == [];
  }

  /** The copy loop's state: the field holds the first `idx` bytes of the
      text so far, as many as fit, and zeros after them. */
  ghost predicate Filled(field: seq<byte>, idx: nat, t: seq<byte>, size: nat)
  {
    && |field| == size && idx == Min(|t|, size)
    && field[..idx] == t[..idx]
    && forall j :: idx <= j < size ==> field[j] == 0
  }

  lemma PushStep(field: seq<byte>, idx: nat, t: seq<byte>, b: byte, size: nat, skipSpace: bool)
    requires Filled(field, idx, t, size)
    ensures var keep := idx < size && b != 0 && !(skipSpace && b == 0x20);
      Filled(if keep then field[idx := b] else field, if keep then idx + 1 else idx, t + Keep(b, skipSpace), size)
  {
    var keep := idx < size && b != 0 && !(skipSpace && b == 0x20);
    if keep {
      assert (t + [b])[..idx + 1] == t[..idx] + [b];
      assert field[idx := b][..idx + 1] == field[..idx] + [b];
    } else if idx < size {
      assert Keep(b, skipSpace) == [];
      assert t + [] == t;
    } else {
      assert (t + Keep(b, skipSpace))[..idx] == t[..idx];
    }
  }

  lemma FilledIsField(field: seq<byte>, idx: nat, t: seq<byte>, words: seq<u16>, size: nat, skipSpace: bool)
    requires t == Text(words, skipSpace) && Filled(field, idx, t, size)
    ensures field == Field(words, size, skipSpace)
  {
    assert field == field[..idx] + field[idx..];
  }

  /** A field filled from text without NULs reads back as that text. */
  lemma {:induction false} UntilNulPadded(t: seq<byte>, n: nat)
    requires forall i :: 0 <= i < |t| ==> t[i] != 0
    ensures UntilNul(t + Zeros(n)) == t
  {
    if t != [] {
      assert (t + Zeros(n))[1..] == t[1..] + Zeros(n);
      UntilNulPadded(t[1..], n);
    }
  }

  /** The drive letter `detect` gives a channel and drive: `a` to `d`
      for the four probe positions, `x` for any other pair. */
  function Letter(channel: byte, drive: byte): byte
  {
    if channel == 0 && drive == 0 then 'a' as byte
    else if channel == 0 && drive == 1 then 'b' as byte
    else if channel == 1 && drive == 0 then 'c' as byte
    else if channel == 1 && drive == 1 then 'd' as byte
    else 'x' as byte
  }

  /** The name: `hd` and the letter, padded with NULs to eight bytes. */
  function Name(channel: byte, drive: byte): (n: seq<byte>)
    ensures |n| == NAME_SIZE
  {
    ['h' as byte, 'd' as byte, Letter(channel, drive)] + Zeros(5)
  }

  /** The sector count in the IDENTIFY words: words 100 to 103 on an LBA48
      drive, words 60 and 61 otherwise. */
  function SectorCount(data: seq<u16>, lba48: bool): u64
    requires |data| == SECTOR_WORDS
  {
    if lba48 then
      data[100] as int + data[101] as int * 0x1_0000 + data[102] as int * 0x1_0000_0000 + data[103] as int * 0x1_0000_0000_0000
    else
      data[60] as int + data[61] as int * 0x1_0000
  }

  /** Word 83 bit 10: the drive takes 48-bit addresses. */
  predicate Lba48Capable(data: seq<u16>)
    requires |data| == SECTOR_WORDS
  {
    (data[83] / 0x400) % 2 == 1
  }

  /** The device `detect` builds from the channel, the drive and the 256
      words IDENTIFY answered. */
  function Identify(channel: byte, drive: byte, data: seq<u16>): (d: Device)
    requires |data| == SECTOR_WORDS
    ensures d.present && d.channel == channel && d.drive == drive
  {
    var lba48 := Lba48Capable(data);
    Device(channel, drive, Name(channel, drive),
      Field(data[27..47], MODEL_SIZE, false), Field(data[10..20], SERIAL_SIZE, true),
      SectorCount(data, lba48), lba48, true)
  }

  function NameStr(d: Device): seq<byte> { UntilNul(d.name) }
  function ModelStr(d: Device): seq<byte> { UntilNul(d.model) }
  function SerialStr(d: Device): seq<byte> { UntilNul(d.serial) }

  /** The model is the twenty words' non-NUL bytes, high byte first, in
      full: forty bytes always fit. The serial is the ten words' bytes
      other than NUL and space, which twenty bytes always hold. */
  lemma IdentifyStrings(channel: byte, drive: byte, data: seq<u16>)
    requires |data| == SECTOR_WORDS
    ensures ModelStr(Identify(channel, drive, data)) == Text(data[27..47], false)
    ensures SerialStr(Identify(channel, drive, data)) == Text(data[10..20], true)
    ensures forall i :: 0 <= i < |SerialStr(Identify(channel, drive, data))| ==>
      SerialStr(Identify(channel, drive, data))[i] != 0x20
  {
    FieldText(data[27..47], MODEL_SIZE, false);
    FieldText(data[10..20], SERIAL_SIZE, true);
    TextBytes(data[10..20], true);
  }

  /** A field with room for every text byte reads back as the text. */
  lemma FieldText(words: seq<u16>, size: nat, skipSpace: bool)
    requires 2 * |words| <= size
    ensures UntilNul(Field(words, size, skipSpace)) == Text(words, skipSpace)
  {
    var t := Text(words, skipSpace);
    var f := Field(words, size, skipSpace);
    assert f == t + Zeros(size - |t|) by {
      assert Min(|t|, size) == |t|;
      assert t[..|t|] == t;
    }
    TextBytes(words, skipSpace);
    UntilNulPadded(t, size - |t|);
    calc {
      UntilNul(f);
      UntilNul(t + Zeros(size - |t|));
      t;
    }
  }

  /** The sector count is the IDENTIFY words laid side by side, lowest
      word first; a drive without 48-bit addressing has at most 2^32 - 1
      sectors. */
  lemma SectorCountWords(data: seq<u16>, lba48: bool)
    requires |data| == SECTOR_WORDS
    ensures lba48 ==> Words16(SectorCount(data, lba48), 4) == data[100..104]
    ensures !lba48 ==> Words16(SectorCount(data, lba48), 2) == data[60..62]
    ensures !lba48 ==> SectorCount(data, lba48) < 0x1_0000_0000
  {
    var s := SectorCount(data, lba48);
    if lba48 {
      var r: int := data[101] as int + data[102] as int * 0x1_0000 + data[103] as int * 0x1_0000_0000;
      assert s == data[100] + r * 0x1_0000;
      assert s / 0x1_0000 == r;
      var r2: int := data[102] as int + data[103] as int * 0x1_0000;
      assert r == data[101] + r2 * 0x1_0000;
      assert r / 0x1_0000 == r2;
      assert r2 / 0x1_0000 == data[103];
      assert Words16(s, 4) == [data[100]] + Words16(r, 3);
      assert Words16(r, 3) == [data[101]] + Words16(r2, 2);
      assert Words16(r2, 2) == [data[102]] + Words16(data[103], 1);
      assert Words16(data[103], 1) == [data[103]] + Words16(0, 0);
    } else {
      assert s / 0x1_0000 == data[61];
      assert Words16(s, 2) == [data[60]] + Words16(data[61], 1);
      assert Words16(data[61], 1) == [data[61]] + Words16(0, 0);
    }
  }

  /** The `n` 16-bit words of `v`, lowest first. */
  function Words16(v: nat, n: nat): (ws: seq<u16>)
    ensures |ws| == n
  {
    if n == 0 then [] else [v % 0x1_0000] + Words16(v / 0x1_0000, n - 1)
  }

  /** The four probe positions get the names `hda` to `hdd`, all different,
      and each one's `name_str` is its three letters. */
  lemma NameOfIdentify(c: byte, d: byte, data: seq<u16>)
    requires c < 2 && d < 2 && |data| == SECTOR_WORDS
    ensures NameStr(Identify(c, d, data)) == ['h' as byte, 'd' as byte, ('a' as byte) + 2 * c + d]
  {
    assert Letter(c, d) == ('a' as byte) + 2 * c + d;
    UntilNulPadded(['h' as byte, 'd' as byte, Letter(c, d)], 5);
  }

  lemma NamesDistinct(c: byte, d: byte, c': byte, d': byte)
    requires c < 2 && d < 2 && c' < 2 && d' < 2
    ensures Name(c, d) == Name(c', d') <==> c == c' && d == d'
  {
    if Name(c, d) == Name(c', d') {
      assert Name(c, d)[2] == Letter(c, d) && Name(c', d')[2] == Letter(c', d');
    }
  }

  // ---------------------------------------------------------------------
  // Commands

  /** One `outb` to the channel: the register's offset from the base port
      and the byte written. */
  datatype PortWrite = PortWrite(offset: nat, value: bv8)

  /** A transfer uses 48-bit addressing only on a capable drive and only
      for sectors past the 28-bit range. */
  predicate UsesLba48(d: Device, lba: bv64)
  {
    d.lba48 && lba > 0x0FFF_FFFF
  }

  function DriveSelect(d: Device): bv8 { if d.drive == 0 then 0xE0 else 0xF0 }

  function LbaByte(lba: bv64, shift: nat): bv8
    requires shift <= 56
  {
    ((lba >> shift) & 0xFF) as bv8
  }

  /** The register writes `read_sectors` (or `write_sectors`) issues before
      moving data. */
  function CommandWrites(d: Device, lba: bv64, count: bv8, write: bool): (ws: seq<PortWrite>)
    ensures |ws| > 0 && ws[|ws| - 1].offset == REG_COMMAND
  {
    if UsesLba48(d, lba) then
      [ PortWrite(REG_DRIVE, DriveSelect(d)),
        PortWrite(REG_COUNT, 0),
        PortWrite(REG_LBA_LO, LbaByte(lba, 24)),
        PortWrite(REG_LBA_MID, LbaByte(lba, 32)),
        PortWrite(REG_LBA_HI, LbaByte(lba, 40)),
        PortWrite(REG_COUNT, count),
        PortWrite(REG_LBA_LO, LbaByte(lba, 0)),
        PortWrite(REG_LBA_MID, LbaByte(lba, 8)),
        PortWrite(REG_LBA_HI, LbaByte(lba, 16)),
        PortWrite(REG_COMMAND, if write then CMD_WRITE_PIO_EXT else CMD_READ_PIO_EXT) ]
    else
      [ PortWrite(REG_DRIVE, DriveSelect(d) | (((lba >> 24) & 0x0F) as bv8)),
        PortWrite(REG_COUNT, count),
        PortWrite(REG_LBA_LO, LbaByte(lba, 0)),
        PortWrite(REG_LBA_MID, LbaByte(lba, 8)),
        PortWrite(REG_LBA_HI, LbaByte(lba, 16)),
        PortWrite(REG_COMMAND, if write then CMD_WRITE_PIO else CMD_READ_PIO) ]
  }

  /** With 28-bit addressing the drive register keeps the drive select in
      its high nibble, and the address bytes put back together give the
      low 28 bits of the sector number. */
  lemma Lba28Address(d: Device, lba: bv64, count: bv8, write: bool)
    requires !UsesLba48(d, lba)
    ensures var ws := CommandWrites(d, lba, count, write);
      && |ws| == 6
      && ws[0].value & 0xF0 == DriveSelect(d)
      && ws[1] == PortWrite(REG_COUNT, count)
      && (((ws[0].value & 0x0F) as bv64) << 24) | ((ws[4].value as bv64) << 16)
           | ((ws[3].value as bv64) << 8) | (ws[2].value as bv64)
         == lba & 0x0FFF_FFFF
      && ws[5].value == (if write then CMD_WRITE_PIO else CMD_READ_PIO)
  {
    var ws := CommandWrites(d, lba, count, write);
    var top := ((lba >> 24) & 0x0F) as bv8;
    assert ws[0].value == DriveSelect(d) | top;
    assert ws[2].value == LbaByte(lba, 0) && ws[3].value == LbaByte(lba, 8) && ws[4].value == LbaByte(lba, 16);
    assert (DriveSelect(d) | top) & 0xF0 == DriveSelect(d) && (DriveSelect(d) | top) & 0x0F == top;
    Rebuild28(lba);
  }

  lemma Rebuild28(lba: bv64)
    ensures ((((lba >> 24) & 0x0F) as bv8 as bv64) << 24) | ((LbaByte(lba, 16) as bv64) << 16)
      | ((LbaByte(lba, 8) as bv64) << 8) | (LbaByte(lba, 0) as bv64)
      == lba & 0x0FFF_FFFF
  {
  }

  /** With 48-bit addressing the high sector count byte is zero, and the
      six address bytes, high half first, give the low 48 bits. */
  lemma Lba48Address(d: Device, lba: bv64, count: bv8, write: bool)
    requires UsesLba48(d, lba)
    ensures var ws := CommandWrites(d, lba, count, write);
      && |ws| == 10
      && ws[0] == PortWrite(REG_DRIVE, DriveSelect(d))
      && ws[1] == PortWrite(REG_COUNT, 0) && ws[5] == PortWrite(REG_COUNT, count)
      && ((ws[4].value as bv64) << 40) | ((ws[3].value as bv64) << 32) | ((ws[2].value as bv64) << 24)
           | ((ws[8].value as bv64) << 16) | ((ws[7].value as bv64) << 8) | (ws[6].value as bv64)
         == lba & 0xFFFF_FFFF_FFFF
      && ws[9].value == (if write then CMD_WRITE_PIO_EXT else CMD_READ_PIO_EXT)
  {
    var ws := CommandWrites(d, lba, count, write);
    assert ws[2].value == LbaByte(lba, 24) && ws[3].value == LbaByte(lba, 32) && ws[4].value == LbaByte(lba, 40);
    assert ws[6].value == LbaByte(lba, 0) && ws[7].value == LbaByte(lba, 8) && ws[8].value == LbaByte(lba, 16);
    Rebuild48(lba);
  }

  lemma Rebuild48(lba: bv64)
    ensures ((LbaByte(lba, 40) as bv64) << 40) | ((LbaByte(lba, 32) as bv64) << 32) | ((LbaByte(lba, 24) as bv64) << 24)
      | ((LbaByte(lba, 16) as bv64) << 16) | ((LbaByte(lba, 8) as bv64) << 8) | (LbaByte(lba, 0) as bv64)
      == lba & 0xFFFF_FFFF_FFFF
  {
  }

  /** On a drive without 48-bit addressing, a sector number past the
      28-bit range is not refused: it addresses the sector with the same
      low 28 bits, so sector 2^28 is sector 0. */
  lemma Lba28Truncates(d: Device, count: bv8, write: bool)
    requires !d.lba48
    ensures CommandWrites(d, 0x1000_0000, count, write) == CommandWrites(d, 0, count, write)
  {
  }

  // ---------------------------------------------------------------------
  // Waiting for data

  datatype Wait = Ready | Error | Timeout

  /** The poll loop before each sector: an error bit ends it with an error,
      a data-request bit with success, and `budget` quiet reads (or the end
      of the given reads) with a timeout. */
  function WaitDrq(polls: seq<bv8>, budget: nat): Wait
    decreases budget
  {
    if budget == 0 || polls == [] then Timeout
    else if polls[0] & STATUS_ERR != 0 then Error
    else if polls[0] & STATUS_DRQ != 0 then Ready
    else WaitDrq(polls[1..], budget - 1)
  }

  predicate Quiet(status: bv8) { status & STATUS_ERR == 0 && status & STATUS_DRQ == 0 }

  /** Read `i` is the first that is not quiet, and it asks for data
      without an error. */
  predicate ReadyAt(polls: seq<bv8>, i: nat)
  {
    && i < |polls| && polls[i] & STATUS_DRQ != 0 && polls[i] & STATUS_ERR == 0
    && forall j :: 0 <= j < i ==> Quiet(polls[j])
  }

  /** The wait succeeds exactly when, within the budget, a read with the
      data-request bit and no error bit comes before any read with the
      error bit; it times out exactly when every read in the budget is
      quiet. */
  lemma {:induction false} WaitDrqMeans(polls: seq<bv8>, budget: nat)
    ensures WaitDrq(polls, budget) == Ready <==> exists i: nat :: i < budget && ReadyAt(polls, i)
    ensures WaitDrq(polls, budget) == Timeout <==>
      forall i :: 0 <= i < Min(|polls|, budget) ==> Quiet(polls[i])
    decreases budget
  {
    if budget > 0 && polls != [] {
      var tail := polls[1..];
      if Quiet(polls[0]) {
        WaitDrqMeans(tail, budget - 1);
        forall i: nat | i < |tail| ensures ReadyAt(tail, i) <==> ReadyAt(polls, i + 1) {
          assert tail[i] == polls[i + 1];
          assert (forall j :: 0 <= j < i ==> Quiet(tail[j])) <==> (forall j :: 0 <= j < i + 1 ==> Quiet(polls[j])) by {
            assert forall j :: 0 <= j < i ==> tail[j] == polls[j + 1];
          }
        }
        if exists i: nat :: i < budget && ReadyAt(polls, i) {
          var i: nat :| i < budget && ReadyAt(polls, i);
          assert i > 0 && ReadyAt(tail, i - 1);
        }
        assert (forall i :: 0 <= i < Min(|tail|, budget - 1) ==> Quiet(tail[i]))
          <==> (forall i :: 0 <= i < Min(|polls|, budget) ==> Quiet(polls[i])) by {
          assert forall i :: 0 <= i < |tail| ==> tail[i] == polls[i + 1];
        }
      } else {
        if polls[0] & STATUS_ERR != 0 {
          assert forall i: nat :: i > 0 ==> !ReadyAt(polls, i);
        } else {
          assert ReadyAt(polls, 0);
        }
      }
    }
  }

  /** The wait of one sector, with the driver's budget. */
  function SectorWait(polls: seq<bv8>): Wait { WaitDrq(polls, POLL_LIMIT) }

  /** How many sectors, from the first, get their data: the first sector
      whose wait fails, or `count` when none does. */
  function ReadyCount(polls: seq<seq<bv8>>, count: nat): (k: nat)
    requires count <= |polls|
    ensures k <= count
    ensures forall s :: 0 <= s < k ==> SectorWait(polls[s]) == Ready
    ensures k < count ==> SectorWait(polls[k]) != Ready
  {
    ReadyFrom(polls, 0, count)
  }

  function ReadyFrom(polls: seq<seq<bv8>>, s: nat, count: nat): (k: nat)
    requires s <= count <= |polls|
    requires forall t :: 0 <= t < s ==> SectorWait(polls[t]) == Ready
    ensures s <= k <= count
    ensures forall t :: 0 <= t < k ==> SectorWait(polls[t]) == Ready
    ensures k < count ==> SectorWait(polls[k]) != Ready
    decreases count - s
  {
    if s == count || SectorWait(polls[s]) != Ready then s else ReadyFrom(polls, s + 1, count)
  }

  /** The error a failed wait reports. */
  function WaitError(w: Wait, write: bool): string
  {
    if w == Error then (if write then "Write error" else "Read error")
    else (if write then "Write timeout" else "Read timeout")
  }

  /** The unique sector count the two properties of `ReadyCount` allow. */
  lemma ReadyCountIs(polls: seq<seq<bv8>>, count: nat, k: nat)
    requires k <= count <= |polls|
    requires forall s :: 0 <= s < k ==> SectorWait(polls[s]) == Ready
    requires k < count ==> SectorWait(polls[k]) != Ready
    ensures ReadyCount(polls, count) == k
  {
    ReadyFromIs(polls, 0, count, k);
  }

  lemma {:induction false} ReadyFromIs(polls: seq<seq<bv8>>, s: nat, count: nat, k: nat)
    requires s <= k <= count <= |polls|
    requires forall t :: 0 <= t < k ==> SectorWait(polls[t]) == Ready
    requires k < count ==> SectorWait(polls[k]) != Ready
    ensures ReadyFrom(polls, s, count) == k
    decreases k - s
  {
    if s < k {
      ReadyFromIs(polls, s + 1, count, k);
    }
  }

  // ---------------------------------------------------------------------
  // Reading and writing

  lemma StoreWord(p: seq<byte>, rest: seq<byte>, lo: byte, hi: byte)
    requires |rest| >= 2
    ensures (p + rest)[|p| := lo][|p| + 1 := hi] == p + [lo, hi] + rest[2..]
  {
  }

  lemma UnpackSnoc(ws: seq<u16>, i: nat)
    requires i < |ws|
    ensures Unpack(ws[..i + 1]) == Unpack(ws[..i]) + [Lo(ws[i]), Hi(ws[i])]
  {
    assert ws[..i + 1] == ws[..i] + [ws[i]];
    UnpackAppend(ws[..i], [ws[i]]);
    assert Unpack([ws[i]]) == [Lo(ws[i]), Hi(ws[i])] + Unpack([]);
  }

  /** One word of the copy loop of `read_sectors`. */
  lemma StoreStep(buf: seq<byte>, offset: nat, data: seq<u16>, first: nat, i: nat, out: seq<byte>)
    requires offset + SECTOR_BYTES <= |buf| && first + SECTOR_WORDS <= |data| && i < SECTOR_WORDS
    requires out == buf[..offset] + Unpack(data[first..first + i]) + buf[offset + 2 * i..]
    ensures out[offset + 2 * i := Lo(data[first + i])][offset + 2 * i + 1 := Hi(data[first + i])]
         == buf[..offset] + Unpack(data[first..first + i + 1]) + buf[offset + 2 * (i + 1)..]
  {
    var ws := data[first..first + SECTOR_WORDS];
    assert ws[..i] == data[first..first + i] && ws[..i + 1] == data[first..first + i + 1] && ws[i] == data[first + i];
    UnpackSnoc(ws, i);
    var p := buf[..offset] + Unpack(data[first..first + i]);
    var rest := buf[offset + 2 * i..];
    StoreWord(p, rest, Lo(ws[i]), Hi(ws[i]));
    assert rest[2..] == buf[offset + 2 * (i + 1)..];
  }

  /** One sector of `read_sectors`: the next 256 words of the data
      register are stored, low byte first, from `offset` on. */
  method StoreSector(buf: seq<byte>, offset: nat, data: seq<u16>, first: nat) returns (out: seq<byte>)
    requires offset + SECTOR_BYTES <= |buf| && first + SECTOR_WORDS <= |data|
    ensures out == buf[..offset] + Unpack(data[first..first + SECTOR_WORDS]) + buf[offset + SECTOR_BYTES..]
  {
    out := buf;
    var i := 0;
    while i < SECTOR_WORDS
      invariant 0 <= i <= SECTOR_WORDS
      invariant out == buf[..offset] + Unpack(data[first..first + i]) + buf[offset + 2 * i..]
    {
      var word := data[first + i];
      StoreStep(buf, offset, data, first, i, out);
      out := out[offset + 2 * i := Lo(word)][offset + 2 * i + 1 := Hi(word)];
      i := i + 1;
    }
  }

  lemma ReadStep(buf: seq<byte>, data: seq<u16>, s: nat, out: seq<byte>)
    requires (s + 1) * SECTOR_BYTES <= |buf| && (s + 1) * SECTOR_WORDS <= |data|
    requires out == Unpack(data[..s * SECTOR_WORDS]) + buf[s * SECTOR_BYTES..]
    ensures out[..s * SECTOR_BYTES] + Unpack(data[s * SECTOR_WORDS..s * SECTOR_WORDS + SECTOR_WORDS])
              + out[s * SECTOR_BYTES + SECTOR_BYTES..]
         == Unpack(data[..(s + 1) * SECTOR_WORDS]) + buf[(s + 1) * SECTOR_BYTES..]
  {
    var a := data[..s * SECTOR_WORDS];
    var b := data[s * SECTOR_WORDS..s * SECTOR_WORDS + SECTOR_WORDS];
    assert data[..(s + 1) * SECTOR_WORDS] == a + b;
    UnpackAppend(a, b);
    assert out[..s * SECTOR_BYTES] == Unpack(a);
    assert out[s * SECTOR_BYTES + SECTOR_BYTES..] == buf[(s + 1) * SECTOR_BYTES..];
  }

  /** One sector of `write_sectors`: the words for the 512 bytes from
      `offset` on, each from a low and a high byte. */
  method SendSector(buf: seq<byte>, offset: nat) returns (words: seq<u16>)
    requires offset + SECTOR_BYTES <= |buf|
    ensures words == Pack(buf[offset..offset + SECTOR_BYTES])
  {
    words := [];
    var i := 0;
    while i < SECTOR_WORDS
      invariant 0 <= i <= SECTOR_WORDS
      invariant words == Pack(buf[offset..offset + 2 * i])
    {
      var m := offset + 2 * i;
      assert buf[offset..m + 2] == buf[offset..m] + [buf[m], buf[m + 1]];
      PackAppend(buf[offset..m], [buf[m], buf[m + 1]]);
      assert Pack([buf[m], buf[m + 1]]) == [Word(buf[m], buf[m + 1])];
      words := words + [Word(buf[m], buf[m + 1])];
      i := i + 1;
    }
  }

  lemma WriteStep(buf: seq<byte>, s: nat)
    requires (s + 1) * SECTOR_BYTES <= |buf|
    ensures Pack(buf[..(s + 1) * SECTOR_BYTES])
         == Pack(buf[..s * SECTOR_BYTES]) + Pack(buf[s * SECTOR_BYTES..s * SECTOR_BYTES + SECTOR_BYTES])
  {
    assert buf[..(s + 1) * SECTOR_BYTES] == buf[..s * SECTOR_BYTES] + buf[s * SECTOR_BYTES..s * SECTOR_BYTES + SECTOR_BYTES];
    PackAppend(buf[..s * SECTOR_BYTES], buf[s * SECTOR_BYTES..s * SECTOR_BYTES + SECTOR_BYTES]);
  }

  /** `read_sectors` after the command is issued: for each sector, wait
      for data, then store the next 256 words of the data register. The
      buffer keeps the sectors stored before a failed wait. */
  method ReadSectors(d: Device, lba: bv64, count: byte, buf: seq<byte>, polls: seq<seq<bv8>>, data: seq<u16>)
    returns (r: Outcome, out: seq<byte>)
    requires |polls| >= count && |data| >= count * SECTOR_WORDS
    ensures |out| == |buf|
    ensures |buf| < count * SECTOR_BYTES ==> r == Fail("Buffer too small") && out == buf
    ensures |buf| >= count * SECTOR_BYTES ==>
      var k := ReadyCount(polls, count);
      && out == Unpack(data[..k * SECTOR_WORDS]) + buf[k * SECTOR_BYTES..]
      && (r == Done <==> k == count)
      && (k < count ==> r == Fail(WaitError(SectorWait(polls[k]), false)))
  {
    if |buf| < count * SECTOR_BYTES {
      return Fail("Buffer too small"), buf;
    }
    out := buf;
    var sector := 0;
    while sector < count
      invariant 0 <= sector <= count && |out| == |buf|
      invariant forall s :: 0 <= s < sector ==> SectorWait(polls[s]) == Ready
      invariant out == Unpack(data[..sector * SECTOR_WORDS]) + buf[sector * SECTOR_BYTES..]
    {
      var w := SectorWait(polls[sector]);
      if w != Ready {
        ReadyCountIs(polls, count, sector);
        return Fail(WaitError(w, false)), out;
      }
      ReadStep(buf, data, sector, out);
      out := StoreSector(out, sector * SECTOR_BYTES, data, sector * SECTOR_WORDS);
      sector := sector + 1;
    }
    ReadyCountIs(polls, count, sector);
    r := Done;
  }

  /** `write_sectors` after the command is issued: for each sector, wait
      until the drive asks for data, then send the sector's 256 words. The
      cache flush that follows always succeeds. */
  method WriteSectors(d: Device, lba: bv64, count: byte, buf: seq<byte>, polls: seq<seq<bv8>>)
    returns (r: Outcome, sent: seq<u16>)
    requires |polls| >= count
    ensures |buf| < count * SECTOR_BYTES ==> r == Fail("Buffer too small") && sent == []
    ensures |buf| >= count * SECTOR_BYTES ==>
      var k := ReadyCount(polls, count);
      && sent == Pack(buf[..k * SECTOR_BYTES])
      && (r == Done <==> k == count)
      && (k < count ==> r == Fail(WaitError(SectorWait(polls[k]), true)))
  {
    if |buf| < count * SECTOR_BYTES {
      return Fail("Buffer too small"), [];
    }
    sent := [];
    var sector := 0;
    while sector < count
      invariant 0 <= sector <= count
      invariant forall s :: 0 <= s < sector ==> SectorWait(polls[s]) == Ready
      invariant sent == Pack(buf[..sector * SECTOR_BYTES])
    {
      var w := SectorWait(polls[sector]);
      if w != Ready {
        ReadyCountIs(polls, count, sector);
        return Fail(WaitError(w, true)), sent;
      }
      var words := SendSector(buf, sector * SECTOR_BYTES);
      WriteStep(buf, sector);
      sent := sent + words;
      sector := sector + 1;
    }
    ReadyCountIs(polls, count, sector);
    r := Done;
  }

  /** The `BlockDevice` read: more than 255 sectors is refused before
      anything else. */
  method BlockRead(d: Device, start: bv64, count: nat, buf: seq<byte>, polls: seq<seq<bv8>>, data: seq<u16>)
    returns (r: Outcome, out: seq<byte>)
    requires count <= MAX_COUNT ==> |polls| >= count && |data| >= count * SECTOR_WORDS
    ensures |out| == |buf|
    ensures count > MAX_COUNT ==> r == Fail("Count too large") && out == buf
    ensures count <= MAX_COUNT && |buf| >= count * SECTOR_BYTES && ReadyCount(polls, count) == count ==>
      r == Done && out[..count * SECTOR_BYTES] == Unpack(data[..count * SECTOR_WORDS])
  {
    if count > MAX_COUNT {
      return Fail("Count too large"), buf;
    }
    r, out := ReadSectors(d, start, count, buf, polls, data);
  }

  /** The `BlockDevice` write. */
  method BlockWrite(d: Device, start: bv64, count: nat, buf: seq<byte>, polls: seq<seq<bv8>>)
    returns (r: Outcome, sent: seq<u16>)
    requires count <= MAX_COUNT ==> |polls| >= count
    ensures count > MAX_COUNT ==> r == Fail("Count too large") && sent == []
    ensures count <= MAX_COUNT && |buf| >= count * SECTOR_BYTES && ReadyCount(polls, count) == count ==>
      r == Done && sent == Pack(buf[..count * SECTOR_BYTES])
  {
    if count > MAX_COUNT {
      return Fail("Count too large"), [];
    }
    r, sent := WriteSectors(d, start, count, buf, polls);
  }

  /** What a successful write sends is what a later read of the same
      sectors stores: the written bytes come back. */
  lemma WriteThenRead(buf: seq<byte>, count: nat)
    requires |buf| >= count * SECTOR_BYTES
    ensures Unpack(Pack(buf[..count * SECTOR_BYTES])) == buf[..count * SECTOR_BYTES]
  {
    UnpackPack(buf[..count * SECTOR_BYTES]);
  }

  // ---------------------------------------------------------------------
  // The device table

  /** The devices `detect` found, in probe order. */
  function Found(probes: seq<Option<Device>>): (ds: seq<Device>)
    ensures |ds| <= |probes|
  {
    if probes == [] then []
    else (if probes[0].Some? then [probes[0].value] else []) + Found(probes[1..])
  }

  lemma {:induction false} FoundAppend(a: seq<Option<Device>>, b: seq<Option<Device>>)
    ensures Found(a + b) == Found(a) + Found(b)
  {
    if a != [] {
      assert (a + b)[0] == a[0] && (a + b)[1..] == a[1..] + b;
      FoundAppend(a[1..], b);
      var h := if a[0].Some? then [a[0].value] else [];
      calc {
        Found(a + b);
        h + Found(a[1..] + b);
        h + (Found(a[1..]) + Found(b));
        (h + Found(a[1..])) + Found(b);
        Found(a) + Found(b);
      }
    } else {
      assert a + b == b;
    }
  }

  /** `scan_devices`: the probe results for (0, 0), (0, 1), (1, 0) and
      (1, 1) in turn; each found device takes the next free slot while
      there is one. */
  method ScanDevices(probes: seq<Option<Device>>) returns (table: seq<Device>)
    ensures |table| == MAX_DEVICES
    ensures forall i :: 0 <= i < MAX_DEVICES ==>
      table[i] == if i < |Found(probes)| then Found(probes)[i] else Empty()
  {
    table := [Empty(), Empty(), Empty(), Empty()];
    var idx := 0;
    var p := 0;
    while p < |probes|
      invariant 0 <= p <= |probes| && |table| == MAX_DEVICES
      invariant idx == Min(|Found(probes[..p])|, MAX_DEVICES)
      invariant forall i :: 0 <= i < MAX_DEVICES ==>
        table[i] == if i < idx then Found(probes[..p])[i] else Empty()
    {
      assert probes[..p + 1] == probes[..p] + [probes[p]];
      FoundAppend(probes[..p], [probes[p]]);
      assert Found([probes[p]]) == if probes[p].Some? then [probes[p].value] else [] by {
        assert [probes[p]][1..] == [];
      }
      if probes[p].Some? && idx < MAX_DEVICES {
        table := table[idx := probes[p].value];
        idx := idx + 1;
      }
      p := p + 1;
    }
    assert probes[..p] == probes;
  }

  /** `get_device`. */
  function GetDevice(table: seq<Device>, index: nat): (r: Option<Device>)
    requires |table| == MAX_DEVICES
    ensures r.Some? ==> index < MAX_DEVICES && r.value == table[index]
  {
    if index < MAX_DEVICES && table[index].present then Some(table[index]) else None
  }

  /** After a scan in which every detected device is marked present,
      `get_device` finds exactly the first four detected devices, in probe
      order. */
  lemma GetDeviceFinds(probes: seq<Option<Device>>, table: seq<Device>, index: nat)
    requires |table| == MAX_DEVICES
    requires forall i :: 0 <= i < MAX_DEVICES ==>
      table[i] == if i < |Found(probes)| then Found(probes)[i] else Empty()
    requires forall i :: 0 <= i < |probes| && probes[i].Some? ==> probes[i].value.present
    ensures GetDevice(table, index).Some? <==> index < MAX_DEVICES && index < |Found(probes)|
    ensures GetDevice(table, index).Some? ==> GetDevice(table, index).value == Found(probes)[index]
  {
    if index < MAX_DEVICES && index < |Found(probes)| {
      FoundPresent(probes, index);
    }
  }

  lemma {:induction false} FoundPresent(probes: seq<Option<Device>>, i: nat)
    requires forall j :: 0 <= j < |probes| && probes[j].Some? ==> probes[j].value.present
    requires i < |Found(probes)|
    ensures Found(probes)[i].present
  {
    if probes != [] {
      var head := if probes[0].Some? then [probes[0].value] else [];
      assert Found(probes) == head + Found(probes[1..]);
      if i >= |head| {
        FoundPresent(probes[1..], i - |head|);
      }
    }
  }
}
