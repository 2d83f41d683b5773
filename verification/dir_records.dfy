/** CottonFS directory records (`DiskDirEntry`, kernel/src/fs/cottonfs.rs):
    building a record from a name, the 72-byte image `save_dir_entries`
    writes, and the parse `load_dir_entries` applies to the bytes of a
    directory's blocks, which keeps the records that are not empty. */
module DirRecords {
  import opened Common
  import opened CottonFs
  import opened CottonFiles
  import FileData

  /** `size_of::<DiskDirEntry>()`: 8 + 1 + 1 + 2 of padding + 60. */
  const DIR_ENTRY_SIZE: nat := 72

  /** A record whose length byte does not run past its 60-byte name
      field; `get_name` panics on any other. */
  predicate WellFormed(e: DirRecord)
  {
    |e.name| == MAX_FILENAME && e.nameLen as nat <= MAX_FILENAME
  }

  predicate AllWellFormed(es: seq<DirRecord>)
  {
    forall k :: 0 <= k < |es| ==> WellFormed(es[k])
  }

  /** Inode 0 marks an empty slot. */
  predicate IsEmpty(e: DirRecord) { e.inode == 0 }

  predicate NoneEmpty(es: seq<DirRecord>)
  {
    forall k :: 0 <= k < |es| ==> !IsEmpty(es[k])
  }

  /** `DiskDirEntry::new`: names longer than 60 bytes are cut to 60; the
      rest of the field is zeros. */
  function NewRecord(ino: u64, name: seq<byte>, t: Vfs.FileType): (e: DirRecord)
    ensures WellFormed(e) && e.inode == ino && e.fileType == CodeFromType(t)
    ensures e.nameLen as nat == Min(|name|, MAX_FILENAME)
    ensures e.name[..e.nameLen] == name[..e.nameLen]
    ensures forall k :: e.nameLen as nat <= k < MAX_FILENAME ==> e.name[k] == 0
  {
    var n := Min(|name|, MAX_FILENAME);
    DirRecord(ino, n as byte, CodeFromType(t), name[..n] + FileData.Zeros(MAX_FILENAME - n))
  }

  /** `get_name`. */
  function RecordName(e: DirRecord): (name: seq<byte>)
    requires WellFormed(e)
    ensures |name| == e.nameLen as nat && name == e.name[..|name|]
  {
    e.name[..e.nameLen]
  }

  /** A name of at most 60 bytes comes back from its record unchanged; a
      longer one comes back as its first 60 bytes. */
  lemma NameRoundTrip(ino: u64, name: seq<byte>, t: Vfs.FileType)
    ensures RecordName(NewRecord(ino, name, t)) == name[..Min(|name|, MAX_FILENAME)]
    ensures |name| <= MAX_FILENAME ==> RecordName(NewRecord(ino, name, t)) == name
  {
    assert name[..|name|] == name;
  }

  // ---------------------------------------------------------------------
  // Little-endian integers

  lemma {:induction false} FromZeros(n: nat)
    ensures FromLittleEndian(FileData.Zeros(n)) == 0
  {
    if n > 0 {
      assert FileData.Zeros(n)[1..] == FileData.Zeros(n - 1);
      FromZeros(n - 1);
    }
  }

  lemma EightBytes()
    ensures Pow256(8) == U64_MODULUS
  {
  }

  // ---------------------------------------------------------------------
  // Record images

  /** The 72 bytes of a record: inode number, name length, type code, two
      bytes of padding (zero), name field. */
  function EncodeRecord(e: DirRecord): (r: seq<byte>)
    requires WellFormed(e)
    ensures |r| == DIR_ENTRY_SIZE
  {
    LittleEndian(e.inode, 8) + [e.nameLen, e.fileType, 0, 0] + e.name
  }

  /** A record read out of 72 bytes, as `ptr::read` reinterprets them. */
  function DecodeRecord(b: seq<byte>): (e: DirRecord)
    requires |b| == DIR_ENTRY_SIZE
    ensures |e.name| == MAX_FILENAME
  {
    EightBytes();
    DirRecord(FromLittleEndian(b[..8]) as u64, b[8], b[9], b[12..])
  }

  /** Decoding undoes encoding. */
  lemma DecodeEncode(e: DirRecord)
    requires WellFormed(e)
    ensures DecodeRecord(EncodeRecord(e)) == e
  {
    var b := EncodeRecord(e);
    EightBytes();
    assert b[..8] == LittleEndian(e.inode, 8);
    LittleEndianRoundTrip(e.inode, 8);
    assert b[12..] == e.name;
  }

  /** All-zero bytes hold an empty record. */
  lemma DecodeZeros()
    ensures IsEmpty(DecodeRecord(FileData.Zeros(DIR_ENTRY_SIZE)))
  {
    assert FileData.Zeros(DIR_ENTRY_SIZE)[..8] == FileData.Zeros(8);
    FromZeros(8);
  }

  /** The bytes `save_dir_entries` serialises: the records one after
      another. */
  function Serialize(es: seq<DirRecord>): (r: seq<byte>)
    requires AllWellFormed(es)
    ensures |r| == DIR_ENTRY_SIZE * |es|
  {
    if es == [] then [] else EncodeRecord(es[0]) + Serialize(es[1..])
  }

  /** `load_dir_entries`' parse: one record per whole 72 bytes; a
      shorter tail is ignored. */
  function Parse(data: seq<byte>): (es: seq<DirRecord>)
    decreases |data|
  {
    if |data| < DIR_ENTRY_SIZE then []
    else [DecodeRecord(data[..DIR_ENTRY_SIZE])] + Parse(data[DIR_ENTRY_SIZE..])
  }

  /** The records that are not empty, in their stored order. */
  function Occupied(stored: seq<DirRecord>): (r: seq<DirRecord>)
    ensures |r| <= |stored| && NoneEmpty(r)
  {
    if stored == [] then []
    else if IsEmpty(stored[0]) then Occupied(stored[1..])
    else [stored[0]] + Occupied(stored[1..])
  }

  // ---------------------------------------------------------------------
  // Parsing what was serialised

  /** Parsing serialised records followed by anything gives the records,
      then whatever the rest parses to. */
  lemma {:induction false} ParseSerialize(es: seq<DirRecord>, rest: seq<byte>)
    requires AllWellFormed(es)
    ensures Parse(Serialize(es) + rest) == es + Parse(rest)
  {
    if es == [] {
      assert Serialize(es) + rest == rest;
    } else {
      var head := EncodeRecord(es[0]);
      var tail := Serialize(es[1..]) + rest;
      assert Serialize(es) + rest == head + tail;
      ParseCons(head, tail);
      DecodeEncode(es[0]);
      ParseSerialize(es[1..], rest);
      ConsAppend(es, Parse(rest));
    }
  }

  lemma ConsAppend<T>(xs: seq<T>, ys: seq<T>)
    requires xs != []
    ensures [xs[0]] + (xs[1..] + ys) == xs + ys
  {
    assert [xs[0]] + xs[1..] == xs;
  }

  /** Parsing splits off one whole record at the front. */
  lemma ParseCons(head: seq<byte>, tail: seq<byte>)
    requires |head| == DIR_ENTRY_SIZE
    ensures Parse(head + tail) == [DecodeRecord(head)] + Parse(tail)
  {
    var b := head + tail;
    assert b[..DIR_ENTRY_SIZE] == head;
    assert b[DIR_ENTRY_SIZE..] == tail;
  }

  /** Zero bytes parse to empty records only. */
  lemma {:induction false} ParseZeros(n: nat)
    ensures Occupied(Parse(FileData.Zeros(n))) == []
    decreases n
  {
    if n >= DIR_ENTRY_SIZE {
      var z := FileData.Zeros(n);
      assert z[..DIR_ENTRY_SIZE] == FileData.Zeros(DIR_ENTRY_SIZE);
      assert z[DIR_ENTRY_SIZE..] == FileData.Zeros(n - DIR_ENTRY_SIZE);
      DecodeZeros();
      ParseZeros(n - DIR_ENTRY_SIZE);
    }
  }

  /** Keeping the occupied records distributes over concatenation. */
  lemma {:induction false} OccupiedAppend(a: seq<DirRecord>, b: seq<DirRecord>)
    ensures Occupied(a + b) == Occupied(a) + Occupied(b)
  {
    if a == [] {
      assert a + b == b;
    } else {
      assert (a + b)[0] == a[0];
      assert (a + b)[1..] == a[1..] + b;
      OccupiedAppend(a[1..], b);
    }
  }

  /** Records none of which is empty are all kept, in order. */
  lemma {:induction false} OccupiedAll(es: seq<DirRecord>)
    requires NoneEmpty(es)
    ensures Occupied(es) == es
  {
    if es != [] {
      OccupiedAll(es[1..]);
    }
  }

  /** Serialised non-empty records, padded with zeros, load back as the
      same records. */
  lemma SerializeRoundTrip(es: seq<DirRecord>, pad: nat)
    requires AllWellFormed(es) && NoneEmpty(es)
    ensures Occupied(Parse(Serialize(es) + FileData.Zeros(pad))) == es
  {
    ParseSerialize(es, FileData.Zeros(pad));
    OccupiedAppend(es, Parse(FileData.Zeros(pad)));
    ParseZeros(pad);
    OccupiedAll(es);
  }
}
