/** The byte-level semantics that regular files share in CottonFS
    (`CottonInode::read`/`write`/`truncate`, kernel/src/fs/cottonfs.rs) and
    in the RAM fallback filesystem (`RamInode`, kernel/src/fs/mod.rs): a
    file is its contents, reads copy a window out of it and writes extend
    it with zeros as needed. */
module FileData {
  import opened Common

  type Bytes = seq<byte>

  function Zeros(n: nat): (z: Bytes)
    ensures |z| == n && forall i :: 0 <= i < n ==> z[i] == 0
  {
    seq(n, _ => 0)
  }

  /** `read(offset, buf)`: the count returned and the buffer afterwards.
      Nothing is copied from at or past the end; otherwise as many bytes
      as both the buffer and the rest of the file hold. */
  function Read(data: Bytes, offset: u64, buf: Bytes): (r: (nat, Bytes))
    ensures |r.1| == |buf|
    ensures offset >= |data| ==> r.0 == 0 && r.1 == buf
    ensures offset < |data| ==> r.0 == Min(|buf|, |data| - offset)
    ensures offset < |data| ==> r.1[..r.0] == data[offset..offset + r.0]
    ensures r.0 <= |buf| && r.1[r.0..] == buf[r.0..]
  {
    if offset >= |data| then (0, buf)
    else
      var n := Min(|buf|, |data| - offset);
      (n, data[offset..offset + n] + buf[n..])
  }

  /** `write(offset, buf)`: the contents afterwards. The file grows to
      cover the written range, with zeros in any gap; `buf` lands at
      `offset`; every other byte is kept. */
  function Write(data: Bytes, offset: u64, buf: Bytes): (r: Bytes)
    ensures |r| == Max(|data|, offset + |buf|)
    ensures r[offset..offset + |buf|] == buf
    ensures forall i :: 0 <= i < |r| && (i < offset || i >= offset + |buf|) ==>
              r[i] == (if i < |data| then data[i] else 0)
  {
    var ext := if offset + |buf| > |data| then data + Zeros(offset + |buf| - |data|) else data;
    ext[..offset] + buf + ext[offset + |buf|..]
  }

  /** `truncate(size)` (`Vec::resize(size, 0)`): the prefix is kept and the
      file is zero-extended. */
  function Truncate(data: Bytes, size: u64): (r: Bytes)
    ensures |r| == size
    ensures forall i :: 0 <= i < size ==> r[i] == (if i < |data| then data[i] else 0)
  {
    if size <= |data| then data[..size] else data + Zeros(size - |data|)
  }

  /** Reading back the range just written, into a buffer of its size,
      returns exactly the bytes written. */
  lemma ReadAfterWrite(data: Bytes, offset: u64, buf: Bytes, scratch: Bytes)
    requires |scratch| == |buf| && |buf| > 0
    ensures Read(Write(data, offset, buf), offset, scratch) == (|buf|, buf)
  {
    var w := Write(data, offset, buf);
    assert |w| >= offset + |buf|;
    var r := Read(w, offset, scratch);
    assert r.0 == |buf|;
    assert r.1[r.0..] == scratch[|buf|..] == [];
    assert r.1[..r.0] == w[offset..offset + |buf|] == buf;
    assert r.1 == r.1[..r.0] + r.1[r.0..];
    assert r.1 == buf;
    assert r == (r.0, r.1);
  }

  /** Two reads of adjacent windows inside the file return what one read
      of both windows returns, split at the seam. */
  lemma ReadAdjacent(data: Bytes, offset: u64, a: Bytes, b: Bytes)
    requires offset + |a| + |b| <= |data| && offset + |a| < U64_MODULUS
    ensures var r1 := Read(data, offset, a);
      var r2 := Read(data, (offset + |a|) as u64, b);
      var r := Read(data, offset, a + b);
      r1.0 + r2.0 == r.0 && r1.1 + r2.1 == r.1
  {
    var r1 := Read(data, offset, a);
    var r2 := Read(data, (offset + |a|) as u64, b);
    var r := Read(data, offset, a + b);
    if |a| > 0 && |b| > 0 {
      assert r1.1 == data[offset..offset + |a|];
      assert r2.1 == data[offset + |a|..offset + |a| + |b|];
      assert r.1 == data[offset..offset + |a| + |b|];
    } else if |a| == 0 {
      assert r1.1 == [];
    } else {
      assert r2.1 == [];
      assert a + b == a;
    }
  }

  /** A write leaves every byte outside its range readable as before. */
  lemma ReadOutsideWrite(data: Bytes, offset: u64, buf: Bytes, at: u64, scratch: Bytes)
    requires at + |scratch| <= offset || at >= offset + |buf|
    requires at + |scratch| <= |data|
    ensures Read(Write(data, offset, buf), at, scratch) == Read(data, at, scratch)
  {
    var w := Write(data, offset, buf);
    if |scratch| > 0 {
      assert w[at..at + |scratch|] == data[at..at + |scratch|];
    }
  }

  /** Truncating twice to the same size is truncating once; truncating to
      the current size changes nothing. */
  lemma TruncateIdempotent(data: Bytes, size: u64)
    ensures Truncate(Truncate(data, size), size) == Truncate(data, size)
    ensures size == |data| ==> Truncate(data, size) == data
  {
  }

  /** The whole-file view `read_file` takes: a buffer as long as the file,
      read from offset 0, cut to the count. */
  function ReadAll(data: Bytes): (r: Bytes)
    ensures r == data
  {
    var (n, b) := Read(data, 0, Zeros(|data|));
    if |data| == 0 then [] else b[..n]
  }

  /** `write_file` on an existing file: truncate to 0, then write at 0. Its
      result read back whole is exactly the new contents, whatever the old
      ones were. */
  lemma ReplaceContents(old_: Bytes, data: Bytes)
    ensures ReadAll(Write(Truncate(old_, 0), 0, data)) == data
  {
    var w := Write(Truncate(old_, 0), 0, data);
    assert |w| == |data|;
    assert w == w[0..0 + |data|];
  }

  /** Number of 4096-byte blocks covering `size` bytes, as
      `(len + BLOCK_SIZE - 1) / BLOCK_SIZE` and `(size + 4095) / 4096`
      compute it. */
  function BlocksFor(size: nat): (n: nat)
    ensures n * 4096 >= size
    ensures n == 0 || (n - 1) * 4096 < size
  {
    (size + 4095) / 4096
  }
}
