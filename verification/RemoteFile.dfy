/** A file as a sequence of octets, and the server's operations on it (Drive::read_file, Drive::write_file). */
module RemoteFile {
  import opened Bytes
  import opened Seqs

  function Zeros(n: nat): (z: seq<byte>)
    ensures |z| == n
  {
    seq(n, _ => 0)
  }

  /** fseek and fread: what is left of the file from `offset`, at most `len` octets. */
  function ReadAt(f: seq<byte>, offset: nat, len: nat): (r: seq<byte>)
    ensures |r| == if offset >= |f| then 0 else Min(len, |f| - offset)
  {
    if offset >= |f| then [] else f[offset..Min(offset + len, |f|)]
  }

  /** fseek and fwrite: a gap behind the old end reads as zeros, and writing nothing changes nothing. */
  function WriteAt(f: seq<byte>, offset: nat, data: seq<byte>): (r: seq<byte>)
  {
    if data == [] then f
    else Resize(f, offset) + data + if offset + |data| < |f| then f[offset + |data|..] else []
  }

  /** Truncates or extends with zeros. */
  function Resize(f: seq<byte>, size: nat): (r: seq<byte>)
    ensures |r| == size
  {
    if size <= |f| then f[..size] else f + Zeros(size - |f|)
  }

  // ---------- what the operations mean, octet by octet ----------

  lemma WriteAtLength(f: seq<byte>, offset: nat, data: seq<byte>)
    ensures |WriteAt(f, offset, data)| == if data == [] || offset + |data| < |f| then |f| else offset + |data|
  {
  }

  lemma WriteAtOctet(f: seq<byte>, offset: nat, data: seq<byte>, i: nat)
    requires i < |WriteAt(f, offset, data)|
    ensures WriteAt(f, offset, data)[i] ==
      if data != [] && offset <= i < offset + |data| then data[i - offset] else if i < |f| then f[i] else 0
  {
  }

  /** Two adjacent writes are one. */
  lemma WritesCompose(f: seq<byte>, offset: nat, a: seq<byte>, b: seq<byte>)
    ensures WriteAt(WriteAt(f, offset, a), offset + |a|, b) == WriteAt(f, offset, a + b)
  {
    if a == [] {
      assert a + b == b;
    } else if b == [] {
      assert a + b == a;
    } else {
      var g, h := WriteAt(f, offset, a), WriteAt(f, offset, a + b);
      var r := WriteAt(g, offset + |a|, b);
      WriteAtLength(f, offset, a);
      WriteAtLength(g, offset + |a|, b);
      WriteAtLength(f, offset, a + b);
      forall i | 0 <= i < |r| ensures r[i] == h[i] {
        WriteAtOctet(g, offset + |a|, b, i);
        WriteAtOctet(f, offset, a + b, i);
        if i < |g| { WriteAtOctet(f, offset, a, i); }
      }
    }
  }

  /** Two adjacent reads are one, if the first got all it asked for. */
  lemma ReadsCompose(f: seq<byte>, offset: nat, m: nat, n: nat)
    requires |ReadAt(f, offset, m)| == m
    ensures ReadAt(f, offset, m) + ReadAt(f, offset + m, n) == ReadAt(f, offset, m + n)
  {
  }

  /** Part of what was read is what reading that part gives. */
  lemma ReadInside(f: seq<byte>, offset: nat, len: nat, skip: nat, n: nat)
    requires skip + n <= len
    ensures ReadAt(f, offset + skip, n) ==
      var r := ReadAt(f, offset, len); if skip >= |r| then [] else r[skip..Min(skip + n, |r|)]
  {
    var r := ReadAt(f, offset, len);
    if skip < |r| {
      SliceOfSlice(f, offset, offset + |r|, skip, Min(skip + n, |r|));
    }
  }

  /** A stretch of the file that a write does not touch is still there. */
  lemma WriteElsewhere(f: seq<byte>, offset: nat, data: seq<byte>, lo: nat, hi: nat)
    requires lo <= hi <= |f| && (data == [] || hi <= offset || offset + |data| <= lo)
    ensures hi <= |WriteAt(f, offset, data)| && WriteAt(f, offset, data)[lo..hi] == f[lo..hi]
  {
    var g := WriteAt(f, offset, data);
    WriteAtLength(f, offset, data);
    forall i | lo <= i < hi ensures g[i] == f[i] {
      WriteAtOctet(f, offset, data, i);
    }
  }

  lemma ResizeElsewhere(f: seq<byte>, size: nat, lo: nat, hi: nat)
    requires lo <= hi <= |f| && hi <= size
    ensures Resize(f, size)[lo..hi] == f[lo..hi]
  {
  }

  /** A read that got less than it asked for got all there is. */
  lemma ReadToEnd(f: seq<byte>, offset: nat, n: nat, m: nat)
    requires |ReadAt(f, offset, n)| < n <= m
    ensures ReadAt(f, offset, m) == ReadAt(f, offset, n)
  {
  }
}
