/** The read-ahead buffer as a value: what requests take from it and leave in it, and when that is the file's. */
module ReadAhead {
  import opened Bytes
  import opened Bits
  import opened Seqs
  import opened RemoteFile

  const FILE_BUFFER_SIZE := 64
  const MAX_TICKS := 90 // five seconds of the 18.2 Hz clock

  /** A file as the client names it: the local drive and the handle the server gave. */
  datatype FileId = FileId(drive: byte, cluster: uint16)

  type Files = map<FileId, seq<byte>>

  /** The octets `data` of a file from `offset` on, as they were at the tick `timestamp`. */
  datatype Buffer = Buffer(id: FileId, offset: nat, timestamp: uint32, data: seq<byte>)

  /** r->w.ax with the carry flag (0: success), r->w.cx, and what was put into the caller's buffer. */
  datatype ReadResult = ReadResult(error: uint16, cx: uint16, dta: seq<byte>)

  // ---------- alignment ----------

  /** x & ~(m - 1) for m a power of two. */
  function AlignDown(x: nat, m: nat): (a: nat)
    requires m > 0
    ensures a <= x < a + m && IsAligned(a, m)
  {
    AlignedDown(x, m);
    x - x % m
  }

  predicate IsAligned(x: nat, m: nat) {
    m > 0 && x % m == 0
  }

  lemma AlignedDown(x: nat, m: nat)
    requires m > 0
    ensures IsAligned(x - x % m, m)
  {
    DivMod(x - x % m, m, x / m, 0);
  }

  // ---------- the buffer ----------

  /** The buffer agrees with the servers' files. */
  predicate Right(b: Buffer, files: Files) {
    b.data != [] ==> b.id in files && b.data == ReadAt(files[b.id], b.offset, |b.data|)
  }

  predicate Holds(b: Buffer, id: FileId) {
    b.data != [] && b.id == id
  }

  /** Data older than five seconds is dropped at the start of a request. The clock is read modulo 2^32. */
  function Expired(b: Buffer, now: uint32): (r: Buffer) {
    if (now - b.timestamp) % 0x1_0000_0000 > MAX_TICKS then b.(data := []) else b
  }

  /** What a read of cx octets at pos takes from the buffer, on a drive with read length m. */
  function Taken(b: Buffer, id: FileId, pos: nat, cx: nat, m: nat): (t: seq<byte>)
    ensures |t| <= cx
  {
    if cx < m && Holds(b, id) && AlignDown(pos, m) == b.offset && pos < b.offset + |b.data| then
      b.data[pos - b.offset..Min(pos - b.offset + cx, |b.data|)]
    else []
  }

  /** The buffer after a read that ends at `end` has asked the server: the aligned block there, if the file reaches
      it. */
  function Refilled(b: Buffer, f: seq<byte>, id: FileId, end: nat, m: nat, now: uint32): (r: Buffer)
    requires m > 0
  {
    var block := ReadAt(f, AlignDown(end, m), m);
    if block != [] then Buffer(id, AlignDown(end, m), now, block) else b
  }

  /** A write overlaps the buffered octets, or truncates the file before their end. */
  predicate Touches(b: Buffer, id: FileId, pos: nat, len: nat) {
    Holds(b, id) && pos < b.offset + |b.data| && (len == 0 || pos + len > b.offset)
  }

  function Dropped(b: Buffer, drop: bool): (r: Buffer) {
    if drop then b.(data := []) else b
  }

  /** A write of len octets at pos stores octet i of the file, or, with none, cuts it off. */
  predicate Reached(pos: nat, len: nat, i: nat) {
    pos <= i && (len == 0 || i < pos + len)
  }

  /** A write touches the buffer exactly if it stores, or a truncation cuts off, one of the buffered octets. */
  lemma TouchesOctets(b: Buffer, id: FileId, pos: nat, len: nat)
    ensures Touches(b, id, pos, len) <==>
      b.id == id && exists i :: b.offset <= i < b.offset + |b.data| && Reached(pos, len, i)
  {
    if Touches(b, id, pos, len) {
      var i := if pos > b.offset then pos else b.offset;
      assert b.offset <= i < b.offset + |b.data| && Reached(pos, len, i);
    }
  }

  /** A small read takes every octet that it asks for and the buffer holds, if the buffer is of the file, aligned and no
      longer than its block. */
  lemma TakenOctets(b: Buffer, id: FileId, pos: nat, cx: nat, m: nat)
    requires 0 < cx < m && (b.data != [] ==> IsAligned(b.offset, m) && |b.data| <= m)
    ensures var t := Taken(b, id, pos, cx, m);
      if b.id == id && b.offset <= pos < b.offset + |b.data| then
        && |t| == Min(cx, b.offset + |b.data| - pos)
        && forall i | 0 <= i < |t| :: t[i] == b.data[pos + i - b.offset]
      else t == []
  {
    if b.data != [] && b.offset <= pos < b.offset + |b.data| {
      SameBlock(pos, b.offset, m);
    }
  }

  lemma SameBlock(pos: nat, block: nat, m: nat)
    requires IsAligned(block, m) && block <= pos < block + m
    ensures AlignDown(pos, m) == block
  {
    DivMod(pos, m, block / m, pos - block);
  }

  // ---------- a read ----------

  /** A READ of cx octets that is allowed: it fails and changes nothing, or it yields what it takes from the buffer and
      then what the file holds, and the buffer is refilled where it went to the server for less than m octets. */
  predicate ReadDone(b: Buffer, files: Files, id: FileId, pos: nat, cx: nat, m: nat, now: uint32, r: ReadResult,
          pos': nat, b': Buffer)
  {
    var t := Taken(b, id, pos, cx, m);
    if r.error != 0 then pos' == pos && b' == b && |t| < cx
    else
      && r.cx == |r.dta| && pos' == pos + |r.dta|
      && if |t| == cx then r.dta == t && b' == b
         else
           && id in files && r.dta == t + ReadAt(files[id], pos + |t|, cx - |t|)
           && b' == if cx < m then Refilled(b, files[id], id, pos + cx, m, now) else b
  }

  /** The octets taken from the buffer are those of the file. */
  predicate TakenRight(b: Buffer, files: Files, id: FileId, pos: nat, cx: nat, m: nat) {
    var t := Taken(b, id, pos, cx, m);
    t != [] ==> id in files && t == ReadAt(files[id], pos, |t|)
  }

  lemma RightTaken(b: Buffer, files: Files, id: FileId, pos: nat, cx: nat, m: nat)
    requires Right(b, files)
    ensures TakenRight(b, files, id, pos, cx, m)
  {
    var t := Taken(b, id, pos, cx, m);
    if t != [] {
      var skip := pos - b.offset;
      ReadInside(files[id], b.offset, |b.data|, skip, |t|);
    }
  }

  /** A READ that succeeds yields the file's octets exactly if those it takes from the buffer are. */
  lemma ReadPlainIff(b: Buffer, files: Files, id: FileId, pos: nat, cx: nat, m: nat, now: uint32, r: ReadResult,
          pos': nat, b': Buffer)
    requires ReadDone(b, files, id, pos, cx, m, now, r, pos', b') && r.error == 0 && cx > 0
    ensures (id in files && r.dta == ReadAt(files[id], pos, cx)) <==> TakenRight(b, files, id, pos, cx, m)
  {
    hide ReadAt; hide Taken;
    var t := Taken(b, id, pos, cx, m);
    if id in files {
      JoinedRead(files[id], pos, t, cx);
    }
  }

  lemma JoinedRead(f: seq<byte>, pos: nat, t: seq<byte>, cx: nat)
    requires |t| <= cx
    ensures t + ReadAt(f, pos + |t|, cx - |t|) == ReadAt(f, pos, cx) <==> t == ReadAt(f, pos, |t|)
  {
    var rest := ReadAt(f, pos + |t|, cx - |t|);
    if t == ReadAt(f, pos, |t|) {
      ReadsCompose(f, pos, |t|, cx - |t|);
      assert |t| + (cx - |t|) == cx;
    }
    if t + rest == ReadAt(f, pos, cx) {
      assert (t + rest)[..|t|] == t;
      ReadInside(f, pos, cx, 0, |t|);
      assert pos + 0 == pos;
    }
  }

  lemma RefilledRight(b: Buffer, files: Files, id: FileId, end: nat, m: nat, now: uint32)
    requires id in files && m > 0
    ensures var b' := Refilled(b, files[id], id, end, m, now); b' != b ==> Right(b', files)
  {
    var a := AlignDown(end, m);
    ReadInside(files[id], a, m, 0, |ReadAt(files[id], a, m)|);
  }

  /** Past a write that does not touch it, a right buffer is right. */
  lemma UntouchedRight(b: Buffer, files: Files, id: FileId, pos: nat, data: seq<byte>, n: nat, files': Files)
    requires Right(b, files) && n <= |data| && !Touches(b, id, pos, |data|)
    requires id in files && files' == files[id :=
      if data == [] then Resize(files[id], pos) else WriteAt(files[id], pos, data[..n])]
    ensures Right(b, files')
  {
    if Holds(b, id) {
      var f, lo, hi := files[id], b.offset, b.offset + |b.data|;
      if data == [] {
        ResizeElsewhere(f, pos, lo, hi);
      } else {
        WriteElsewhere(f, pos, data[..n], lo, hi);
      }
    }
  }

  /** A buffer that holds some of a file is not right once the file is empty. */
  lemma EmptiedWrong(b: Buffer, files: Files, id: FileId)
    requires Right(b, files)
    ensures Right(b, files[id := []]) <==> !Holds(b, id)
  {
  }

  // ---------- the buffer of a file that was emptied ----------

  /** The file does not reach the buffered octets, or has zeros there: it was empty, and only writes outside the
      buffered octets were made since. */
  predicate Blanked(b: Buffer, f: seq<byte>) {
    |f| <= b.offset
    || (b.offset + |b.data| <= |f| && forall i | b.offset <= i < b.offset + |b.data| :: f[i] == 0)
  }

  lemma BlankedByWrite(b: Buffer, id: FileId, f: seq<byte>, pos: nat, data: seq<byte>, n: nat)
    requires Blanked(b, f) && Holds(b, id) && n <= |data| && !Touches(b, id, pos, |data|)
    ensures Blanked(b, WriteAt(f, pos, data[..n])) && (data == [] ==> Blanked(b, Resize(f, pos)))
  {
    var g := WriteAt(f, pos, data[..n]);
    WriteAtLength(f, pos, data[..n]);
    forall i | b.offset <= i < b.offset + |b.data| && i < |g| ensures g[i] == if i < |f| then f[i] else 0 {
      WriteAtOctet(f, pos, data[..n], i);
    }
  }

  /** What is taken for such a file is right exactly if it is what the file shows there: zeros, if it reaches so far. */
  lemma BlankedTaken(b: Buffer, files: Files, id: FileId, pos: nat, cx: nat, m: nat)
    requires id in files && (Holds(b, id) ==> Blanked(b, files[id]))
    ensures var t := Taken(b, id, pos, cx, m);
      TakenRight(b, files, id, pos, cx, m) <==> t == [] || (|files[id]| > b.offset && t == Zeros(|t|))
  {
    var t, f := Taken(b, id, pos, cx, m), files[id];
    if t != [] && |f| > b.offset {
      assert ReadAt(f, pos, |t|) == Zeros(|t|);
    }
  }
}
