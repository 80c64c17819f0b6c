/** The packets of the drive protocol octet by octet: what each side sends, exactly what it accepts, and which changes
    on the way it notices. */
module DriveOctets {
  import opened Bytes
  import opened Bits
  import opened DriveProto

  // ---------- the header ----------

  function Word(lo: byte, hi: byte): (w: uint16) {
    lo as int + 0x100 * (hi as int)
  }

  /** The two octets behind the version: eleven bits of length and the flags. */
  lemma HeaderBits(p: seq<byte>)
    requires |p| >= 8
    ensures Length(p) == Word(p[1], p[2]) % 0x800
    ensures HasChecksum(p) <==> p[2] >= 0x80
    ensures Extended(p) <==> p[2] / 0x20 % 2 == 1
  {
    hide Low; hide Shr; hide Pow2;
    Pow2Values();
    LowIsMod(LengthFlags(p), 11);
    ShrIsDiv(LengthFlags(p), 15);
    ShrIsDiv(LengthFlags(p), 13);
    HighOctet(p[1], p[2]);
  }

  lemma HighOctet(lo: byte, hi: byte)
    ensures Word(lo, hi) / 0x8000 % 2 == 1 <==> hi >= 0x80
    ensures Word(lo, hi) / 0x2000 % 2 == 1 <==> hi / 0x20 % 2 == 1
  {
  }

  /** The server takes exactly the packets of version 1 whose length fits, and whose checksum of the octets behind the
      checksum field is right, or whose field holds 0x9524 if they bear none. */
  lemma ServerAcceptsOctets(p: seq<byte>)
    ensures ServerAccepts(p) <==>
      && |p| >= 8 && p[0] == 1
      && var len := Word(p[1], p[2]) % 0x800;
      && 8 <= len <= |p|
      && if p[2] >= 0x80 then Bsd(0, p[5..len]) == Word(p[3], p[4]) else p[3] == 0x24 && p[4] == 0x95
  {
    hide Bsd; hide Length; hide HasChecksum;
    if |p| >= 8 { HeaderBits(p); }
  }

  /** The client takes exactly the frames that hold as many octets as the header says, with the sequence number of the
      call and the right checksum, if it verifies checksums, or 0x9524 in its place. */
  lemma ClientAcceptsOctets(frameLen: nat, data: seq<byte>, sequence: byte, verify: bool)
    requires |data| >= frameLen >= 8
    ensures ClientAccepts(frameLen, data, sequence, verify) <==>
      var len := Word(data[1], data[2]) % 0x800;
      && 8 <= len <= frameLen && data[5] == sequence
      && if data[2] >= 0x80 then verify ==> Bsd(0, data[5..len]) == Word(data[3], data[4])
         else data[3] == 0x24 && data[4] == 0x95
  {
    hide Bsd; hide Length; hide HasChecksum;
    HeaderBits(data);
  }

  // ---------- what is noticed ----------

  /** q is p but for octet i. */
  predicate OneOctetOff(p: seq<byte>, q: seq<byte>, i: nat) {
    |q| == |p| && i < |p| && q[i] != p[i] && forall j | 0 <= j < |p| && j != i :: q[j] == p[j]
  }

  /** A changed octet shows in the checksum exactly if it is one of those summed up, or of the checksum itself. */
  lemma ChangeShows(p: seq<byte>, q: seq<byte>, i: nat, len: nat)
    requires OneOctetOff(p, q, i) && 3 <= i && 8 <= len <= |p|
    requires Bsd(0, p[5..len]) == Word(p[3], p[4])
    ensures Bsd(0, q[5..len]) == Word(q[3], q[4]) <==> i >= len
  {
    if i >= len || i < 5 {
      assert q[5..len] == p[5..len];
    } else {
      OneOctetDetected(0, p[5..len], q[5..len], i - 5);
    }
  }

  /** With a checksum, the server drops a packet of which one octet behind the length field was changed, exactly if that
      octet belongs to the request. */
  lemma ChangedRequestDropped(p: seq<byte>, q: seq<byte>, i: nat)
    requires ServerAccepts(p) && HasChecksum(p) && OneOctetOff(p, q, i) && 3 <= i
    ensures ServerAccepts(q) <==> i >= Length(p)
  {
    hide Bsd; hide ServerAccepts;
    ServerAcceptsOctets(p);
    ServerAcceptsOctets(q);
    HeaderBits(p);
    ChangeShows(p, q, i, Length(p));
  }

  /** A client that verifies checksums ignores such a frame, for whatever call. */
  lemma ChangedReplyIgnored(frameLen: nat, p: seq<byte>, q: seq<byte>, i: nat, sequence: byte, sequence': byte)
    requires |p| >= frameLen >= 8 && ClientAccepts(frameLen, p, sequence, true) && HasChecksum(p)
    requires OneOctetOff(p, q, i) && 3 <= i
    ensures i < Length(p) ==> !ClientAccepts(frameLen, q, sequence', true)
    ensures i >= Length(p) ==> (ClientAccepts(frameLen, q, sequence', true) <==> sequence' == sequence)
  {
    hide Bsd; hide ClientAccepts;
    ClientAcceptsOctets(frameLen, p, sequence, true);
    ClientAcceptsOctets(frameLen, q, sequence', true);
    HeaderBits(p);
    ChangeShows(p, q, i, Length(p));
  }

  /** The checksum does not cover the flags: the server takes a request for an extended one, or the other way round, if
      that bit was changed. */
  lemma FlagUnsealed(p: seq<byte>, q: seq<byte>)
    requires ServerAccepts(p) && OneOctetOff(p, q, 2)
    requires (if p[2] / 0x20 % 2 == 1 then p[2] as int - 0x20 else p[2] as int + 0x20) == q[2]
    ensures ServerAccepts(q) && (Extended(q) <==> !Extended(p))
  {
    hide Bsd; hide ServerAccepts; hide Length; hide Extended; hide HasChecksum;
    ServerAcceptsOctets(p);
    ServerAcceptsOctets(q);
    HeaderBits(p);
    HeaderBits(q);
    SameLength(p[1], p[2], q[2]);
    assert forall len | 8 <= len <= |p| :: q[5..len] == p[5..len];
  }

  lemma SameLength(lo: byte, a: byte, b: byte)
    requires (if a / 0x20 % 2 == 1 then a as int - 0x20 else a as int + 0x20) == b
    ensures Word(lo, a) % 0x800 == Word(lo, b) % 0x800 && (a >= 0x80 <==> b >= 0x80)
    ensures b / 0x20 % 2 != a / 0x20 % 2
  {
  }

  /** Two neighbouring octets that changed places show in the checksum, but for one case: they differ by 1, and the sum
      so far, rotated, plus the smaller one is 0xFFFF. */
  lemma SwapShows(sum: uint16, a: byte, b: byte)
    requires a < b
    ensures Bsd(sum, [a, b]) == Bsd(sum, [b, a]) <==>
      b == a + 1 && sum / 2 + 0x8000 * (sum % 2) + a as int == 0xFFFF
  {
    TwoOctets(sum, a, b);
    TwoOctets(sum, b, a);
    hide Bsd; hide Add; hide Rotate;
    AddWraps(sum, a); AddWraps(Add(sum, a), b);
    AddWraps(sum, b); AddWraps(Add(sum, b), a);
    RotateHalves(sum);
    RotatedSums(Rotate(sum), a, b);
  }

  lemma RotatedSums(x: uint16, a: byte, b: byte)
    requires a < b
    ensures var y, z := (x + a) % 0x1_0000, (x + b) % 0x1_0000;
      (Rotate(y) + b) % 0x1_0000 == (Rotate(z) + a) % 0x1_0000 <==> b == a + 1 && x + a == 0xFFFF
  {
    hide Rotate;
    var y, z, wrapped := (x + a) % 0x1_0000, (x + b) % 0x1_0000, if x + a < 0x1_0000 <= x + b then 1 else 0;
    Wrapping(x, a, b);
    HalvesOfSums(x, a, b, y, z, wrapped);
    RotateHalves(y);
    RotateHalves(z);
    SameResidue(Rotate(y) + b, Rotate(z) + a);
  }

  lemma AddWraps(sum: uint16, b: byte)
    ensures Add(sum, b) == (Rotate(sum) + b) % 0x1_0000
  {
    hide Rotate;
  }

  lemma RotateHalves(y: uint16)
    ensures Rotate(y) == y / 2 + 0x8000 * (y % 2)
  {
  }

  lemma SameResidue(m: nat, n: nat)
    requires -0x1_0000 < m - n < 0x2_0000
    ensures m % 0x1_0000 == n % 0x1_0000 <==> m - n == 0 || m - n == 0x1_0000
  {
    if m % 0x1_0000 == n % 0x1_0000 {
      var d := m / 0x1_0000 - n / 0x1_0000;
      assert m - n == 0x1_0000 * d;
    }
  }

  lemma Wrapping(x: uint16, a: byte, b: byte)
    requires a < b
    ensures (x + b) % 0x1_0000
      == (x + a) % 0x1_0000 + (b - a) - 0x1_0000 * (if x + a < 0x1_0000 <= x + b then 1 else 0)
  {
  }

  lemma HalvesOfSums(x: uint16, a: byte, b: byte, y: uint16, z: uint16, wrapped: int)
    requires a < b && 0 <= wrapped <= 1 && z == y + (b - a) - 0x1_0000 * wrapped && y == (x + a) % 0x1_0000
    ensures var gap := y / 2 + 0x8000 * (y % 2) + (b - a) - (z / 2 + 0x8000 * (z % 2));
      -0x1_0000 < gap < 0x2_0000 && (gap in {0, 0x1_0000} <==> b == a + 1 && x + a == 0xFFFF)
  {
    Halves(y / 2, y % 2, z / 2, z % 2, b - a, wrapped);
  }

  /** The case distinction: which of the two sums are odd, and whether the larger one wrapped around. */
  lemma Halves(p: int, s: int, q: int, t: int, d: int, wrapped: int)
    requires 0 <= p < 0x8000 && 0 <= q < 0x8000 && 0 <= s <= 1 && 0 <= t <= 1 && 0 <= wrapped <= 1 && 1 <= d <= 0xFF
    requires 2 * q + t == 2 * p + s + d - 0x1_0000 * wrapped
    ensures var gap := p + 0x8000 * s + d - (q + 0x8000 * t);
      -0x1_0000 < gap < 0x2_0000 && (gap in {0, 0x1_0000} <==> d == 1 && p == 0x7FFF && s == 1)
  {
    if s == t {
    } else if s == 1 {
    } else {
    }
  }

  lemma TwoOctets(sum: uint16, a: byte, b: byte)
    ensures Bsd(sum, [a, b]) == Add(Add(sum, a), b)
  {
    assert [a, b][1..] == [b] && [b][1..] == [];
    assert Bsd(Add(sum, a), [b]) == Add(Add(sum, a), b);
  }

  // ---------- what is sent ----------

  lemma FlagsAdd(len: nat, extended: bool, readOnly: bool, checksums: bool)
    requires len < 0x800
    ensures Flags(len, extended, readOnly, checksums)
      == len + (if extended then 0x2000 else 0) + (if readOnly then 0x4000 else 0) + (if checksums then 0x8000 else 0)
  {
    hide Or; hide Pow2;
    var e := if extended then 0x2000 else 0;
    var r := if readOnly then 0x4000 else 0;
    Pow2Values();
    OrFlag(len, 13, extended);
    OrFlag(len + e, 14, readOnly);
    OrFlag(len + e + r, 15, checksums);
    assert Or(len, e) == len + e && Or(len + e, r) == len + e + r;
  }

  lemma OrFlag(n: nat, k: nat, flag: bool)
    requires n < Pow2(k)
    ensures Or(n, if flag then Pow2(k) else 0) == n + if flag then Pow2(k) else 0
    ensures Pow2(13) == 0x2000 && Pow2(14) == 0x4000 && Pow2(15) == 0x8000
  {
    Pow2Values();
    hide Or; hide Pow2;
    if flag {
      OrAdds(1, k, n);
      OrCommutes(n, Pow2(k));
    } else {
      OrNothing(n);
    }
  }

  /** A request: version, length and flags, checksum or 0x9524, sequence, drive, function, data. */
  lemma RequestOctets(sequence: byte, drive: byte, func: byte, extended: bool, checksums: bool, data: seq<byte>)
    requires 8 + |data| < 0x800
    ensures var p := RequestPacket(sequence, drive, func, extended, checksums, data);
      && |p| == 8 + |data| && p[0] == 1 && p[1] == |p| % 0x100
      && p[2] as int == |p| / 0x100 + (if extended then 0x20 else 0) + (if checksums then 0x80 else 0)
      && Word(p[3], p[4]) == (if checksums then Bsd(0, p[5..]) else 0x9524)
      && p[5] == sequence && p[6] == drive && p[7] == func && p[8..] == data
  {
    hide Bsd; hide Stamped; hide Flags; hide HasChecksum; hide Length; hide Extended; hide Sealed;
    var bare: seq<byte> := [VERSION, 0, 0, 0, 0, sequence, drive, func] + data;
    var p, flags := RequestPacket(sequence, drive, func, extended, checksums, data),
        Flags(|bare|, extended, false, checksums);
    FlagsAdd(|bare|, extended, false, checksums);
    assert p == Stamped(bare, flags, Seal(bare, checksums));
    StampedOctets(bare, flags, Seal(bare, checksums));
    hide RequestPacket;
    BehindStamp(p, bare);
  }

  lemma BehindStamp(a: seq<byte>, b: seq<byte>)
    requires |a| == |b| >= 8 && a[5..] == b[5..]
    ensures a[5] == b[5] && a[6] == b[6] && a[7] == b[7] && a[8..] == b[8..]
  {
    assert a[5] == a[5..][0] && a[6] == a[5..][1] && a[7] == a[5..][2] && a[8..] == a[5..][3..];
    assert b[5] == b[5..][0] && b[6] == b[5..][1] && b[7] == b[5..][2] && b[8..] == b[5..][3..];
  }

  lemma StampedOctets(p: seq<byte>, flags: uint16, checksum: uint16)
    requires |p| >= 8
    ensures var r := Stamped(p, flags, checksum);
      && r[0] == p[0] && r[1] == flags % 0x100 && r[2] == flags / 0x100 && Word(r[3], r[4]) == checksum
      && r[5..] == p[5..]
  {
  }

  /** A reply: the request's version and sequence, the reply's own length and flags, a checksum if the request had one,
      AX and data. */
  lemma ReplyOctets(request: seq<byte>, answer: Answer, readOnly: bool)
    requires |request| >= 8 && request[0] == 1 && 8 + |answer.data| <= 1500
    ensures var p := ReplyPacket(request, answer, readOnly);
      && |p| == 8 + |answer.data| && p[0] == 1 && p[1] == |p| % 0x100
      && p[2] as int == |p| / 0x100 + (if answer.extended then 0x20 else 0) + (if readOnly then 0x40 else 0)
           + (if request[2] >= 0x80 then 0x80 else 0)
      && Word(p[3], p[4]) == (if request[2] >= 0x80 then Bsd(0, p[5..]) else 0x9524)
      && p[5] == request[5] && p[6] == answer.ax % 0x100 && p[7] == answer.ax / 0x100 && p[8..] == answer.data
  {
    hide Bsd; hide ReplyPacket; hide Flags; hide HasChecksum; hide Length; hide Extended; hide Sealed;
    var bare, checksums := FreshReply(request, answer), HasChecksum(request);
    HeaderBits(request);
    ReplyStamped(request, answer, readOnly);
    ReplyFields(request, answer, readOnly);
    FlagsAdd(|bare|, answer.extended, readOnly, checksums);
    StampedOctets(bare, Flags(|bare|, answer.extended, readOnly, checksums), Seal(bare, checksums));
    var p := ReplyPacket(request, answer, readOnly);
    BehindStamp(p, bare);
  }
}
