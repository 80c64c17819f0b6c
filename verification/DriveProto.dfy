/** The header and checksum of the drive protocol (drvproto.h), as both ends write and check them. */
module DriveProto {
  import opened Bytes
  import opened Seqs
  import opened Bits

  const HEADER := 8
  const VERSION: byte := 1
  const MAGIC: uint16 := 0x9524
  const FLAG_CHECKSUM := 0x8000 // bit 15
  const FLAG_READ_ONLY := 0x4000 // bit 14
  const FLAG_EXTENDED := 0x2000 // bit 13
  const MAX_PACKET := 1500

  // ---------- the BSD checksum ----------

  /** Rotates right by one bit. */
  function Rotate(sum: uint16): (r: uint16)
    ensures sum == r % 0x8000 * 2 + r / 0x8000
  {
    if sum % 2 == 1 then 0x8000 + sum / 2 else sum / 2
  }

  function Add(sum: uint16, b: byte): (r: uint16) {
    var s := Rotate(sum) + b;
    if s < 0x1_0000 then s else s - 0x1_0000
  }

  function Bsd(sum: uint16, data: seq<byte>): (r: uint16)
    decreases |data|
  {
    if data == [] then sum else Bsd(Add(sum, data[0]), data[1..])
  }

  lemma BsdNext(sum: uint16, data: seq<byte>, i: nat, n: nat)
    requires i < n <= |data|
    ensures Bsd(sum, data[i..n]) == Bsd(Add(sum, data[i]), data[i + 1..n])
  {
    assert data[i..n][1..] == data[i + 1..n];
  }

  /** A shift left by 15, truncated to 16 bits, or-ed with a shift right; then a wrapping addition. */
  lemma ShiftsAdd(sum: uint16, b: byte)
    ensures (sum * 0x8000 % 0x1_0000 + sum / 2 + b) % 0x1_0000 == Add(sum, b)
  {
    assert sum * 0x8000 == sum / 2 * 0x1_0000 + sum % 2 * 0x8000;
    assert sum * 0x8000 % 0x1_0000 + sum / 2 == Rotate(sum);
  }

  /** ROR AX, 1 moves bit 0 into bit 15; ADD AX, DX wraps. */
  lemma RorAdds(ax: uint16, b: byte)
    ensures (ax / 2 + (if ax % 2 == 1 then 0x8000 else 0) + b) % 0x1_0000 == Add(ax, b)
  {
  }

  /** The server's loop. */
  method BsdChecksum(addr: seq<byte>, len: uint16) returns (res: uint16)
    requires len <= |addr|
    ensures res == Bsd(0, addr[..len])
  {
    res := 0;
    var ptr: nat := 0;
    var left: nat := len;
    assert addr[..len] == addr[ptr..len];
    while left > 0
      invariant ptr + left == len
      invariant Bsd(0, addr[..len]) == Bsd(res, addr[ptr..len])
    {
      BsdNext(res, addr, ptr, len);
      ShiftsAdd(res, addr[ptr]);
      res := (res * 0x8000 % 0x1_0000 + res / 2 + addr[ptr]) % 0x1_0000;
      ptr := ptr + 1;
      left := left - 1;
    }
  }

  /** The client's loop, in assembly: LOOP counts CX down. */
  method BsdChecksumAsm(bx: seq<byte>, cx: uint16) returns (ax: uint16)
    requires cx <= |bx|
    ensures ax == Bsd(0, bx[..cx])
  {
    ax := 0;
    if cx == 0 { return; }
    var i: nat, count: nat := 0, cx;
    assert bx[..cx] == bx[i..cx];
    while true
      invariant i + count == cx && count > 0
      invariant Bsd(0, bx[..cx]) == Bsd(ax, bx[i..cx])
      decreases count
    {
      BsdNext(ax, bx, i, cx);
      RorAdds(ax, bx[i]);
      ax := (ax / 2 + (if ax % 2 == 1 then 0x8000 else 0) + bx[i]) % 0x1_0000;
      i := i + 1;
      count := count - 1;
      if count == 0 { break; }
    }
  }

  lemma AddInjective(s: uint16, t: uint16, b: byte)
    requires Add(s, b) == Add(t, b)
    ensures s == t
  {
    assert Rotate(s) == Rotate(t);
  }

  lemma {:induction false} BsdInjective(s: uint16, t: uint16, data: seq<byte>)
    requires s != t
    ensures Bsd(s, data) != Bsd(t, data)
    decreases |data|
  {
    if data != [] {
      if Add(s, data[0]) == Add(t, data[0]) { AddInjective(s, t, data[0]); }
      BsdInjective(Add(s, data[0]), Add(t, data[0]), data[1..]);
    }
  }

  /** Two messages of equal length that differ in exactly one octet have different checksums. */
  lemma {:induction false} OneOctetDetected(sum: uint16, a: seq<byte>, b: seq<byte>, i: nat)
    requires |a| == |b| && i < |a| && a[i] != b[i]
    requires forall j | 0 <= j < |a| && j != i :: a[j] == b[j]
    ensures Bsd(sum, a) != Bsd(sum, b)
    decreases |a|
  {
    if i == 0 {
      assert a[1..] == b[1..];
      BsdInjective(Add(sum, a[0]), Add(sum, b[0]), a[1..]);
    } else {
      OneOctetDetected(Add(sum, a[0]), a[1..], b[1..], i - 1);
    }
  }

  // ---------- the header ----------

  function LengthFlags(p: seq<byte>): (r: uint16)
    requires |p| >= HEADER
  {
    FromLittle16(p, 1)
  }

  function Length(p: seq<byte>): (len: nat)
    requires |p| >= HEADER
    ensures len < 0x800
  {
    LowBound(LengthFlags(p), 11);
    Pow2Values();
    Low(LengthFlags(p), 11)
  }

  predicate HasChecksum(p: seq<byte>)
    requires |p| >= HEADER
  {
    HasBit(LengthFlags(p), 15)
  }

  predicate Extended(p: seq<byte>)
    requires |p| >= HEADER
  {
    HasBit(LengthFlags(p), 13)
  }

  function Sequence(p: seq<byte>): (r: byte)
    requires |p| >= HEADER
  {
    p[5]
  }

  /** A packet with its length, flags and checksum fields written. */
  function Stamped(p: seq<byte>, flags: uint16, checksum: uint16): (r: seq<byte>)
    requires |p| >= HEADER
    ensures |r| == |p|
  {
    [p[0]] + Little16(flags) + Little16(checksum) + p[5..]
  }

  lemma StampedFields(p: seq<byte>, flags: uint16, checksum: uint16)
    requires |p| >= HEADER
    ensures var r := Stamped(p, flags, checksum);
      && r[0] == p[0] && LengthFlags(r) == flags && FromLittle16(r, 3) == checksum && r[5..] == p[5..]
      && Sequence(r) == Sequence(p)
  {
    var r := Stamped(p, flags, checksum);
    assert r[1] == flags % 0x100 && r[2] == flags / 0x100 && r[3] == checksum % 0x100 && r[4] == checksum / 0x100;
  }

  /** The checksum field: of everything behind it, or the magic number when checksums are off. */
  function Seal(p: seq<byte>, checksums: bool): (r: uint16)
    requires |p| >= HEADER
  {
    if checksums then Bsd(0, p[5..]) else MAGIC
  }

  /** What both ends check of a packet of length Length(p), `verify` saying whether a checksum is looked at. */
  predicate Sealed(p: seq<byte>, verify: bool)
    requires |p| >= HEADER && HEADER <= Length(p) <= |p|
  {
    if HasChecksum(p) then verify ==> Bsd(0, p[5..Length(p)]) == FromLittle16(p, 3)
    else FromLittle16(p, 3) == MAGIC
  }

  // ---------- length and flags ----------

  /** The field as either end composes it. */
  function Flags(len: nat, extended: bool, readOnly: bool, checksums: bool): (r: nat) {
    Or(Or(Or(len, if extended then FLAG_EXTENDED else 0), if readOnly then FLAG_READ_ONLY else 0),
      if checksums then FLAG_CHECKSUM else 0)
  }

  lemma Or16(a: nat, b: nat)
    requires a < 0x1_0000 && b < 0x1_0000
    ensures Or(a, b) < 0x1_0000
  {
    Pow2Values();
    ShrIsZero(a, 16);
    ShrIsZero(b, 16);
    OrShr(a, b, 16);
    ShrIsZero(Or(a, b), 16);
  }

  lemma FlagsFit(len: nat, extended: bool, readOnly: bool, checksums: bool)
    requires len < 0x1_0000
    ensures Flags(len, extended, readOnly, checksums) < 0x1_0000
  {
    var e := if extended then FLAG_EXTENDED else 0;
    var r := if readOnly then FLAG_READ_ONLY else 0;
    Or16(len, e);
    Or16(Or(len, e), r);
    Or16(Or(Or(len, e), r), if checksums then FLAG_CHECKSUM else 0);
  }

  lemma ShortLength(len: nat)
    requires len < 0x800
    ensures Low(len, 11) == len && Low(len, 15) == len
    ensures !HasBit(len, 13) && !HasBit(len, 14) && !HasBit(len, 15)
  {
    Pow2Values();
    ShrIsZero(len, 11);
    LowSelf(len, 11);
    ShrZero(len, 11, 13); ShrZero(len, 11, 14); ShrZero(len, 11, 15);
    LowSelf(len, 15);
  }

  lemma FlagBits(k: nat, e: nat, r: nat, c: nat)
    requires 13 <= k <= 15 && e in {0, FLAG_EXTENDED} && r in {0, FLAG_READ_ONLY} && c in {0, FLAG_CHECKSUM}
    ensures HasBit(e, k) <==> k == 13 && e != 0
    ensures HasBit(r, k) <==> k == 14 && r != 0
    ensures HasBit(c, k) <==> k == 15 && c != 0
  {
    Pow2Values();
    ZeroBits(k);
    Pow2Bit(13, k); Pow2Bit(14, k); Pow2Bit(15, k);
  }

  lemma OrThenBit(a: nat, b: nat, c: nat, d: nat, k: nat)
    ensures HasBit(Or(Or(Or(a, b), c), d), k) <==> HasBit(a, k) || HasBit(b, k) || HasBit(c, k) || HasBit(d, k)
  {
    OrBit(a, b, k);
    OrBit(Or(a, b), c, k);
    OrBit(Or(Or(a, b), c), d, k);
  }

  lemma FlagsLow(len: nat, e: nat, r: nat, c: nat)
    requires e in {0, FLAG_EXTENDED} && r in {0, FLAG_READ_ONLY} && c in {0, FLAG_CHECKSUM}
    ensures Low(Or(Or(Or(len, e), r), c), 11) == Low(len, 11)
  {
    Pow2Values();
    ZeroBits(11);
    Pow2Bit(13, 11); Pow2Bit(14, 11); Pow2Bit(15, 11);
    OrLow(len, e, 11);
    OrLow(Or(len, e), r, 11);
    OrLow(Or(Or(len, e), r), c, 11);
  }

  /** The length and the three flags can be read back. */
  lemma FlagsRead(len: nat, extended: bool, readOnly: bool, checksums: bool)
    requires len < 0x800
    ensures var f := Flags(len, extended, readOnly, checksums);
      && Low(f, 11) == len
      && (HasBit(f, 13) <==> extended) && (HasBit(f, 14) <==> readOnly) && (HasBit(f, 15) <==> checksums)
  {
    var e := if extended then FLAG_EXTENDED else 0;
    var r := if readOnly then FLAG_READ_ONLY else 0;
    var c := if checksums then FLAG_CHECKSUM else 0;
    ShortLength(len);
    FlagsLow(len, e, r, c);
    FlagBits(13, e, r, c); FlagBits(14, e, r, c); FlagBits(15, e, r, c);
    OrThenBit(len, e, r, c, 13); OrThenBit(len, e, r, c, 14); OrThenBit(len, e, r, c, 15);
  }

  /** A packet sealed by either end passes the other's check of the seal. */
  lemma StampedIsSealed(p: seq<byte>, extended: bool, readOnly: bool, checksums: bool)
    requires HEADER <= |p| < 0x800
    ensures var f := Flags(|p|, extended, readOnly, checksums);
      f < 0x1_0000 && var r := Stamped(p, f, Seal(p, checksums));
      && Length(r) == |p| && r[0] == p[0] && Sequence(r) == Sequence(p) && r[5..] == p[5..]
      && (Extended(r) <==> extended) && (HasChecksum(r) <==> checksums) && Sealed(r, true)
  {
    FlagsFit(|p|, extended, readOnly, checksums);
    FlagsRead(|p|, extended, readOnly, checksums);
    var r := Stamped(p, Flags(|p|, extended, readOnly, checksums), Seal(p, checksums));
    StampedFields(p, Flags(|p|, extended, readOnly, checksums), Seal(p, checksums));
    assert r[5..|p|] == p[5..];
  }

  // ---------- requests ----------

  /** The request send_request puts into its frame. */
  function RequestPacket(sequence: byte, drive: byte, func: byte, extended: bool, checksums: bool,
          data: seq<byte>): (r: seq<byte>)
    requires HEADER + |data| < 0x800
    ensures |r| == HEADER + |data|
  {
    var bare: seq<byte> := [VERSION, 0, 0, 0, 0, sequence, drive, func] + data;
    FlagsFit(|bare|, extended, false, checksums);
    Stamped(bare, Flags(|bare|, extended, false, checksums), Seal(bare, checksums))
  }

  /** The checks of the server's main loop; the request is then the first Length(p) octets. */
  predicate ServerAccepts(p: seq<byte>) {
    && |p| >= HEADER
    && p[0] == VERSION
    && HEADER <= Length(p) <= |p|
    && Sealed(p, true)
  }

  /** The server accepts every request of the client, at its full length, and finds in it what the client put there. */
  lemma RequestAccepted(sequence: byte, drive: byte, func: byte, extended: bool, checksums: bool, data: seq<byte>)
    requires HEADER + |data| < 0x800
    ensures var r := RequestPacket(sequence, drive, func, extended, checksums, data);
      && ServerAccepts(r) && Length(r) == |r| && Sequence(r) == sequence && r[6] == drive && r[7] == func
      && r[HEADER..] == data && (Extended(r) <==> extended) && (HasChecksum(r) <==> checksums)
  {
    var bare: seq<byte> := [VERSION, 0, 0, 0, 0, sequence, drive, func] + data;
    StampedIsSealed(bare, extended, false, checksums);
    var r := RequestPacket(sequence, drive, func, extended, checksums, data);
    assert r[5..] == bare[5..];
    assert r[6] == r[5..][1] && r[7] == r[5..][2] && r[HEADER..] == r[5..][3..];
    assert bare[5..][3..] == data;
  }

  lemma RequestHeader(sequence: byte, drive: byte, func: byte, extended: bool, checksums: bool, data: seq<byte>)
    requires HEADER + |data| < 0x800
    ensures var r := RequestPacket(sequence, drive, func, extended, checksums, data);
      r[0] == VERSION && Sequence(r) == sequence
  {
    RequestAccepted(sequence, drive, func, extended, checksums, data);
  }

  // ---------- replies ----------

  /** What executing a request yields: the value for AX, the feature flag and the reply's data. */
  datatype Answer = Answer(ax: uint16, extended: bool, data: seq<byte>)

  /** The reply as process_request leaves it: a copy of the request's header, flags and AX overwritten. */
  function FreshReply(request: seq<byte>, answer: Answer): (r: seq<byte>)
    requires |request| >= HEADER
    ensures |r| == HEADER + |answer.data|
  {
    [request[0]] + Little16(if answer.extended then FLAG_EXTENDED else 0) + request[3..5] + [request[5]]
    + Little16(answer.ax) + answer.data
  }

  /** The flags once the main loop is done with them: two flags or-ed in, the third or-ed in or masked out. */
  function FinalFlags(flags: nat, len: nat, readOnly: bool, checksums: bool): (r: nat) {
    var f := Or(flags, len);
    var g := if readOnly then Or(f, FLAG_READ_ONLY) else f;
    if checksums then Or(g, FLAG_CHECKSUM) else Low(g, 15)
  }

  lemma FinalFlagsFit(flags: nat, len: nat, readOnly: bool, checksums: bool)
    requires flags < 0x1_0000 && len < 0x1_0000
    ensures FinalFlags(flags, len, readOnly, checksums) < 0x1_0000
  {
    Or16(flags, len);
    Or16(Or(flags, len), FLAG_READ_ONLY);
    var g := if readOnly then Or(Or(flags, len), FLAG_READ_ONLY) else Or(flags, len);
    Or16(g, FLAG_CHECKSUM);
    LowAtMost(g, 15);
  }

  lemma {:induction false} LowAtMost(n: nat, k: nat)
    ensures Low(n, k) <= n
    decreases k
  {
    if k > 0 { LowAtMost(n / 2, k - 1); }
  }

  /** The main loop's last touch on a reply, new or cached. */
  function Finalize(p: seq<byte>, readOnly: bool, checksums: bool): (r: seq<byte>)
    requires HEADER <= |p| <= MAX_PACKET
    ensures |r| == |p|
  {
    FinalFlagsFit(LengthFlags(p), |p|, readOnly, checksums);
    Stamped(p, FinalFlags(LengthFlags(p), |p|, readOnly, checksums), Seal(p, checksums))
  }

  /** The reply to a request, as it goes on the wire. */
  function ReplyPacket(request: seq<byte>, answer: Answer, readOnly: bool): (r: seq<byte>)
    requires |request| >= HEADER && HEADER + |answer.data| <= MAX_PACKET
  {
    Finalize(FreshReply(request, answer), readOnly, HasChecksum(request))
  }

  /** The in-place form: the reply's buffer is overwritten field by field. */
  method FinalizeInPlace(packet: array<byte>, len: nat, readOnly: bool, checksums: bool)
    requires HEADER <= len <= MAX_PACKET && len <= packet.Length
    modifies packet
    ensures packet[..len] == Finalize(old(packet[..len]), readOnly, checksums)
  {
    hide Or; hide Low; hide Bsd;
    ghost var p := packet[..len];
    FinalFlagsFit(LengthFlags(p), len, readOnly, checksums);
    var flags := Or(FromLittle16(packet[..len], 1), len);
    if readOnly {
      flags := Or(flags, FLAG_READ_ONLY);
    }
    var checksum := MAGIC;
    if checksums {
      checksum := BsdChecksum(packet[5..len], len - 5);
      assert packet[5..len][..len - 5] == p[5..];
      flags := Or(flags, FLAG_CHECKSUM);
    } else {
      flags := Low(flags, 15);
    }
    assert flags == FinalFlags(LengthFlags(p), len, readOnly, checksums) && checksum == Seal(p, checksums);
    hide *;
    packet[1], packet[2] := flags % 0x100, flags / 0x100;
    packet[3], packet[4] := checksum % 0x100, checksum / 0x100;
    StampWritten(p, packet[..len], flags, checksum);
    FinalizeStamps(p, readOnly, checksums);
  }

  lemma StampWritten(p: seq<byte>, r: seq<byte>, flags: uint16, checksum: uint16)
    requires |p| == |r| >= HEADER && r[0] == p[0] && forall i | 5 <= i < |p| :: r[i] == p[i]
    requires r[1] == flags % 0x100 && r[2] == flags / 0x100 && r[3] == checksum % 0x100 && r[4] == checksum / 0x100
    ensures r == Stamped(p, flags, checksum)
  {
    var s := Stamped(p, flags, checksum);
    forall i | 0 <= i < |r| ensures r[i] == s[i] {
      if i >= 5 { assert s[i] == p[5..][i - 5]; }
    }
  }

  lemma FinalizeStamps(p: seq<byte>, readOnly: bool, checksums: bool)
    requires HEADER <= |p| <= MAX_PACKET
    ensures var flags := FinalFlags(LengthFlags(p), |p|, readOnly, checksums);
      flags < 0x1_0000 && Finalize(p, readOnly, checksums) == Stamped(p, flags, Seal(p, checksums))
  {
    FinalFlagsFit(LengthFlags(p), |p|, readOnly, checksums);
  }

  /** Flags that were finalized once are not changed by being finalized again. */
  lemma FinalFlagsStable(flags: nat, len: nat, readOnly: bool, checksums: bool)
    requires len < 0x800
    ensures var f := FinalFlags(flags, len, readOnly, checksums);
      FinalFlags(f, len, readOnly, checksums) == f
  {
    var f := Or(flags, len);
    OrAbsorbs(flags, len);
    var g := if readOnly then Or(f, FLAG_READ_ONLY) else f;
    if readOnly {
      CoversOr(f, len, FLAG_READ_ONLY);
      OrAbsorbs(f, FLAG_READ_ONLY);
    }
    if checksums {
      CoversOr(g, len, FLAG_CHECKSUM);
      OrAbsorbs(g, FLAG_CHECKSUM);
      if readOnly { CoversOr(g, FLAG_READ_ONLY, FLAG_CHECKSUM); }
    } else {
      LowLow(g, 15);
      ShortLength(len);
      MaskedCovers(g, len);
      if readOnly {
        ReadOnlyLow();
        MaskedCovers(g, FLAG_READ_ONLY);
      }
    }
  }

  lemma MaskedCovers(g: nat, b: nat)
    requires Covers(g, b) && Low(b, 15) == b
    ensures Covers(Low(g, 15), b)
  {
    OrLow(g, b, 15);
  }

  lemma ReadOnlyLow()
    ensures Low(FLAG_READ_ONLY, 15) == FLAG_READ_ONLY
  {
    Pow2Values();
    ShrIsZero(FLAG_READ_ONLY, 15);
    LowSelf(FLAG_READ_ONLY, 15);
  }

  /** A cached reply is replayed octet for octet. */
  lemma ReplayIdentical(p: seq<byte>, readOnly: bool, checksums: bool)
    requires HEADER <= |p| <= MAX_PACKET
    ensures var r := Finalize(p, readOnly, checksums);
      Finalize(r, readOnly, checksums) == r
  {
    var flags := FinalFlags(LengthFlags(p), |p|, readOnly, checksums);
    FinalFlagsFit(LengthFlags(p), |p|, readOnly, checksums);
    FinalFlagsStable(LengthFlags(p), |p|, readOnly, checksums);
    StampedFields(p, flags, Seal(p, checksums));
    var r := Finalize(p, readOnly, checksums);
    assert r == Stamped(r, flags, Seal(p, checksums));
  }

  // ---------- the client's checks ----------

  /** What lies in front of the UDP payload: Ethernet, IP and UDP headers. */
  const FRAME_HEADERS := 42

  /** handle_ipv4's checks of the payload: a frame long enough for a header, and the version. */
  predicate IsReplyFrame(frameLen: nat, packet: seq<byte>) {
    frameLen >= FRAME_HEADERS + HEADER && packet != [] && packet[0] == VERSION
  }

  /** send_request's checks of a frame of frameLen octets, which the Ethernet may have padded; `data` is the receive
      buffer from the UDP payload on, and the frame's length bounds what the header may claim. */
  predicate ClientAccepts(frameLen: nat, data: seq<byte>, sequence: byte, verify: bool)
    requires |data| >= frameLen >= HEADER
  {
    && Length(data) <= frameLen
    && Length(data) >= HEADER
    && Sequence(data) == sequence
    && Sealed(data, verify)
  }

  /** A new reply's flags, finalized, hold its length and the right flags. */
  lemma FreshFlags(len: nat, extended: bool, readOnly: bool, checksums: bool)
    requires len < 0x800
    ensures FinalFlags(if extended then FLAG_EXTENDED else 0, len, readOnly, checksums)
         == Flags(len, extended, readOnly, checksums)
  {
    hide Or; hide Low; hide Shr;
    var e := if extended then FLAG_EXTENDED else 0;
    OrCommutes(e, len);
    OrNothing(Or(len, e));
    OrNothing(Or(Or(len, e), FLAG_READ_ONLY));
    if !checksums {
      ShortFlags(len, e);
      ShortFlags(Or(len, e), FLAG_READ_ONLY);
      LowSelf(Or(len, e), 15);
      LowSelf(Or(Or(len, e), FLAG_READ_ONLY), 15);
    }
  }

  /** Both below bit 15, so is what they are or-ed to. */
  lemma ShortFlags(a: nat, b: nat)
    requires (a < 0x8000 || Shr(a, 15) == 0) && b < 0x8000
    ensures Shr(Or(a, b), 15) == 0
  {
    hide Or; hide Shr;
    Pow2Values();
    ShrIsZero(a, 15);
    ShrIsZero(b, 15);
    OrShr(a, b, 15);
    NoBits();
  }

  lemma NoBits()
    ensures Or(0, 0) == 0
  {
  }

  /** Every reply the server sends passes all checks of the client that sent the request, whether the client
      verifies checksums or not, and delivers the answer: its AX, its feature flag and its data. */
  lemma ReplyAccepted(request: seq<byte>, answer: Answer, readOnly: bool, frameLen: nat, junk: seq<byte>, verify: bool)
    requires |request| >= HEADER && request[0] == VERSION && HEADER + |answer.data| <= MAX_PACKET
    requires FRAME_HEADERS + HEADER + |answer.data| <= frameLen <= HEADER + |answer.data| + |junk|
    ensures var r := ReplyPacket(request, answer, readOnly);
      && |r| == HEADER + |answer.data|
      && IsReplyFrame(frameLen, r) && ClientAccepts(frameLen, r + junk, Sequence(request), verify)
      && Length(r + junk) == |r| && (Extended(r + junk) <==> answer.extended)
      && FromLittle16(r, 6) == answer.ax && r[HEADER..] == answer.data
  {
    hide FreshReply; hide ReplyPacket; hide Stamped; hide Seal; hide Flags; hide Length; hide Sealed; hide HasChecksum;
    hide Extended; hide Sequence; hide FromLittle16;
    ReplyFields(request, answer, readOnly);
    InBuffer(ReplyPacket(request, answer, readOnly), junk);
    SealedAnyway(ReplyPacket(request, answer, readOnly), verify);
  }

  /** A checksum that is right may go unchecked. */
  lemma SealedAnyway(p: seq<byte>, verify: bool)
    requires |p| >= HEADER && HEADER <= Length(p) <= |p| && Sealed(p, true)
    ensures Sealed(p, verify)
  {
  }

  lemma ReplyFields(request: seq<byte>, answer: Answer, readOnly: bool)
    requires |request| >= HEADER && request[0] == VERSION && HEADER + |answer.data| <= MAX_PACKET
    ensures var r := ReplyPacket(request, answer, readOnly);
      && |r| == HEADER + |answer.data| && r[0] == VERSION && Length(r) == |r| && Sequence(r) == Sequence(request)
      && (Extended(r) <==> answer.extended) && Sealed(r, true)
      && FromLittle16(r, 6) == answer.ax && r[HEADER..] == answer.data
  {
    hide FreshReply; hide ReplyPacket; hide Stamped; hide Seal; hide Flags; hide Length; hide Sealed; hide HasChecksum;
    hide Extended; hide Sequence;
    var bare, r := FreshReply(request, answer), ReplyPacket(request, answer, readOnly);
    ReplyStamped(request, answer, readOnly);
    FreshReplyFields(request, answer);
    StampedIsSealed(bare, answer.extended, readOnly, HasChecksum(request));
    SameBehind(bare, r);
  }

  lemma SameBehind(a: seq<byte>, b: seq<byte>)
    requires |a| == |b| >= HEADER && a[5..] == b[5..]
    ensures FromLittle16(a, 6) == FromLittle16(b, 6) && a[HEADER..] == b[HEADER..]
  {
    assert a[6] == a[5..][1] && a[7] == a[5..][2] && b[6] == b[5..][1] && b[7] == b[5..][2];
    assert a[HEADER..] == a[5..][3..] && b[HEADER..] == b[5..][3..];
  }

  /** A reply is the fresh one, stamped with the flags of its length. */
  lemma ReplyStamped(request: seq<byte>, answer: Answer, readOnly: bool)
    requires |request| >= HEADER && HEADER + |answer.data| <= MAX_PACKET
    ensures var bare, flags := FreshReply(request, answer),
        Flags(HEADER + |answer.data|, answer.extended, readOnly, HasChecksum(request));
      flags < 0x1_0000
      && ReplyPacket(request, answer, readOnly) == Stamped(bare, flags, Seal(bare, HasChecksum(request)))
  {
    var bare := FreshReply(request, answer);
    FreshReplyFields(request, answer);
    FreshFlags(|bare|, answer.extended, readOnly, HasChecksum(request));
    FlagsFit(|bare|, answer.extended, readOnly, HasChecksum(request));
    FinalizeStamps(bare, readOnly, HasChecksum(request));
  }

  /** However the frame was padded and whatever lies behind it, the client accepts the packet for the call. */
  ghost predicate Acceptable(packet: seq<byte>, sequence: byte) {
    && |packet| >= HEADER && packet[0] == VERSION
    && forall frameLen: nat, junk: seq<byte>, verify: bool |
         FRAME_HEADERS + |packet| <= frameLen <= |packet| + |junk| ::
         ClientAccepts(frameLen, packet + junk, sequence, verify)
  }

  lemma ReplyAcceptable(request: seq<byte>, answer: Answer, readOnly: bool)
    requires |request| >= HEADER && request[0] == VERSION && HEADER + |answer.data| <= MAX_PACKET
    ensures Acceptable(ReplyPacket(request, answer, readOnly), Sequence(request))
  {
    hide ClientAccepts; hide ReplyPacket;
    var r := ReplyPacket(request, answer, readOnly);
    ReplyAccepted(request, answer, readOnly, |r| + FRAME_HEADERS + HEADER + |answer.data|,
                  seq(|r| + FRAME_HEADERS + HEADER + |answer.data|, _ => 0), false);
    forall frameLen: nat, junk: seq<byte>, verify: bool | FRAME_HEADERS + |r| <= frameLen <= |r| + |junk|
      ensures ClientAccepts(frameLen, r + junk, Sequence(request), verify)
    {
      ReplyAccepted(request, answer, readOnly, frameLen, junk, verify);
    }
  }

  lemma ReplyHeader(request: seq<byte>, answer: Answer, readOnly: bool)
    requires |request| >= HEADER && request[0] == VERSION && HEADER + |answer.data| <= MAX_PACKET
    ensures var r := ReplyPacket(request, answer, readOnly);
      |r| >= HEADER && Sequence(r) == Sequence(request)
  {
    FreshReplyFields(request, answer);
    FinalizeKeepsSequence(FreshReply(request, answer), readOnly, HasChecksum(request));
  }

  lemma FinalizeKeepsSequence(p: seq<byte>, readOnly: bool, checksums: bool)
    requires HEADER <= |p| <= MAX_PACKET
    ensures Sequence(Finalize(p, readOnly, checksums)) == Sequence(p)
  {
    FinalFlagsFit(LengthFlags(p), |p|, readOnly, checksums);
    StampedFields(p, FinalFlags(LengthFlags(p), |p|, readOnly, checksums), Seal(p, checksums));
  }

  lemma FreshReplyFields(request: seq<byte>, answer: Answer)
    requires |request| >= HEADER
    ensures var f := FreshReply(request, answer);
      && f[0] == request[0] && LengthFlags(f) == (if answer.extended then FLAG_EXTENDED else 0)
      && Sequence(f) == Sequence(request) && FromLittle16(f, 6) == answer.ax && f[HEADER..] == answer.data
  {
    var f := FreshReply(request, answer);
    var e: uint16 := if answer.extended then FLAG_EXTENDED else 0;
    assert f[1] == e % 0x100 && f[2] == e / 0x100;
    assert f[6] == answer.ax % 0x100 && f[7] == answer.ax / 0x100;
  }

  lemma InBuffer(r: seq<byte>, junk: seq<byte>)
    requires |r| >= HEADER && Length(r) == |r|
    ensures Length(r + junk) == |r| && HasChecksum(r + junk) == HasChecksum(r) && Extended(r + junk) == Extended(r)
    ensures Sequence(r + junk) == Sequence(r)
    ensures forall v :: Sealed(r + junk, v) == Sealed(r, v)
  {
    assert (r + junk)[5..|r|] == r[5..|r|];
  }
}
