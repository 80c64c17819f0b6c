/** The Internet checksum (sections 1 and 2(B) of RFC 1071) as the server and the client compute it:
    native 16-bit words, a left-over octet added as it is, and a fold of a 32-bit sum. */
module OnesComplement {
  import opened Bytes

  /** The ones'-complement residue of a sum: the value the fold arrives at. */
  function Residue(sum: nat): (r: uint16)
    ensures r == 0 <==> sum == 0
    ensures r % 0xFFFF == sum % 0xFFFF
    ensures sum < 0x1_0000 ==> r == sum
  {
    if sum == 0 then 0 else (sum - 1) % 0xFFFF + 1
  }

  /** The sum of the native words of b, and of its left-over octet if any. */
  function WordSum(host: Host, b: seq<byte>): (sum: nat)
    ensures 2 * sum <= 0xFFFF * (|b| + 1)
  {
    if b == [] then 0
    else if |b| == 1 then b[0]
    else FromNative16(host, b, 0) + WordSum(host, b[2..])
  }

  function Checksum(host: Host, b: seq<byte>): (r: uint16) {
    0xFFFF - Residue(WordSum(host, b))
  }

  // ---------- the loops ----------

  lemma {:induction false} WordSumAppend(host: Host, a: seq<byte>, b: seq<byte>)
    requires |a| % 2 == 0
    ensures WordSum(host, a + b) == WordSum(host, a) + WordSum(host, b)
  {
    if a == [] {
      assert a + b == b;
    } else {
      WordSumAppend(host, a[2..], b);
      assert (a + b)[2..] == a[2..] + b;
    }
  }

  lemma ResidueIs(sum: nat, q: int, r: int)
    requires sum > 0 && 1 <= r <= 0xFFFF && sum == 0xFFFF * q + r
    ensures Residue(sum) == r
  {
    assert sum - 1 == 0xFFFF * q + (r - 1);
  }

  lemma ResidueSplits(sum: nat) returns (q: int)
    requires sum > 0
    ensures sum == 0xFFFF * q + Residue(sum) && 1 <= Residue(sum)
  {
    q := (sum - 1) / 0xFFFF;
  }

  lemma FoldKeepsResidue(sum: nat)
    ensures Residue(sum % 0x1_0000 + sum / 0x1_0000) == Residue(sum)
  {
    var high, low := sum / 0x1_0000, sum % 0x1_0000;
    if sum > 0 {
      var q := ResidueSplits(high + low);
      ResidueIs(sum, q + high, Residue(high + low));
    }
  }

  /** The second loop of internet_checksum. */
  method Fold(sum: uint32) returns (folded: uint16)
    ensures folded == Residue(sum)
  {
    var s := sum;
    while s / 0x1_0000 != 0
      invariant Residue(s) == Residue(sum)
      decreases s
    {
      FoldKeepsResidue(s);
      s := s % 0x1_0000 + s / 0x1_0000;
    }
    folded := s;
  }

  /** internet_checksum over len octets from addr; its 32-bit sum never overflows. */
  method InternetChecksum(host: Host, addr: seq<byte>, len: uint16) returns (csum: uint16)
    requires len <= |addr|
    ensures csum == Checksum(host, addr[..len])
  {
    var sum: uint32 := 0;
    var ptr: nat := 0;
    var left: nat := len;
    while left > 1
      invariant ptr + left == len && ptr % 2 == 0
      invariant sum == WordSum(host, addr[..ptr])
    {
      WordSumExtend(host, addr, ptr);
      sum := sum + FromNative16(host, addr, ptr);
      ptr := ptr + 2;
      left := left - 2;
    }
    if left > 0 {
      WordSumLast(host, addr, ptr);
      sum := sum + addr[ptr];
    }
    var folded := Fold(sum);
    csum := 0xFFFF - folded;
  }

  lemma WordSumLast(host: Host, addr: seq<byte>, ptr: nat)
    requires ptr % 2 == 0 && ptr < |addr|
    ensures WordSum(host, addr[..ptr + 1]) == WordSum(host, addr[..ptr]) + addr[ptr]
  {
    assert addr[..ptr + 1] == addr[..ptr] + [addr[ptr]];
    WordSumAppend(host, addr[..ptr], [addr[ptr]]);
  }

  lemma WordSumExtend(host: Host, addr: seq<byte>, ptr: nat)
    requires ptr % 2 == 0 && ptr + 2 <= |addr|
    ensures WordSum(host, addr[..ptr + 2]) == WordSum(host, addr[..ptr]) + FromNative16(host, addr, ptr)
  {
    assert addr[..ptr + 2] == addr[..ptr] + addr[ptr..ptr + 2];
    WordSumAppend(host, addr[..ptr], addr[ptr..ptr + 2]);
    assert addr[ptr..ptr + 2][2..] == [];
  }

  // ---------- independence of the host's byte order ----------

  /** Swapping the two octets of a word multiplies its residue by 256. */
  function Swap(w: uint16): (r: uint16) {
    w % 0x100 * 0x100 + w / 0x100
  }

  /** Little-endian words sum to 256 times what big-endian words sum to, modulo 2^16 - 1. */
  lemma {:induction false} SumsSwapped(b: seq<byte>) returns (k: int)
    requires |b| % 2 == 0
    ensures 0x100 * WordSum(BigEndian, b) == WordSum(LittleEndian, b) + 0xFFFF * k
    ensures WordSum(BigEndian, b) == 0 <==> WordSum(LittleEndian, b) == 0
  {
    if b == [] {
      k := 0;
    } else {
      k := SumsSwapped(b[2..]);
      k := k + b[0];
    }
  }

  lemma ResidueOfSwapped(big: nat, little: nat, k: int)
    requires 0x100 * big == little + 0xFFFF * k && (big == 0 <==> little == 0)
    ensures Residue(little) == Swap(Residue(big))
  {
    if big > 0 {
      var q := ResidueSplits(big);
      var r := Residue(big);
      assert 0x100 * r == Swap(r) + 0xFFFF * (r / 0x100);
      ResidueIs(little, 0x100 * q + r / 0x100 - k, Swap(r));
    }
  }

  lemma SwappedOnTheWire(r: uint16)
    ensures Native16(LittleEndian, 0xFFFF - Swap(r)) == Native16(BigEndian, 0xFFFF - r)
  {
    assert 0xFFFF - Swap(r) == (0xFF - r % 0x100) * 0x100 + (0xFF - r / 0x100);
    assert 0xFFFF - r == (0xFF - r / 0x100) * 0x100 + (0xFF - r % 0x100);
  }

  /** Two sums, each complemented and stored by a host of its own byte order, are the same two octets. */
  predicate SameOnTheWire(little: nat, big: nat) {
    Native16(LittleEndian, 0xFFFF - Residue(little)) == Native16(BigEndian, 0xFFFF - Residue(big))
  }

  /** Section 2(B) of RFC 1071 holds of this code exactly for an even number of octets, or a zero last
      octet: a big-endian host adds a left-over octet at the wrong end of its word. */
  lemma HostIndependence(b: seq<byte>)
    ensures Native16(LittleEndian, Checksum(LittleEndian, b)) == Native16(BigEndian, Checksum(BigEndian, b))
      <==> |b| % 2 == 0 || b[|b| - 1] == 0
  {
    var n := |b| - |b| % 2;
    OnTheWire(b, n, if n == |b| then 0 else b[n]);
  }

  /** One octet of value 1: the two kinds of host send different checksums. */
  lemma OddLengthCounterexample()
    ensures Native16(LittleEndian, Checksum(LittleEndian, [1])) == [0xFE, 0xFF]
    ensures Native16(BigEndian, Checksum(BigEndian, [1])) == [0xFF, 0xFE]
  {
    assert WordSum(LittleEndian, [1]) == 1 && WordSum(BigEndian, [1]) == 1;
  }

  lemma OnTheWire(b: seq<byte>, n: nat, last: byte)
    requires n == |b| - |b| % 2 && last == if n == |b| then 0 else b[n]
    ensures SameOnTheWire(WordSum(LittleEndian, b), WordSum(BigEndian, b)) <==> last == 0
  {
    var even := b[..n];
    var k := SumsSwapped(even);
    SumWithLast(LittleEndian, b, n, last);
    SumWithLast(BigEndian, b, n, last);
    LastOctet(WordSum(BigEndian, even), WordSum(LittleEndian, even), k, last);
  }

  lemma SumWithLast(host: Host, b: seq<byte>, n: nat, last: byte)
    requires n == |b| - |b| % 2 && last == if n == |b| then 0 else b[n]
    ensures WordSum(host, b) == WordSum(host, b[..n]) + last
  {
    assert b == b[..n] + b[n..];
    WordSumAppend(host, b[..n], b[n..]);
  }

  lemma LastOctet(big: nat, little: nat, k: int, last: byte)
    requires 0x100 * big == little + 0xFFFF * k
    requires big == 0 <==> little == 0
    ensures SameOnTheWire(little + last, big + last) <==> last == 0
  {
    SwappedOnTheWire(Residue(big + last));
    if last == 0 {
      ResidueOfSwapped(big, little, k);
    } else {
      LastOctetMatters(big, little, k, last);
      LittleInjective(0xFFFF - Residue(little + last), 0xFFFF - Swap(Residue(big + last)));
    }
  }

  lemma LittleInjective(m: uint16, n: uint16)
    ensures Native16(LittleEndian, m) == Native16(LittleEndian, n) ==> m == n
  {
    assert m == FromLittle16(Little16(m), 0);
    assert n == FromLittle16(Little16(n), 0);
  }

  lemma LastOctetMatters(big: nat, little: nat, k: int, last: byte)
    requires 0x100 * big == little + 0xFFFF * k && last != 0
    ensures Residue(little + last) != Swap(Residue(big + last))
  {
    var r, t := Residue(big + last), Residue(little + last);
    var s := Swap(r);
    var q := ResidueSplits(big + last);
    var p := ResidueSplits(little + last);
    assert 0x100 * r == s + 0xFFFF * (r / 0x100);
    var j := r / 0x100 + 0x100 * q - p - k;
    assert s - t == 0xFF * (last - 0x101 * j);
  }

  // ---------- a checksummed header verifies to zero ----------

  lemma {:induction false} WordSumUpdate(host: Host, b: seq<byte>, i: nat, w: uint16)
    requires i % 2 == 0 && i + 1 < |b| && b[i] == 0 && b[i + 1] == 0
    ensures WordSum(host, b[..i] + Native16(host, w) + b[i + 2..]) == WordSum(host, b) + w
  {
    assert b == b[..i] + ([0, 0] + b[i + 2..]);
    WordSumAppend(host, b[..i], [0, 0] + b[i + 2..]);
    WordSumAppend(host, [0, 0], b[i + 2..]);
    var f := Native16(host, w);
    assert b[..i] + f + b[i + 2..] == b[..i] + (f + b[i + 2..]);
    WordSumAppend(host, b[..i], f + b[i + 2..]);
    WordSumAppend(host, f, b[i + 2..]);
    assert [0, 0][2..] == [] && f[2..] == [];
  }

  /** Storing the checksum in a zeroed field makes any host that sums the same words find zero. */
  lemma StoredVerifies(host: Host, b: seq<byte>, i: nat)
    requires i % 2 == 0 && i + 1 < |b| && b[i] == 0 && b[i + 1] == 0
    ensures Checksum(host, b[..i] + Native16(host, Checksum(host, b)) + b[i + 2..]) == 0
  {
    var sum := WordSum(host, b);
    WordSumUpdate(host, b, i, Checksum(host, b));
    if sum > 0 {
      var q := ResidueSplits(sum);
      ResidueIs(sum + Checksum(host, b), q, 0xFFFF);
    }
  }

  /** A header of even length checksummed on one host verifies to zero on the other too. */
  lemma StoredVerifiesAnywhere(writer: Host, reader: Host, b: seq<byte>, i: nat)
    requires |b| % 2 == 0 && i % 2 == 0 && i + 1 < |b| && b[i] == 0 && b[i + 1] == 0
    ensures Native16(writer, Checksum(writer, b)) == Native16(reader, Checksum(reader, b))
    ensures Checksum(reader, b[..i] + Native16(writer, Checksum(writer, b)) + b[i + 2..]) == 0
  {
    HostIndependence(b);
    StoredVerifies(reader, b, i);
  }
}
