/** The disk sizes the server reports: sector counts that fit the reply's fields, by doubling the sector size. */
module DiskInfo {
  import opened Bytes
  import opened Bits

  const MAX_SMALL := 0x7FFF_FFFF
  const MAX_LARGE := 0xFFFF_FFFF * 0xFFFF

  function Capped(n: nat, most: nat): (r: nat) {
    if n > most then most else n
  }

  /** How often n has to be halved to be at most `limit`. */
  function Halvings(n: nat, limit: nat): (k: nat)
  {
    if n <= limit then 0 else 1 + Halvings(n / 2, limit)
  }

  lemma Pow2Positive(k: nat)
    ensures Pow2(k) > 0
  {
  }

  lemma DivTwice(n: nat, a: nat)
    requires a > 0
    ensures n / a / 2 == n / (2 * a)
  {
    var q, r := n / a, n % a;
    var h := q / 2;
    assert n == a * q + r;
    if q == 2 * h {
      assert a * q == 2 * a * h;
      DivMod(n, 2 * a, h, r);
    } else {
      assert q == 2 * h + 1;
      assert a * q == 2 * a * h + a;
      DivMod(n, 2 * a, h, a + r);
    }
  }

  /** k halvings divide by the k-th power of two. */
  lemma HalvedBy(n: nat, k: nat)
    requires k > 0
    ensures Pow2(k) > 0 && Pow2(k - 1) > 0 && n / Pow2(k) == n / Pow2(k - 1) / 2
  {
    Pow2Positive(k - 1);
    DivTwice(n, Pow2(k - 1));
  }

  lemma DivMonotone(m: nat, n: nat, d: nat)
    requires m <= n && d > 0
    ensures m / d <= n / d
  {
    QuotientsOrdered(d, m / d, m % d, n / d, n % d);
  }

  lemma QuotientsOrdered(d: nat, p: nat, r: nat, q: nat, s: nat)
    requires d * p + r <= d * q + s && s < d
    ensures p <= q
  {
    Bounded(d, p - q);
    assert d * (p - q) == d * p - d * q;
  }

  /** The loop both requests use: halve the counts until the total fits. The sector size is a 16-bit variable. */
  method Scale(size: nat, free: nat, limit: nat) returns (bytesPerSector: uint16, total: nat, available: nat)
    ensures var k := Halvings(size / 512, limit);
      && Pow2(k) > 0
      && total == size / 512 / Pow2(k) <= limit && available == free / 512 / Pow2(k)
      && (k > 0 ==> Pow2(k - 1) > 0 && size / 512 / Pow2(k - 1) > limit)
      && bytesPerSector == if k <= 6 then 512 * Pow2(k) else 0
  {
    bytesPerSector, total, available := 512, size / 512, free / 512;
    ghost var k := 0;
    while total > limit
      invariant Pow2(k) > 0 && total == size / 512 / Pow2(k) && available == free / 512 / Pow2(k)
      invariant k + Halvings(total, limit) == Halvings(size / 512, limit)
      invariant k > 0 ==> Pow2(k - 1) > 0 && size / 512 / Pow2(k - 1) > limit
      invariant bytesPerSector == if k <= 6 then 512 * Pow2(k) else 0
      decreases total
    {
      SectorSize(k);
      HalvedBy(size / 512, k + 1);
      HalvedBy(free / 512, k + 1);
      bytesPerSector := bytesPerSector * 2 % 0x1_0000;
      total, available := total / 2, available / 2;
      k := k + 1;
    }
  }

  lemma SectorSize(k: nat)
    ensures k <= 6 ==> 512 * Pow2(k) <= 0x8000
    ensures k == 6 ==> 512 * Pow2(k) == 0x8000
    ensures k < 6 ==> 512 * Pow2(k) <= 0x4000
  {
    assert Pow2(0) == 1 && Pow2(1) == 2 && Pow2(2) == 4 && Pow2(3) == 8;
    assert Pow2(4) == 16 && Pow2(5) == 32 && Pow2(6) == 64;
  }

  // ---------- the two requests ----------

  /** The sector size is the smallest of 512, 1024, ... for which the count fits `limit`. */
  predicate Smallest(size: nat, bytesPerSector: nat, limit: nat) {
    && bytesPerSector > 0
    && size / bytesPerSector <= limit
    && (bytesPerSector == 512 || (bytesPerSector >= 1024 && size / (bytesPerSector / 2) > limit))
  }

  lemma {:induction false} DivDiv(n: nat, k: nat)
    ensures Pow2(k) > 0 && n / 512 / Pow2(k) == n / (512 * Pow2(k))
  {
    if k > 0 {
      DivDiv(n, k - 1);
      HalvedBy(n / 512, k);
      DivTwice(n, 512 * Pow2(k - 1));
    }
  }

  lemma ScaledIsSmallest(size: nat, limit: nat, k: nat)
    requires Pow2(k) > 0 && size / 512 / Pow2(k) <= limit
    requires k > 0 ==> Pow2(k - 1) > 0 && size / 512 / Pow2(k - 1) > limit
    ensures Smallest(size, 512 * Pow2(k), limit)
  {
    DivDiv(size, k);
    if k > 0 {
      DivDiv(size, k - 1);
      assert 512 * Pow2(k) / 2 == 512 * Pow2(k - 1);
    }
  }

  /** The least size that takes k halvings. */
  lemma {:induction false} HalvingsBound(n: nat, limit: nat, k: nat)
    ensures Halvings(n, limit) <= k <==> n < (limit + 1) * Pow2(k)
    decreases k
  {
    if k > 0 {
      HalvingsBound(n / 2, limit, k - 1);
      assert (limit + 1) * Pow2(k) == 2 * ((limit + 1) * Pow2(k - 1));
      if n <= limit { Bounded(limit + 1, Pow2(k)); }
    }
  }

  /** DISK_INFO: every size reported is exact, and no field overflows. */
  method DiskInfoReply(fsSize: nat, freeSpace: nat) returns (total: uint16, bytesPerSector: uint16, available: uint16)
    ensures var size, free := Min(fsSize, 0x7FFF_FFFF), Min(freeSpace, 0x7FFF_FFFF);
      && 512 <= bytesPerSector <= 0x8000 && size / bytesPerSector <= 0xFFFF
      && (bytesPerSector > 512 ==> size / (bytesPerSector / 2) > 0xFFFF)
      && total == size / bytesPerSector
      && (freeSpace <= fsSize ==> available == free / bytesPerSector <= total)
  {
    hide Halvings; hide Pow2;
    var size, free := Capped(fsSize, MAX_SMALL), Capped(freeSpace, MAX_SMALL);
    var bps, sectors, freeSectors;
    bps, sectors, freeSectors := Scale(size, free, 0xFFFF);
    ghost var k := Halvings(size / 512, 0xFFFF);
    SectorSize(6);
    HalvingsBound(size / 512, 0xFFFF, 6);
    ScaledIsSmallest(size, 0xFFFF, k);
    DivDiv(size, k);
    DivDiv(free, k);
    if freeSpace <= fsSize { DivMonotone(free, size, bps); }
    SectorSize(k);
    total, bytesPerSector, available := sectors, bps, freeSectors % 0x1_0000;
  }

  /** DISK_INFO_LARGE: exact below 2^47 octets, and only there; above, the 16-bit sector size has wrapped to 0. */
  method DiskInfoLargeReply(fsSize: nat, freeSpace: nat)
    returns (total: uint32, bytesPerSector: uint16, available: uint32)
    ensures fsSize < 0x8000_0000_0000 <==> bytesPerSector != 0
    ensures fsSize < 0x8000_0000_0000 ==>
      && 512 <= bytesPerSector <= 0x8000 && fsSize / bytesPerSector <= 0xFFFF_FFFF
      && (bytesPerSector > 512 ==> fsSize / (bytesPerSector / 2) > 0xFFFF_FFFF)
      && total == fsSize / bytesPerSector
      && (freeSpace <= fsSize ==> available == freeSpace / bytesPerSector <= total)
  {
    hide Halvings; hide Pow2;
    var size, free := Capped(fsSize, MAX_LARGE), Capped(freeSpace, MAX_LARGE);
    var bps, sectors, freeSectors;
    bps, sectors, freeSectors := Scale(size, free, 0xFFFF_FFFF);
    ghost var k := Halvings(size / 512, 0xFFFF_FFFF);
    SectorSize(6);
    HalvingsBound(size / 512, 0xFFFF_FFFF, 6);
    ScaledIsSmallest(size, 0xFFFF_FFFF, k);
    DivDiv(size, k);
    DivDiv(free, k);
    if freeSpace <= fsSize { DivMonotone(free, size, 512 * Pow2(k)); }
    SectorSize(k);
    total, bytesPerSector, available := sectors, bps, freeSectors % 0x1_0000_0000;
  }
}
