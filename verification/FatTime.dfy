/** FAT timestamps: broken-down local time packed into 32 bits, and back. */
module FatTime {
  import opened Bytes
  import opened Bits

  /** The fields of a C `struct tm`; years count from 1900 and months from 0. */
  datatype Tm = Tm(year: int, mon: int, mday: int, hour: int, min: int, sec: int) {
    predicate Valid() {
      0 <= mon < 12 && 1 <= mday <= 31 && 0 <= hour < 24 && 0 <= min < 60 && 0 <= sec <= 60
    }

    predicate Representable() {
      Valid() && 80 <= year <= 207
    }

    /** FAT knows even seconds only. */
    function Even(): (r: Tm) {
      this.(sec := sec / 2 * 2)
    }
  }

  const FIRST := Tm(80, 0, 1, 0, 0, 0)
  const LAST := Tm(207, 11, 31, 23, 59, 58)
  const MIN_STAMP: uint32 := (0x20 + 1) * 0x1_0000
  const MAX_STAMP: uint32 := (0x7F * 0x200 + 12 * 0x20 + 31) * 0x1_0000 + 23 * 0x800 + 59 * 0x20 + 29

  predicate Earlier(a: Tm, b: Tm) {
    || a.year < b.year
    || (a.year == b.year
        && (a.mon < b.mon
            || (a.mon == b.mon
                && (a.mday < b.mday
                    || (a.mday == b.mday
                        && (a.hour < b.hour
                            || (a.hour == b.hour
                                && (a.min < b.min || (a.min == b.min && a.sec < b.sec)))))))))
  }

  // ---------- the code ----------

  function Packed(t: Tm): (stamp: uint32)
    requires t.Representable()
  {
    (((((t.year - 80) * 16 + t.mon + 1) * 32 + t.mday) * 32 + t.hour) * 64 + t.min) * 32 + t.sec / 2
  }

  function Stamp(t: Tm): (r: uint32)
    requires t.Valid()
  {
    if t.year < 80 then MIN_STAMP else if t.year > 207 then MAX_STAMP else Packed(t)
  }

  method TimeToFat(t: Tm) returns (res: uint32)
    requires t.Valid()
    ensures res == Stamp(t)
  {
    if t.year < 80 {
      return MIN_STAMP;
    }
    if t.year > 207 {
      return MAX_STAMP;
    }
    var r: nat := t.year - 80;
    r := PutField(r, 4, t.mon + 1);
    r := PutField(r, 5, t.mday);
    r := PutField(r, 5, t.hour);
    r := PutField(r, 6, t.min);
    r := PutField(r, 5, t.sec / 2);
    res := r;
  }

  /** Shifts k zero bits in and puts the field there. */
  method PutField(r: nat, k: nat, field: nat) returns (s: nat)
    requires 4 <= k <= 6 && field < Pow2(k)
    ensures Pow2(4) == 16 && Pow2(5) == 32 && Pow2(6) == 64 && s == r * Pow2(k) + field
  {
    s := Or(r * Pow2(k), field);
    OrAdds(r, k, field);
    assert Pow2(4) == 16 && Pow2(5) == 32 && Pow2(6) == 64;
  }

  function Unpacked(stamp: uint32): (r: Tm) {
    Tm(stamp / 0x200_0000 + 80, stamp / 0x20_0000 % 16 - 1, stamp / 0x1_0000 % 32, stamp / 0x800 % 32,
       stamp / 0x20 % 64, stamp % 32 * 2)
  }

  /** The fields that fat_to_time hands to mktime. */
  method FatToTime(stamp: uint32) returns (t: Tm)
    ensures t == Unpacked(stamp)
  {
    var d: nat := stamp;
    var sec := d % 32 * 2;
    d := d / 32;
    var min := d % 64;
    d := d / 64;
    var hour := d % 32;
    d := d / 32;
    var mday := d % 32;
    d := d / 32;
    var mon := d % 16 - 1;
    d := d / 16;
    t := Tm(d + 80, mon, mday, hour, min, sec);
    UnpackedFields(d, mon + 1, mday, hour, min, sec / 2);
  }

  // ---------- what the packing promises ----------

  function Fields(y: nat, m: nat, d: nat, h: nat, n: nat, s: nat): (r: nat) {
    ((((y * 16 + m) * 32 + d) * 32 + h) * 64 + n) * 32 + s
  }

  lemma UnpackedFields(y: nat, m: nat, d: nat, h: nat, n: nat, s: nat)
    requires y < 128 && m < 16 && d < 32 && h < 32 && n < 64 && s < 32
    ensures var stamp := Fields(y, m, d, h, n, s);
      && stamp < 0x1_0000_0000
      && stamp % 32 == s && stamp / 0x20 % 64 == n && stamp / 0x800 % 32 == h && stamp / 0x1_0000 % 32 == d
      && stamp / 0x20_0000 % 16 == m && stamp / 0x200_0000 == y
  {
    var c3 := y * 16 + m;
    var c2 := c3 * 32 + d;
    var c1 := c2 * 32 + h;
    var c0 := c1 * 64 + n;
    var stamp := c0 * 32 + s;
    DivMod(stamp, 0x20, c0, s);
    DivMod(c0, 64, c1, n);
    DivMod(stamp, 0x800, c1, n * 32 + s);
    DivMod(c1, 32, c2, h);
    DivMod(stamp, 0x1_0000, c2, h * 0x800 + n * 32 + s);
    DivMod(c2, 32, c3, d);
    DivMod(stamp, 0x20_0000, c3, d * 0x1_0000 + h * 0x800 + n * 32 + s);
    DivMod(c3, 16, y, m);
    DivMod(stamp, 0x200_0000, y, m * 0x20_0000 + d * 0x1_0000 + h * 0x800 + n * 32 + s);
  }

  lemma Decomposed(stamp: uint32) returns (y: nat, m: nat, d: nat, h: nat, n: nat, s: nat)
    ensures y < 128 && m < 16 && d < 32 && h < 32 && n < 64 && s < 32 && stamp == Fields(y, m, d, h, n, s)
  {
    var q := stamp / 32;
    s := stamp % 32;
    var q1 := q / 64;
    n := q % 64;
    var q2 := q1 / 32;
    h := q1 % 32;
    var q3 := q2 / 32;
    d := q2 % 32;
    m := q3 % 16;
    y := q3 / 16;
  }

  /** Packing loses nothing but the odd second. */
  lemma UnpackPacked(t: Tm)
    requires t.Representable()
    ensures Unpacked(Packed(t)) == t.Even()
  {
    UnpackedFields(t.year - 80, t.mon + 1, t.mday, t.hour, t.min, t.sec / 2);
  }

  /** A stamp whose fields are a time is what that time packs to. */
  lemma PackUnpacked(stamp: uint32)
    requires Unpacked(stamp).Valid()
    ensures Unpacked(stamp).Representable() && Packed(Unpacked(stamp)) == stamp
  {
    var y, m, d, h, n, s := Decomposed(stamp);
    UnpackedFields(y, m, d, h, n, s);
  }

  /** Stamps are ordered like the times, in steps of two seconds. */
  lemma OrderKept(a: Tm, b: Tm)
    requires a.Representable() && b.Representable()
    ensures Packed(a) < Packed(b) <==> Earlier(a.Even(), b.Even())
  {
  }

  /** Times that do not fit get the first and the last stamp there is; only a leap second in the very last minute
      packs to more than the last. */
  lemma Extremes(t: Tm)
    requires t.Valid()
    ensures MIN_STAMP == Packed(FIRST) <= Stamp(t)
    ensures MAX_STAMP == Packed(LAST)
    ensures Stamp(t) <= MAX_STAMP <==> t != Tm(207, 11, 31, 23, 59, 60)
    ensures t.year < 80 ==> Stamp(t) == Packed(FIRST)
    ensures t.year > 207 ==> Stamp(t) == Packed(LAST)
  {
    if t.Representable() {
      OrderKept(t, FIRST);
      OrderKept(LAST, t);
    }
  }

  /** The 29th of February 2024, 12:34:56. */
  lemma LeapDay()
    ensures Packed(Tm(124, 1, 29, 12, 34, 56)) == 0x585D_645C
  {
  }
}
