/** Octets, and the big- and little-endian encodings used on the wire. */
module Bytes {
  type byte = b: int | 0 <= b < 0x100
  type uint16 = n: int | 0 <= n < 0x1_0000
  type uint32 = n: int | 0 <= n < 0x1_0000_0000

  datatype Option<+T> = None | Some(value: T)

  function Min(a: nat, b: nat): (m: nat) {
    if a < b then a else b
  }

  /** The byte order of the machine a program runs on. */
  datatype Host = LittleEndian | BigEndian

  function Big16(n: uint16): (b: seq<byte>)
    ensures |b| == 2
  {
    [n / 0x100, n % 0x100]
  }

  function Little16(n: uint16): (b: seq<byte>)
    ensures |b| == 2
  {
    [n % 0x100, n / 0x100]
  }

  function Big32(n: uint32): (b: seq<byte>)
    ensures |b| == 4
  {
    [n / 0x100_0000, n / 0x1_0000 % 0x100, n / 0x100 % 0x100, n % 0x100]
  }

  /** The 16-bit value at offset i, most significant octet first. */
  function FromBig16(b: seq<byte>, i: nat): (n: uint16)
    requires i + 1 < |b|
  {
    0x100 * (b[i] as int) + b[i + 1]
  }

  function FromLittle16(b: seq<byte>, i: nat): (n: uint16)
    requires i + 1 < |b|
  {
    b[i] + 0x100 * (b[i + 1] as int)
  }

  function FromBig32(b: seq<byte>, i: nat): (n: uint32)
    requires i + 3 < |b|
  {
    0x100_0000 * (b[i] as int) + 0x1_0000 * (b[i + 1] as int) + 0x100 * (b[i + 2] as int) + b[i + 3]
  }

  function Little32(n: uint32): (b: seq<byte>)
    ensures |b| == 4
  {
    Little16(n % 0x1_0000) + Little16(n / 0x1_0000)
  }

  function FromLittle32(b: seq<byte>, i: nat): (n: uint32)
    requires i + 3 < |b|
  {
    FromLittle16(b, i) + 0x1_0000 * (FromLittle16(b, i + 2) as int)
  }

  /** A 16-bit variable as its two octets lie in memory, and back. */
  function Native16(host: Host, n: uint16): (b: seq<byte>)
    ensures |b| == 2
  {
    if host.LittleEndian? then Little16(n) else Big16(n)
  }

  function FromNative16(host: Host, b: seq<byte>, i: nat): (n: uint16)
    requires i + 1 < |b|
  {
    if host.LittleEndian? then FromLittle16(b, i) else FromBig16(b, i)
  }
}
