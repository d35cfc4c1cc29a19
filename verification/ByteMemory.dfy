// Little-endian byte memory, as the C code sees it through 16 and 32 bit fields.

module ByteMemory {

  type Byte = x: int | 0 <= x < 0x100

  function ZeroBytes(n: nat): (z: seq<Byte>)
    ensures |z| == n && forall i :: 0 <= i < n ==> z[i] == 0
  {
    seq(n, _ => 0)
  }

  const MODULUS16: nat := 0x1_0000
  const MODULUS32: nat := 0x1_0000_0000

  function Get16(m: seq<Byte>, i: nat): (w: nat)
    requires i + 2 <= |m|
    ensures w < MODULUS16
  {
    m[i] as int + 0x100 * m[i + 1] as int
  }

  function Get32(m: seq<Byte>, i: nat): (w: nat)
    requires i + 4 <= |m|
    ensures w < MODULUS32
  {
    m[i] as int + 0x100 * m[i + 1] as int + 0x1_0000 * m[i + 2] as int + 0x100_0000 * m[i + 3] as int
  }

  /** The four bytes of a 32 bit value, least significant first. */
  function Bytes32(w: nat): (b: seq<Byte>)
    requires w < MODULUS32
    ensures |b| == 4
    ensures Get32(b, 0) == w
  {
    var high := w / 0x100;
    var higher := high / 0x100;
    [w % 0x100, high % 0x100, higher % 0x100, higher / 0x100]
  }

  function Bytes16(w: nat): (b: seq<Byte>)
    requires w < MODULUS16
    ensures |b| == 2
    ensures Get16(b, 0) == w
  {
    [w % 0x100, w / 0x100]
  }

  /** `m'` is `m` except possibly for the `count` bytes from index `i` on. */
  ghost predicate SameOutside(m: seq<Byte>, m': seq<Byte>, i: int, count: nat)
  {
    |m'| == |m| && forall k :: 0 <= k < |m| && !(i <= k < i + count) ==> m'[k] == m[k]
  }

  /** `m'` agrees with `m` on the indices `lo <= k < hi`. */
  ghost predicate SameWithin(m: seq<Byte>, m': seq<Byte>, lo: int, hi: int)
  {
    |m'| == |m| && forall k :: 0 <= k < |m| && lo <= k < hi ==> m'[k] == m[k]
  }
}
