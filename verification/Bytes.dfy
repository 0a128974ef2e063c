/** Byte strings and the fixed-width integers stored in them. */
module Bytes {

  type byte = b: int | 0 <= b < 256
  type Bytes = seq<byte>

  /** A SHA-256 or HMAC-SHA256 output. */
  type Digest = d: Bytes | |d| == 32 witness seq(32, _ => 0)

  datatype Endian = Little | Big

  function Zeros(n: nat): (z: Bytes)
    ensures |z| == n && forall i | 0 <= i < n :: z[i] == 0
  {
    seq(n, _ => 0)
  }

  function Min(a: int, b: int): int {
    if a < b then a else b
  }

  /** `data[:n]` for any n the callers use: never past the end, empty below zero. */
  function Take(s: Bytes, n: int): Bytes {
    if n <= 0 then [] else s[..Min(n, |s|)]
  }

  /** The bytes `data[lo:hi]` of a slice that may run past the end. */
  function Slice(s: Bytes, lo: nat, hi: nat): Bytes
    requires lo <= hi
  {
    s[Min(lo, |s|)..Min(hi, |s|)]
  }

  function U16(e: Endian, s: Bytes, i: nat): nat
    requires i + 2 <= |s|
  {
    var a: int, b: int := s[i], s[i + 1];
    if e.Big? then 256 * a + b else a + 256 * b
  }

  function U32(e: Endian, s: Bytes, i: nat): nat
    requires i + 4 <= |s|
  {
    if e.Big? then 65536 * U16(e, s, i) + U16(e, s, i + 2)
    else U16(e, s, i) + 65536 * U16(e, s, i + 2)
  }

  type uint16 = n: int | 0 <= n < 0x1_0000
  type uint32 = n: int | 0 <= n < 0x1_0000_0000

  function P16(e: Endian, n: uint16): (s: Bytes)
    ensures |s| == 2 && U16(e, s, 0) == n
  {
    if e.Big? then [n / 256, n % 256] else [n % 256, n / 256]
  }

  function P32(e: Endian, n: uint32): (s: Bytes)
    ensures |s| == 4 && U32(e, s, 0) == n
  {
    if e.Big? then P16(e, n / 65536) + P16(e, n % 65536)
    else P16(e, n % 65536) + P16(e, n / 65536)
  }

  /** The k low bytes of n, least significant first. */
  function PackLittle(n: nat, k: nat): (s: Bytes)
    ensures |s| == k
  {
    if k == 0 then [] else [n % 256] + PackLittle(n / 256, k - 1)
  }

  /** What stored bytes mean in either byte order. */
  lemma StoredNumbers(a: byte, b: byte, c: byte, d: byte)
    ensures U16(Big, [a, b], 0) == a as int * 0x100 + b && U16(Little, [a, b], 0) == a as int + b as int * 0x100
    ensures U32(Big, [a, b, c, d], 0) == a as int * 0x100_0000 + b as int * 0x1_0000 + c as int * 0x100 + d
    ensures U32(Little, [a, b, c, d], 0) == a as int + b as int * 0x100 + c as int * 0x1_0000 + d as int * 0x100_0000
  {}

  lemma U32InContext(e: Endian, before: Bytes, s: Bytes, after: Bytes, i: nat)
    requires i + 4 <= |s|
    ensures U32(e, before + s + after, |before| + i) == U32(e, s, i)
  {}

  lemma U32Before(e: Endian, s: Bytes, after: Bytes, i: nat)
    requires i + 4 <= |s|
    ensures U32(e, s + after, i) == U32(e, s, i)
  {}
}
