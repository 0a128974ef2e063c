/** The ones' complement header checksum (section 3.1 of RFC 791, RFC 1071). */
module Checksum {
  import opened Bits
  import opened Bytes
  import opened Wrappers

  /** An index or byte value out of range. */
  datatype HeaderError = OutOfRange

  /** The sum of a header's 16-bit big-endian words. */
  function WordSum(h: Bytes): nat
    requires |h| % 2 == 0
  {
    if h == [] then 0 else WordSum(h[..|h| - 2]) + U16(Big, h, |h| - 2)
  }

  /** End-around carry until 16 bits remain. */
  function Fold(t: nat): (f: uint16) {
    if t > 0xFFFF then Fold(t % 0x1_0000 + t / 0x1_0000) else t
  }

  function ChecksumOf(header: Bytes): Result<uint16, HeaderError> {
    if |header| % 2 != 0 then Failure(OutOfRange) else Success(0xFFFF - Fold(WordSum(header)))
  }

  lemma {:induction false} WordSumOfParts(a: Bytes, b: Bytes)
    requires |a| % 2 == 0 && |b| % 2 == 0
    ensures WordSum(a + b) == WordSum(a) + WordSum(b)
  {
    if b == [] {
      assert a + b == a;
    } else {
      assert (a + b)[..|a + b| - 2] == a + b[..|b| - 2];
      WordSumOfParts(a, b[..|b| - 2]);
    }
  }

  // ----- The checksum field of an IPv4 header

  ghost predicate IsHeader(h: Bytes) {
    |h| >= 12 && |h| % 2 == 0
  }

  /** A header with a given value in its checksum field. */
  function WithField(h: Bytes, c: uint16): (r: Bytes)
    requires |h| >= 12
    ensures |r| == |h|
  {
    h[10 := c / 256][11 := c % 256]
  }

  /** The sum of every word but the checksum field. */
  ghost function OtherWords(h: Bytes): nat
    requires IsHeader(h)
  {
    WordSum(h[..10]) + WordSum(h[12..])
  }

  lemma WordSumWithField(h: Bytes, c: uint16)
    requires IsHeader(h)
    ensures WordSum(WithField(h, c)) == OtherWords(h) + c
  {
    var field: Bytes := [c / 256, c % 256];
    assert WithField(h, c) == h[..10] + (field + h[12..]);
    WordSumOfParts(h[..10], field + h[12..]);
    WordSumOfParts(field, h[12..]);
    assert field[..0] == [];
  }

  /** What tagged_packet installs: the checksum taken over the header with a zero field. */
  ghost function Installed(h: Bytes): uint16
    requires IsHeader(h)
  {
    ChecksumOf(WithField(h, 0)).value
  }

  lemma ModuloShift(q: nat, x: nat)
    ensures (0xFFFF * q + x) % 0xFFFF == x % 0xFFFF
  {
    assert 0xFFFF * q + x == 0xFFFF * (q + x / 0xFFFF) + x % 0xFFFF;
  }

  /** The end-around carry preserves the sum modulo 65535. */
  lemma {:induction false} FoldKeepsModulo(t: nat)
    ensures Fold(t) % 0xFFFF == t % 0xFFFF
  {
    if t > 0xFFFF {
      var q, r := t / 0x1_0000, t % 0x1_0000;
      ModuloShift(q, q + r);
      FoldKeepsModulo(q + r);
    }
  }

  lemma {:induction false} FoldIsZero(t: nat)
    ensures Fold(t) == 0 <==> t == 0
  {
    if t > 0xFFFF { FoldIsZero(t % 0x1_0000 + t / 0x1_0000); }
  }

  lemma {:induction false} FoldIsAllOnes(t: nat)
    ensures Fold(t) == 0xFFFF <==> t != 0 && t % 0xFFFF == 0
  {
    FoldKeepsModulo(t);
    FoldIsZero(t);
  }

  lemma Complement(s: nat, f: uint16, c: uint16)
    requires s % 0xFFFF == f % 0xFFFF
    ensures (s + c) % 0xFFFF == 0 <==> c % 0xFFFF == (0xFFFF - f) % 0xFFFF
  {
    assert (s + c) % 0xFFFF == (f + c) % 0xFFFF;
  }

  lemma FoldsToAllOnes(s: nat, c: uint16)
    ensures Fold(s + c) == 0xFFFF <==> s + c != 0 && c % 0xFFFF == (0xFFFF - Fold(s)) % 0xFFFF
  {
    FoldIsAllOnes(s + c);
    FoldKeepsModulo(s);
    Complement(s, Fold(s), c);
  }

  /**
  A header passes the receiver's test exactly when its field equals the installed checksum
  modulo 65535 and some word is not zero: the only other field accepted is the second zero.
  */
  lemma VerifiesExactly(h: Bytes, c: uint16)
    requires IsHeader(h)
    ensures ChecksumOf(WithField(h, c)) == Success(0)
       <==> OtherWords(h) + c != 0 && c % 0xFFFF == Installed(h) % 0xFFFF
  {
    WordSumWithField(h, 0);
    WordSumWithField(h, c);
    FoldsToAllOnes(OtherWords(h), c);
  }

  /** Installing the computed checksum always makes the header verify, the all-zero header included. */
  lemma InstalledVerifies(h: Bytes)
    requires IsHeader(h)
    ensures ChecksumOf(WithField(h, Installed(h))) == Success(0)
  {
    WordSumWithField(h, 0);
    FoldIsZero(OtherWords(h));
    VerifiesExactly(h, Installed(h));
  }

  /** tools/tag_vectors.py: ipv4_checksum. */
  method Ipv4Checksum(header: Bytes) returns (r: Result<uint16, HeaderError>)
    ensures r == ChecksumOf(header)
  {
    var total: nat, i := 0, 0;
    while i < |header|
      invariant 0 <= i <= |header| + 1 && i % 2 == 0
      invariant i <= |header| && total == WordSum(header[..i])
    {
      if i + 1 >= |header| { return Failure(OutOfRange); }
      JoinBytes(header[i], header[i + 1]);
      assert header[..i + 2][..i] == header[..i];
      total := total + Join(header[i], header[i + 1]);
      i := i + 2;
    }
    assert header[..i] == header;
    while total > 0xFFFF
      invariant Fold(total) == Fold(WordSum(header))
    {
      total := total % 0x1_0000 + total / 0x1_0000;
    }
    r := Success(0xFFFF - total);
  }
}
