/**
Key derivation and the 16-bit packet tag, computed by each tool in its own way.
SHA-256, HMAC-SHA256 and the SipHash round are arbitrary functions.
*/
module Crypto {
  import opened Bits
  import opened Bytes
  import opened SipHash
  import opened Wrappers

  datatype Primitives = Primitives(sha256: Bytes -> Digest, hmac: (Bytes, Bytes) -> Digest, round: Round)

  datatype CryptoError = CounterOverflow | ShortKey

  // ----- HKDF: section 2.3 of RFC 5869

  /** T(i), the i-th output block of the expand step. */
  function T(p: Primitives, prk: Bytes, info: Bytes, i: nat): Bytes
    requires i <= 255
    ensures |T(p, prk, info, i)| == if i == 0 then 0 else 32
  {
    if i == 0 then [] else p.hmac(prk, T(p, prk, info, i - 1) + info + [i])
  }

  /** T(1) | T(2) | ... | T(n). */
  function Blocks(p: Primitives, prk: Bytes, info: Bytes, n: nat): (okm: Bytes)
    requires n <= 255
    ensures |okm| == 32 * n
  {
    if n == 0 then [] else Blocks(p, prk, info, n - 1) + T(p, prk, info, n)
  }

  function BlockCount(length: int): (n: nat)
    ensures 32 * n >= length && (n > 0 ==> 32 * (n - 1) < length)
  {
    if length <= 0 then 0 else (length + 31) / 32
  }

  function Extract(p: Primitives, secret: Bytes): Bytes {
    p.hmac(Zeros(32), secret)
  }

  /** HKDF-SHA256 without a salt. A block counter above 255 does not fit its byte. */
  function Hkdf(p: Primitives, secret: Bytes, info: Bytes, length: int): Result<Bytes, CryptoError> {
    var n := BlockCount(length);
    if n > 255 then Failure(CounterOverflow)
    else Success(Take(Blocks(p, Extract(p, secret), info, n), length))
  }

  lemma {:induction false} BlockAt(p: Primitives, prk: Bytes, info: Bytes, n: nat, i: nat)
    requires i < n <= 255
    ensures Blocks(p, prk, info, n)[32 * i..32 * i + 32] == T(p, prk, info, i + 1)
  {
    if i < n - 1 {
      BlockAt(p, prk, info, n - 1, i);
      assert Blocks(p, prk, info, n)[32 * i..32 * i + 32] == Blocks(p, prk, info, n - 1)[32 * i..32 * i + 32];
    }
  }

  lemma SliceOfPrefix(s: Bytes, length: nat, lo: nat)
    requires lo < length <= |s| && lo + 32 <= |s|
    ensures Slice(s[..length], lo, lo + 32) == Take(s[lo..lo + 32], length - lo)
  {
    if length < lo + 32 {
      assert s[..length][lo..length] == s[lo..lo + 32][..length - lo];
    } else {
      assert s[..length][lo..lo + 32] == s[lo..lo + 32];
    }
  }

  /**
  HKDF-SHA256 written out: the key of every block is HMAC(32 zero bytes, secret), block i is the HMAC of the block
  before it, the info and the byte i + 1, and the output is as much of the blocks as was asked for.
  */
  lemma HkdfWrittenOut(p: Primitives, secret: Bytes, info: Bytes, length: int, i: nat)
    requires 32 * i < length <= 255 * 32
    ensures var prk := p.hmac(Zeros(32), secret);
      && Hkdf(p, secret, info, length).Success?
      && var okm := Hkdf(p, secret, info, length).value;
      && |okm| == length
      && Slice(okm, 32 * i, 32 * i + 32)
         == Take(p.hmac(prk, (if i == 0 then [] else Slice(okm, 32 * (i - 1), 32 * i)) + info + [i + 1]), length - 32 * i)
  {
    var prk, n := Extract(p, secret), BlockCount(length);
    var all, okm := Blocks(p, prk, info, n), Hkdf(p, secret, info, length).value;
    assert okm == all[..length];
    BlockAt(p, prk, info, n, i);
    if i > 0 {
      BlockAt(p, prk, info, n, i - 1);
      assert Slice(okm, 32 * (i - 1), 32 * i) == all[32 * (i - 1)..32 * i] == T(p, prk, info, i);
    }
    SliceOfPrefix(all, length, 32 * i);
  }

  /** tools/tag_vectors.py: as many blocks as the rounded-up length asks for. */
  method HkdfCounted(p: Primitives, ikm: Bytes, info: Bytes, length: int) returns (r: Result<Bytes, CryptoError>)
    ensures r == Hkdf(p, ikm, info, length)
  {
    var prk := p.hmac(Zeros(32), ikm);
    var okm: Bytes, block: Bytes := [], [];
    var i, stop := 1, -((-length) / 32) + 1;
    while i < stop
      invariant 1 <= i <= 256
      invariant i == 1 || i <= stop
      invariant block == T(p, prk, info, i - 1) && okm == Blocks(p, prk, info, i - 1)
    {
      if i > 255 { return Failure(CounterOverflow); }
      block := p.hmac(prk, block + info + [i]);
      okm := okm + block;
      i := i + 1;
    }
    r := Success(Take(okm, length));
  }

  /** tools/verify_pcap.py: blocks until there are enough bytes. */
  method HkdfUntilLong(p: Primitives, secret: Bytes, info: Bytes, length: int) returns (r: Result<Bytes, CryptoError>)
    ensures r == Hkdf(p, secret, info, length)
  {
    var prk := p.hmac(Zeros(32), secret);
    var okm: Bytes, prev: Bytes, counter: nat := [], [], 1;
    while |okm| < length
      invariant 1 <= counter <= 256
      invariant counter == 1 || |okm| < length + 32
      invariant prev == T(p, prk, info, counter - 1) && okm == Blocks(p, prk, info, counter - 1)
    {
      if counter > 255 { return Failure(CounterOverflow); }
      prev := p.hmac(prk, prev + info + [counter]);
      okm := okm + prev;
      counter := counter + 1;
    }
    r := Success(Take(okm, length));
  }

  /** The 32-byte key of one measurement under a chain key. */
  function MeasurementKey(p: Primitives, chainKey: Bytes, id: Bytes): Digest {
    p.hmac(Extract(p, chainKey), id + [1])
  }

  /** A 32-byte request is one block, and never overflows the counter. */
  lemma MeasurementKeyIsHkdf(p: Primitives, chainKey: Bytes, id: Bytes)
    ensures Hkdf(p, chainKey, id, 32) == Success(MeasurementKey(p, chainKey, id))
  {
    var prk := Extract(p, chainKey);
    assert T(p, prk, id, 1) == p.hmac(prk, [] + id + [1]);
    assert [] + id + [1] == id + [1];
    assert Blocks(p, prk, id, 1) == Blocks(p, prk, id, 0) + T(p, prk, id, 1) == T(p, prk, id, 1);
    assert BlockCount(32) == 1;
    assert Take(T(p, prk, id, 1), 32) == T(p, prk, id, 1);
  }

  // ----- The tag: the low 16 bits of SipHash-2-4 under the first half of the measurement key

  function Tag(p: Primitives, ak: Bytes, input: Bytes): Result<uint16, CryptoError> {
    if |ak| < 16 then Failure(ShortKey) else Success(Sip(p.round, ak, input) % 65536)
  }

  lemma SipOfHalf(round: Round, ak: Bytes, msg: Bytes)
    requires |ak| >= 16
    ensures Sip(round, ak[..16], msg) == Sip(round, ak, msg)
  {
    assert ak[..16][0..8] == ak[0..8] && ak[..16][8..16] == ak[8..16];
  }

  /** The tag is the low 16 bits of SipHash-2-4 under the first 16 bytes of the key, and nothing else of it. */
  lemma TagIsLowBits(p: Primitives, ak: Bytes, input: Bytes)
    ensures Tag(p, ak, input).Success? <==> |ak| >= 16
    ensures |ak| >= 16 ==> Tag(p, ak, input) == Success(Sip(p.round, ak[..16], input) % 0x1_0000)
  {
    if |ak| >= 16 { SipOfHalf(p.round, ak, input); }
  }

  lemma SplitModulo(w: nat)
    ensures 256 * (w / 256 % 256) + w % 256 == w % 65536
  {}

  lemma LowTwoBytes(w: nat, k: nat)
    requires k >= 2
    ensures Join(PackLittle(w, k)[1], PackLittle(w, k)[0]) == w % 65536
  {
    var out := PackLittle(w, k);
    assert out[1..] == PackLittle(w / 256, k - 1);
    assert out[0] == w % 256 && out[1] == w / 256 % 256;
    JoinBytes(out[1], out[0]);
    SplitModulo(w);
  }

  /** tools/tag_vectors.py: the first two bytes of the little-endian output. */
  method TagOf(p: Primitives, ak: Bytes, data: Bytes) returns (r: Result<uint16, CryptoError>)
    ensures r == Tag(p, ak, data)
  {
    var s := SipHashPadded(p.round, Take(ak, 16), data);
    if s.Failure? { return Failure(ShortKey); }
    var out := s.value;
    SipOfHalf(p.round, ak, data);
    LowTwoBytes(Sip(p.round, ak, data), 8);
    r := Success(Join(out[1], out[0]));
  }

  /** tools/verify_pcap.py: the 64-bit result masked to 16 bits. */
  method ComputeTag(p: Primitives, ak: Bytes, input: Bytes) returns (r: Result<uint16, CryptoError>)
    ensures r == Tag(p, ak, input)
  {
    var s := SipHashWords(p.round, Take(ak, 16), input);
    if s.Failure? { return Failure(ShortKey); }
    SipOfHalf(p.round, ak, input);
    r := Success(s.value % 65536);
  }
}
