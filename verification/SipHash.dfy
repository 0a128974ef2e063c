/**
SipHash-2-4 as each of the two tools computes it, against the padded-message form of the paper.
The round function is a parameter: every result holds for any function on the four state words.
*/
module SipHash {
  import opened Bits
  import opened Bytes
  import opened Wrappers

  const TOP_BYTE: nat := 0x100_0000_0000_0000 // 1 << 56

  type word = w: int | 0 <= w < 0x1_0000_0000_0000_0000

  datatype State = State(v0: word, v1: word, v2: word, v3: word)

  type Round = State -> State

  datatype SipError = BadKeyLength

  function Xor64(a: word, b: word): word {
    WideBits();
    XorBound(a, b, 64);
    Xor(a, b)
  }

  // ----- The paper's definition

  function Absorb(round: Round, s: State, m: word): State {
    var t := round(round(s.(v3 := Xor64(s.v3, m))));
    t.(v0 := Xor64(t.v0, m))
  }

  function AbsorbAll(round: Round, s: State, words: seq<word>): State {
    if words == [] then s
    else Absorb(round, AbsorbAll(round, s, words[..|words| - 1]), words[|words| - 1])
  }

  function Output(s: State): word {
    Xor64(Xor64(Xor64(s.v0, s.v1), s.v2), s.v3)
  }

  function Finish(round: Round, s: State): word {
    Output(round(round(round(round(s.(v2 := Xor64(s.v2, 0xFF)))))))
  }

  /** The little-endian number held by a byte string. */
  function LittleEndian(s: Bytes): (n: nat)
    ensures n < Pow2(8 * |s|)
  {
    if s == [] then 0
    else
      var k := |s| - 1;
      ByteBits();
      Concatenated(LittleEndian(s[..k]), s[k], 8, 8 * k);
      LittleEndian(s[..k]) + Shl(s[k], 8 * k)
  }

  function Word(s: Bytes): word
    requires |s| == 8
  {
    WideBits();
    LittleEndian(s)
  }

  lemma WordBound(s: Bytes)
    requires |s| == 8
    ensures LittleEndian(s) == Word(s) < 0x1_0000_0000_0000_0000
  {}

  function Init(key: Bytes): State
    requires |key| >= 16
  {
    var k0, k1 := Word(key[0..8]), Word(key[8..16]);
    State(Xor64(k0, 0x736F6D6570736575), Xor64(k1, 0x646F72616E646F6D),
          Xor64(k0, 0x6C7967656E657261), Xor64(k1, 0x7465646279746573))
  }

  /** Position i of the padded message: its own bytes, then zeros, then its length modulo 256. */
  function PaddedByte(msg: Bytes, i: nat): byte {
    if i < |msg| then msg[i]
    else if i == 8 * (|msg| / 8) + 7 then |msg| % 256
    else 0
  }

  function PaddedBlock(msg: Bytes, block: nat): (p: Bytes)
    ensures |p| == 8
  {
    seq<byte>(8, j requires 0 <= j < 8 => PaddedByte(msg, 8 * block + j))
  }

  function MessageWords(msg: Bytes): seq<word> {
    seq(|msg| / 8 + 1, i requires 0 <= i => Word(PaddedBlock(msg, i)))
  }

  /** SipHash-2-4: absorb the words of the padded message, then finish. */
  function Sip(round: Round, key: Bytes, msg: Bytes): word
    requires |key| >= 16
  {
    Finish(round, AbsorbAll(round, Init(key), MessageWords(msg)))
  }

  // ----- Both tools run the same compression over their words

  lemma AbsorbOneMore(round: Round, s: State, words: seq<word>, i: nat)
    requires i < |words|
    ensures AbsorbAll(round, s, words[..i + 1]) == Absorb(round, AbsorbAll(round, s, words[..i]), words[i])
  {
    assert words[..i + 1][..i] == words[..i];
  }

  lemma WholeBlock(msg: Bytes, i: nat)
    requires i < |msg| / 8
    ensures msg[8 * i..8 * i + 8] == PaddedBlock(msg, i)
  {}

  lemma LastBlock(msg: Bytes)
    ensures var tail := msg[8 * (|msg| / 8)..];
      PaddedBlock(msg, |msg| / 8) == tail + Zeros(7 - |tail|) + [|msg| % 256]
  {
    var n, tail := |msg| / 8, msg[8 * (|msg| / 8)..];
    var last := tail + Zeros(7 - |tail|) + [|msg| % 256];
    forall j | 0 <= j < 8 ensures PaddedBlock(msg, n)[j] == last[j] {
      assert PaddedBlock(msg, n)[j] == PaddedByte(msg, 8 * n + j);
    }
  }

  // ----- The definition, written out

  /** A message below eight bytes is one word: two rounds for it, four to finish, with the paper's constants. */
  lemma SipOfShortMessage(round: Round, key: Bytes, msg: Bytes)
    requires |key| >= 16 && |msg| < 8
    ensures var k0, k1, m := Word(key[..8]), Word(key[8..16]), Word(msg + Zeros(7 - |msg|) + [|msg|]);
      var s := State(Xor64(k0, 0x736F6D6570736575), Xor64(k1, 0x646F72616E646F6D),
                     Xor64(k0, 0x6C7967656E657261), Xor64(Xor64(k1, 0x7465646279746573), m));
      var t := round(round(s));
      var u := round(round(round(round(State(Xor64(t.v0, m), t.v1, Xor64(t.v2, 0xFF), t.v3)))));
      Sip(round, key, msg) == Xor64(Xor64(Xor64(u.v0, u.v1), u.v2), u.v3)
  {
    var m := Word(msg + Zeros(7 - |msg|) + [|msg|]);
    assert msg[8 * (|msg| / 8)..] == msg;
    LastBlock(msg);
    assert MessageWords(msg) == [m];
    assert MessageWords(msg)[..0] == [];
    AbsorbOneMore(round, Init(key), MessageWords(msg), 0);
    assert MessageWords(msg)[..1] == MessageWords(msg);
    assert key[0..8] == key[..8];
  }

  /** Every word costs two rounds between its two xors, and words are absorbed in order. */
  lemma AbsorbsInOrder(round: Round, start: State, words: seq<word>, m: word)
    ensures var s := AbsorbAll(round, start, words);
      var t := round(round(State(s.v0, s.v1, s.v2, Xor64(s.v3, m))));
      AbsorbAll(round, start, words + [m]) == State(Xor64(t.v0, m), t.v1, t.v2, t.v3)
  {
    assert (words + [m])[..|words|] == words;
  }

  /** One more byte at the low end of a little-endian number. */
  lemma {:induction false} LowByteFirst(b: byte, s: Bytes)
    ensures LittleEndian([b] + s) == b as int + 256 * LittleEndian(s)
  {
    ByteBits();
    if s == [] {
      assert ([b] + s)[..0] == [] && Shl(b, 0) == b;
    } else {
      var k := |s| - 1;
      assert ([b] + s)[..k + 1] == [b] + s[..k];
      LowByteFirst(b, s[..k]);
      ShlTwice(s[k], 8 * k, 8);
    }
  }

  lemma {:induction false} PackedValue(w: nat, k: nat)
    requires w < Pow2(8 * k)
    ensures LittleEndian(PackLittle(w, k)) == w
  {
    if k != 0 {
      ByteBits();
      ShlTwice(1, 8 * (k - 1), 8);
      PackedValue(w / 256, k - 1);
      LowByteFirst(w % 256, PackLittle(w / 256, k - 1));
    }
  }

  /** The eight output bytes hold the 64-bit result. */
  lemma PackedReadsBack(w: word)
    ensures Word(PackLittle(w, 8)) == w
  {
    WideBits();
    PackedValue(w, 8);
  }

  // ----- tools/tag_vectors.py: one padded buffer, read eight bytes at a time

  function PaddedBuffer(msg: Bytes): (p: Bytes)
    ensures |p| == 8 * (|msg| / 8 + 1)
  {
    msg + Zeros(7 - |msg| % 8) + [|msg| % 256]
  }

  lemma PaddedBufferBlock(msg: Bytes, i: nat)
    requires i <= |msg| / 8
    ensures Word(PaddedBuffer(msg)[8 * i..8 * i + 8]) == MessageWords(msg)[i]
  {
    if i < |msg| / 8 { WholeBlock(msg, i); } else { LastBlock(msg); }
    assert PaddedBuffer(msg)[8 * i..8 * i + 8] == PaddedBlock(msg, i);
  }

  /** The compression loop over the padded buffer. */
  method AbsorbPadded(round: Round, start: State, msg: Bytes) returns (v: State)
    ensures v == AbsorbAll(round, start, MessageWords(msg))
  {
    v := start;
    var padded := PaddedBuffer(msg);
    ghost var words := MessageWords(msg);
    for i := 0 to |padded| / 8
      invariant v == AbsorbAll(round, start, words[..i])
    {
      PaddedBufferBlock(msg, i);
      AbsorbOneMore(round, start, words, i);
      v := Absorb(round, v, Word(padded[8 * i..8 * i + 8]));
    }
    assert words[..|words|] == words;
  }

  method SipHashPadded(round: Round, key: Bytes, msg: Bytes) returns (r: Result<Bytes, SipError>)
    ensures r == if |key| == 16 then Success(PackLittle(Sip(round, key, msg), 8)) else Failure(BadKeyLength)
  {
    if |key| != 16 { return Failure(BadKeyLength); }
    var v := AbsorbPadded(round, Init(key), msg);
    r := Success(PackLittle(Finish(round, v), 8));
  }

  // ----- tools/verify_pcap.py: whole words first, then one word built by or-ing the tail

  lemma {:induction false} ZerosAddNothing(s: Bytes, n: nat)
    ensures LittleEndian(s + Zeros(n)) == LittleEndian(s)
  {
    if n == 0 {
      assert s + Zeros(0) == s;
    } else {
      assert (s + Zeros(n))[..|s| + n - 1] == s + Zeros(n - 1);
      ZerosAddNothing(s, n - 1);
      ShlZero(8 * (|s| + n - 1));
    }
  }

  /** The last block of the padded message: the tail bytes, with the length on top. */
  lemma LastBlockValue(msg: Bytes)
    ensures LittleEndian(PaddedBlock(msg, |msg| / 8))
         == TailValue(msg[8 * (|msg| / 8)..], |msg| % 256)
  {
    WideBits();
    var block, tail := PaddedBlock(msg, |msg| / 8), msg[8 * (|msg| / 8)..];
    LastBlock(msg);
    assert block[..7] == tail + Zeros(7 - |tail|);
    ZerosAddNothing(tail, 7 - |tail|);
  }

  /** `acc | b << (8 * i)`. */
  function OrByte(acc: nat, b: byte, i: nat): nat {
    Or(acc, Shl(b, 8 * i))
  }

  /** The tail bytes so far, with the length byte on top. */
  ghost function TailValue(tail: Bytes, top: byte): nat {
    LittleEndian(tail) + TOP_BYTE * top
  }

  /** Or-ing in the next tail byte adds it to the number the tail holds so far. */
  lemma OrNextByte(tail: Bytes, i: nat, top: byte)
    requires i < |tail| < 8
    ensures OrByte(TailValue(tail[..i], top), tail[i], i) == TailValue(tail[..i + 1], top)
  {
    assert tail[..i + 1][..i] == tail[..i];
    WideBits();
    var gap := 56 - 8 * (i + 1);
    ShlTwice(top, gap, 8 * i + 8);
    OrByteIntoGap(LittleEndian(tail[..i]), tail[i], Shl(top, gap), 8 * i);
  }

  method SipHashWords(round: Round, key: Bytes, data: Bytes) returns (r: Result<word, SipError>)
    ensures r == if |key| >= 16 then Success(Sip(round, key, data)) else Failure(BadKeyLength)
  {
    if |key| < 16 { return Failure(BadKeyLength); }
    var v := Init(key);
    var words := WordList(data);
    for i := 0 to |words|
      invariant v == AbsorbAll(round, Init(key), words[..i])
    {
      var m := words[i];
      AbsorbOneMore(round, Init(key), words, i);
      v := Absorb(round, v, m);
    }
    assert words[..|words|] == words;
    r := Success(Finish(round, v));
  }

  /** The tail loop: the length byte on top, then each tail byte or-ed in at its place. */
  method LastWord(data: Bytes) returns (last: word)
    ensures last == Word(PaddedBlock(data, |data| / 8))
  {
    var tail := data[8 * (|data| / 8)..];
    var acc := TOP_BYTE * (|data| % 256);
    for i := 0 to |tail|
      invariant acc == TailValue(tail[..i], |data| % 256)
    {
      OrNextByte(tail, i, |data| % 256);
      acc := OrByte(acc, tail[i], i);
    }
    assert tail[..|tail|] == tail;
    LastBlockValue(data);
    WordBound(PaddedBlock(data, |data| / 8));
    last := acc;
  }

  method WordList(data: Bytes) returns (words: seq<word>)
    ensures words == MessageWords(data)
  {
    var count := |data| / 8;
    words := seq<word>(count, i requires 0 <= i < count => Word(data[8 * i..8 * i + 8]));
    forall i | 0 <= i < count ensures words[i] == MessageWords(data)[i] {
      WholeBlock(data, i);
    }
    var last := LastWord(data);
    words := words + [last];
  }
}
