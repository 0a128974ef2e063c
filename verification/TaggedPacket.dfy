/** The sender side: writing a tag into a packet (tools/tag_vectors.py, tagged_packet). */
module TaggedPacket {
  import opened Bytes
  import opened Checksum
  import opened PacketInput
  import opened Wrappers

  /** `b | 0x40`: the DF bit. */
  function SetDf(b: byte): byte {
    if b / 64 % 2 == 1 then b else b + 64
  }

  /** The identification and DF fields written, before the checksum. */
  function Marked(packet: Bytes, tag: uint16): (r: Bytes)
    requires |packet| >= 12
    ensures |r| == |packet|
  {
    packet[4 := tag / 256][5 := tag % 256][6 := SetDf(packet[6])]
  }

  /** The header as far as the packet holds it. */
  function HeaderLength(packet: Bytes): nat
    requires |packet| >= 1
  {
    Min(Ihl(packet), |packet|)
  }

  /** The checksum over the marked header with a zero checksum field. */
  function HeaderChecksum(packet: Bytes, tag: uint16): Result<uint16, HeaderError>
    requires |packet| >= 12
  {
    ChecksumOf(WithField(Marked(packet, tag), 0)[..HeaderLength(packet)])
  }

  function Tagged(packet: Bytes, tag: int): Result<Bytes, HeaderError> {
    if |packet| < 12 || !(0 <= tag < 0x1_0000) then Failure(OutOfRange)
    else match HeaderChecksum(packet, tag)
      case Failure(e) => Failure(e)
      case Success(c) => Success(WithField(Marked(packet, tag), c))
  }

  method TagPacket(packet: Bytes, tag: int) returns (r: Result<Bytes, HeaderError>)
    ensures r == Tagged(packet, tag)
  {
    var pkt := new byte[|packet|](i requires 0 <= i < |packet| => packet[i]);
    assert pkt[..] == packet;
    if pkt.Length <= 5 { return Failure(OutOfRange); }
    if !(0 <= tag / 256 < 256) { return Failure(OutOfRange); }
    pkt[4], pkt[5] := tag / 256, tag % 256;
    if pkt.Length <= 11 { return Failure(OutOfRange); }
    pkt[6] := SetDf(pkt[6]);
    var ihl := pkt[0] % 16 * 4;
    pkt[10], pkt[11] := 0, 0;
    assert pkt[..] == WithField(Marked(packet, tag), 0);
    var c := Ipv4Checksum(Take(pkt[..], ihl));
    assert Take(pkt[..], ihl) == WithField(Marked(packet, tag), 0)[..HeaderLength(packet)];
    if c.Failure? { return Failure(c.error); }
    pkt[10], pkt[11] := c.value / 256, c.value % 256;
    assert pkt[..] == WithField(Marked(packet, tag), c.value);
    r := Success(pkt[..]);
  }

  /** Tagging succeeds on every packet the specification covers. */
  lemma SupportedCanBeTagged(packet: Bytes, tag: int)
    requires Supported(packet) && 0 <= tag < 0x1_0000
    ensures Tagged(packet, tag).Success?
  {}

  /** Tagging fails only for a tag or a packet too short to write, or a cut header of odd length. */
  lemma TaggedExactly(packet: Bytes, tag: int)
    ensures Tagged(packet, tag).Success? <==>
      && |packet| >= 12 && 0 <= tag <= 0xFFFF
      && (|packet| % 2 == 0 || 4 * (packet[0] % 16) <= |packet|)
  {
    if |packet| >= 12 { assert 4 * (packet[0] % 16) % 2 == 0; }
  }

  lemma WrittenFields(packet: Bytes, tag: int)
    requires Tagged(packet, tag).Success?
    ensures var t := Tagged(packet, tag).value;
      && |t| == |packet| >= 12
      && U16(Big, t, 4) == tag
      && t[6] / 64 % 2 == 1 && t[6] % 64 == packet[6] % 64 && t[6] / 128 == packet[6] / 128
      && (forall i | 0 <= i < |t| && i !in {4, 5, 6, 10, 11} :: t[i] == packet[i])
  {}

  /** The receiver reads the tag back, the header verifies, and no other byte moved. */
  lemma TagIsReadBack(packet: Bytes, tag: int)
    requires Tagged(packet, tag).Success?
    ensures var t := Tagged(packet, tag).value;
      && |t| == |packet|
      && U16(Big, t, 4) == tag
      && t[6] / 64 % 2 == 1 && t[6] % 64 == packet[6] % 64 && t[6] / 128 == packet[6] / 128
      && (forall i | 0 <= i < |t| && i !in {4, 5, 6, 10, 11} :: t[i] == packet[i])
      && (packet[0] % 16 >= 3 ==> ChecksumOf(Take(t, 4 * (packet[0] % 16))) == Success(0))
      && (packet[0] % 16 < 3 ==> ChecksumOf(Take(t, 4 * (packet[0] % 16))) == Success(U16(Big, t, 10)))
  {
    var t, n, m := Tagged(packet, tag).value, HeaderLength(packet), Marked(packet, tag);
    if packet[0] % 16 >= 3 {
      assert Take(t, 4 * (packet[0] % 16)) == t[..n];
      assert n % 2 == 0;
      assert WithField(m, 0)[..n] == WithField(m[..n], 0);
      assert t[..n] == WithField(m[..n], Installed(m[..n]));
      InstalledVerifies(m[..n]);
    } else {
      assert Take(t, 4 * (packet[0] % 16)) == WithField(m, 0)[..n];
    }
  }

  /** Packets that differ only in what tagging writes have the same input. */
  lemma SameInputApart(packet: Bytes, t: Bytes)
    requires |t| == |packet| >= 12 && t[6] % 64 == packet[6] % 64
    requires forall i | 0 <= i < |t| && i !in {4, 5, 6, 10, 11} :: t[i] == packet[i]
    ensures Canonical(t) == Canonical(packet)
  {
    if |packet| >= 20 {
      assert U16(Big, t, 6) % 0x4000 == U16(Big, packet, 6) % 0x4000;
      assert Coverage(t) == Coverage(packet);
      if Supported(packet) {
        assert forall i: nat :: Authenticated(t, i) == Authenticated(packet, i);
        assert Canonical(t).value == Canonical(packet).value;
      }
    }
  }

  /** Writing any tag leaves the tag input, or the reason there is none, unchanged. */
  lemma TaggingKeepsInput(packet: Bytes, tag: int)
    requires Tagged(packet, tag).Success?
    ensures Canonical(Tagged(packet, tag).value) == Canonical(packet)
  {
    WrittenFields(packet, tag);
    SameInputApart(packet, Tagged(packet, tag).value);
  }
}
