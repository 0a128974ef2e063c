/** What both capture readers of tools/verify_pcap.py produce. */
module Capture {
  import opened Bytes
  import opened LinkLayer
  import opened Wrappers

  datatype Packet = Packet(tsNs: int, ip: Bytes)

  datatype CaptureError = NotPcap | StructError | IndexError

  /** A captured frame with its capture time. */
  datatype Frame = Frame(linktype: int, tsNs: int, bytes: Bytes)

  /** The packet of one frame, if it carries IP. */
  function PacketOf(f: Frame): seq<Packet> {
    match Extracted(f.linktype, f.bytes)
    case None => []
    case Some(ip) => [Packet(f.tsNs, ip)]
  }

  /** The IP packets of some frames, in order. */
  function Packets(frames: seq<Frame>): seq<Packet> {
    if frames == [] then [] else PacketOf(frames[0]) + Packets(frames[1..])
  }

  lemma PacketsOfOne(f: Frame)
    ensures Packets([f]) == PacketOf(f)
  {
    assert [f][1..] == [];
    assert PacketOf(f) + [] == PacketOf(f);
  }

  method AppendPacket(out: seq<Packet>, f: Frame) returns (r: seq<Packet>)
    ensures r == out + PacketOf(f)
  {
    var ip := ExtractIp(f.linktype, f.bytes);
    r := if ip.Some? then out + [Packet(f.tsNs, ip.value)] else out;
  }

  /** The same for the at most one frame of a pcapng block. */
  method AppendPackets(out: seq<Packet>, frames: seq<Frame>) returns (r: seq<Packet>)
    requires |frames| <= 1
    ensures r == out + Packets(frames)
  {
    if frames == [] { return out; }
    PacketsOfOne(frames[0]);
    assert frames == [frames[0]];
    r := AppendPacket(out, frames[0]);
  }

  lemma Associative<T>(a: seq<T>, b: seq<T>, c: seq<T>)
    ensures a + (b + c) == a + b + c
  {}
}
