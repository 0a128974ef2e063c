/** Stripping link-layer headers down to the IP packet (tools/verify_pcap.py, extract_ip). */
module LinkLayer {
  import opened Bytes
  import opened PacketInput
  import opened Wrappers

  const LINKTYPE_NULL := 0
  const LINKTYPE_ETHERNET := 1
  const LINKTYPE_RAW := 101
  const LINKTYPE_LOOP := 108
  const LINKTYPE_LINUX_SLL := 113
  const LINKTYPE_IPV4 := 228
  const LINKTYPE_LINUX_SLL2 := 276

  predicate IsVlan(ethertype: nat) {
    ethertype == 0x8100 || ethertype == 0x88A8 || ethertype == 0x9100
  }

  predicate IsIp(ethertype: nat) {
    ethertype == 0x0800 || ethertype == 0x86DD
  }

  // ----- What is extracted

  /** The ethertype and offset reached by following VLAN tags as long as four more bytes exist. */
  function VlanWalk(frame: Bytes, ethertype: nat, off: nat): (nat, nat)
    requires off <= |frame|
    ensures VlanWalk(frame, ethertype, off).1 <= |frame|
    decreases |frame| - off
  {
    if IsVlan(ethertype) && |frame| >= off + 4
    then VlanWalk(frame, U16(Big, frame, off + 2), off + 4)
    else (ethertype, off)
  }

  /** Where the IP packet starts in a frame, if the link header says there is one. */
  function IpOffset(linktype: int, frame: Bytes): (r: Option<nat>)
    ensures r.Some? ==> r.value <= |frame|
  {
    if linktype == LINKTYPE_ETHERNET then
      if |frame| < 14 then None
      else
        var (ethertype, off) := VlanWalk(frame, U16(Big, frame, 12), 14);
        if IsIp(ethertype) then Some(off) else None
    else if linktype == LINKTYPE_RAW || linktype == LINKTYPE_IPV4 then Some(0)
    else if linktype == LINKTYPE_NULL || linktype == LINKTYPE_LOOP then
      if |frame| < 4 then None else Some(4)
    else if linktype == LINKTYPE_LINUX_SLL then
      if |frame| < 16 || !IsIp(U16(Big, frame, 14)) then None else Some(16)
    else if linktype == LINKTYPE_LINUX_SLL2 then
      if |frame| < 20 || !IsIp(U16(Big, frame, 0)) then None else Some(20)
    else None
  }

  /** An IPv4 packet cut at its total length, when the capture holds that much. */
  function TrimPadding(pkt: Bytes): Bytes {
    if |pkt| >= 4 && pkt[0] / 16 == 4 && 20 <= Total(pkt) <= |pkt| then pkt[..Total(pkt)] else pkt
  }

  predicate IsIpPacket(pkt: Bytes) {
    |pkt| > 0 && (pkt[0] / 16 == 4 || pkt[0] / 16 == 6)
  }

  function Extracted(linktype: int, frame: Bytes): Option<Bytes> {
    match IpOffset(linktype, frame)
    case None => None
    case Some(off) => if IsIpPacket(frame[off..]) then Some(TrimPadding(frame[off..])) else None
  }

  method ExtractIp(linktype: int, frame: Bytes) returns (r: Option<Bytes>)
    ensures r == Extracted(linktype, frame)
  {
    var off := 0;
    if linktype == LINKTYPE_ETHERNET {
      if |frame| < 14 { return None; }
      var ethertype := U16(Big, frame, 12);
      off := 14;
      while IsVlan(ethertype) && |frame| >= off + 4
        invariant 14 <= off <= |frame|
        invariant VlanWalk(frame, ethertype, off) == VlanWalk(frame, U16(Big, frame, 12), 14)
        decreases |frame| - off
      {
        ethertype := U16(Big, frame, off + 2);
        off := off + 4;
      }
      if !IsIp(ethertype) { return None; }
    } else if linktype == LINKTYPE_RAW || linktype == LINKTYPE_IPV4 {
      off := 0;
    } else if linktype == LINKTYPE_NULL || linktype == LINKTYPE_LOOP {
      if |frame| < 4 { return None; }
      off := 4;
    } else if linktype == LINKTYPE_LINUX_SLL {
      if |frame| < 16 { return None; }
      if !IsIp(U16(Big, frame, 14)) { return None; }
      off := 16;
    } else if linktype == LINKTYPE_LINUX_SLL2 {
      if |frame| < 20 { return None; }
      if !IsIp(U16(Big, frame, 0)) { return None; }
      off := 20;
    } else {
      return None;
    }
    var pkt := frame[off..];
    if pkt == [] || !(pkt[0] / 16 == 4 || pkt[0] / 16 == 6) { return None; }
    if pkt[0] / 16 == 4 && |pkt| >= 4 {
      var total := U16(Big, pkt, 2);
      if 20 <= total <= |pkt| { pkt := pkt[..total]; }
    }
    r := Some(pkt);
  }

  // ----- Encapsulation, and how extraction undoes it

  datatype VlanTag = VlanTag(tpid: uint16, tci: uint16)

  /** A link header in front of an IP packet; the ethertypes are those of IPv4 and IPv6. */
  datatype Link =
    | Ethernet(addresses: Bytes, tags: seq<VlanTag>, ethertype: uint16)
    | Raw
    | RawIpv4
    | Null(family: Bytes)
    | Loop(family: Bytes)
    | LinuxSll(prefix: Bytes, ethertype: uint16)
    | LinuxSll2(ethertype: uint16, suffix: Bytes)
  {
    predicate Valid() {
      match this
      case Ethernet(a, tags, kind) =>
        |a| == 12 && kind in {0x0800, 0x86DD} && forall t | t in tags :: t.tpid in {0x8100, 0x88A8, 0x9100}
      case Raw | RawIpv4 => true
      case Null(f) => |f| == 4
      case Loop(f) => |f| == 4
      case LinuxSll(p, kind) => |p| == 14 && kind in {0x0800, 0x86DD}
      case LinuxSll2(kind, s) => kind in {0x0800, 0x86DD} && |s| == 18
    }

    /** The link type a capture file records for it. */
    function LinkType(): int {
      match this
      case Ethernet(_, _, _) => 1
      case Raw => 101
      case RawIpv4 => 228
      case Null(_) => 0
      case Loop(_) => 108
      case LinuxSll(_, _) => 113
      case LinuxSll2(_, _) => 276
    }

    function Header(): Bytes {
      match this
      case Ethernet(a, tags, kind) => a + TagBytes(tags) + P16(Big, kind)
      case Raw | RawIpv4 => []
      case Null(f) => f
      case Loop(f) => f
      case LinuxSll(p, kind) => p + P16(Big, kind)
      case LinuxSll2(kind, s) => P16(Big, kind) + s
    }
  }

  function TagBytes(tags: seq<VlanTag>): (s: Bytes)
    ensures |s| == 4 * |tags|
  {
    if tags == [] then [] else P16(Big, tags[0].tpid) + P16(Big, tags[0].tci) + TagBytes(tags[1..])
  }

  /** From the type field after `before`, the walk passes every stacked tag and stops at the packet's own type. */
  lemma {:induction false} WalkPassesTags(before: Bytes, tags: seq<VlanTag>, ethertype: uint16, rest: Bytes)
    requires IsIp(ethertype) && forall t | t in tags :: IsVlan(t.tpid)
    ensures var frame := before + (TagBytes(tags) + P16(Big, ethertype) + rest);
      VlanWalk(frame, U16(Big, frame, |before|), |before| + 2) == (ethertype, |before| + 4 * |tags| + 2)
    decreases |tags|
  {
    var frame := before + (TagBytes(tags) + P16(Big, ethertype) + rest);
    if tags == [] {
      assert U16(Big, frame, |before|) == U16(Big, P16(Big, ethertype), 0);
    } else {
      var tag := P16(Big, tags[0].tpid) + P16(Big, tags[0].tci);
      assert U16(Big, frame, |before|) == U16(Big, P16(Big, tags[0].tpid), 0);
      assert frame == (before + tag) + (TagBytes(tags[1..]) + P16(Big, ethertype) + rest);
      WalkPassesTags(before + tag, tags[1..], ethertype, rest);
    }
  }

  lemma OffsetIsHeader(link: Link, rest: Bytes)
    requires link.Valid()
    ensures IpOffset(link.LinkType(), link.Header() + rest) == Some(|link.Header()|)
  {
    var frame := link.Header() + rest;
    match link
    case Ethernet(a, tags, kind) =>
      assert frame == a + (TagBytes(tags) + P16(Big, kind) + rest);
      WalkPassesTags(a, tags, kind, rest);
    case LinuxSll(p, kind) =>
      assert U16(Big, frame, 14) == U16(Big, P16(Big, kind), 0);
    case LinuxSll2(kind, s) =>
      assert U16(Big, frame, 0) == U16(Big, P16(Big, kind), 0);
    case _ =>
  }

  lemma P16OfU16(s: Bytes, i: nat)
    requires i + 2 <= |s|
    ensures U16(Big, s, i) < 0x1_0000 && P16(Big, U16(Big, s, i)) == s[i..i + 2]
  {
    var a: int, b: int := s[i], s[i + 1];
    assert (256 * a + b) / 256 == a && (256 * a + b) % 256 == b;
  }

  /** The tags a walk that stops at an IP type has passed. */
  lemma {:induction false} WalkReadTags(frame: Bytes, off: nat) returns (tags: seq<VlanTag>)
    requires 2 <= off <= |frame| && IsIp(VlanWalk(frame, U16(Big, frame, off - 2), off).0)
    ensures forall t | t in tags :: IsVlan(t.tpid)
    ensures var (kind, end) := VlanWalk(frame, U16(Big, frame, off - 2), off);
      off <= end && kind < 0x1_0000 && frame[off - 2..end] == TagBytes(tags) + P16(Big, kind)
    decreases |frame| - off
  {
    var here := U16(Big, frame, off - 2);
    P16OfU16(frame, off - 2);
    if IsVlan(here) && |frame| >= off + 4 {
      var rest := WalkReadTags(frame, off + 4);
      P16OfU16(frame, off);
      tags := [VlanTag(here, U16(Big, frame, off))] + rest;
      var end := VlanWalk(frame, here, off).1;
      assert frame[off - 2..end] == frame[off - 2..off] + frame[off..off + 2] + frame[off + 2..end];
    } else {
      tags := [];
    }
  }

  /** Whatever the header leads to, there is a link header that explains it. */
  lemma OffsetHasHeader(linktype: int, frame: Bytes) returns (link: Link)
    requires IpOffset(linktype, frame).Some?
    ensures link.Valid() && link.LinkType() == linktype && link.Header() == frame[..IpOffset(linktype, frame).value]
  {
    var off := IpOffset(linktype, frame).value;
    if linktype == LINKTYPE_ETHERNET {
      var tags := WalkReadTags(frame, 14);
      link := Ethernet(frame[..12], tags, VlanWalk(frame, U16(Big, frame, 12), 14).0);
      assert frame[..off] == frame[..12] + frame[12..off];
    } else if linktype == LINKTYPE_RAW {
      link := Raw;
    } else if linktype == LINKTYPE_IPV4 {
      link := RawIpv4;
    } else if linktype == LINKTYPE_NULL {
      link := Null(frame[..4]);
    } else if linktype == LINKTYPE_LOOP {
      link := Loop(frame[..4]);
    } else if linktype == LINKTYPE_LINUX_SLL {
      P16OfU16(frame, 14);
      link := LinuxSll(frame[..14], U16(Big, frame, 14));
    } else {
      P16OfU16(frame, 0);
      link := LinuxSll2(U16(Big, frame, 0), frame[2..20]);
    }
  }

  /** An IP packet with whatever follows it in the frame: an IPv4 packet ends where its total length says, if it can. */
  predicate IpInFront(rest: Bytes, ip: Bytes) {
    && |rest| > 0 && (0x40 <= rest[0] <= 0x4F || 0x60 <= rest[0] <= 0x6F)
    && if 0x40 <= rest[0] <= 0x4F && |rest| >= 4 && 20 <= rest[2] as int * 256 + rest[3] <= |rest|
       then ip == rest[..rest[2] as int * 256 + rest[3]]
       else ip == rest
  }

  lemma IpInFrontIsTrim(rest: Bytes, ip: Bytes)
    ensures IpInFront(rest, ip) <==> IsIpPacket(rest) && ip == TrimPadding(rest)
  {}

  /** A frame is a link header of this type with that IP packet behind it. */
  ghost predicate Encapsulates(link: Link, linktype: int, frame: Bytes, ip: Bytes) {
    && link.Valid() && link.LinkType() == linktype && link.Header() <= frame
    && IpInFront(frame[|link.Header()|..], ip)
  }

  /** Extraction is exact: it yields a packet if and only if the frame encapsulates that packet, in any supported way. */
  lemma ExtractIsExact(linktype: int, frame: Bytes, ip: Bytes)
    ensures Extracted(linktype, frame) == Some(ip) <==> exists link :: Encapsulates(link, linktype, frame, ip)
  {
    if Extracted(linktype, frame) == Some(ip) {
      var link := OffsetHasHeader(linktype, frame);
      IpInFrontIsTrim(frame[|link.Header()|..], ip);
      assert Encapsulates(link, linktype, frame, ip);
    }
    if link :| Encapsulates(link, linktype, frame, ip) {
      var rest := frame[|link.Header()|..];
      assert frame == link.Header() + rest;
      IpInFrontIsTrim(rest, ip);
      OffsetIsHeader(link, rest);
    }
  }

  /** Extraction undoes encapsulation, up to the padding it cuts. */
  lemma ExtractIsTrim(link: Link, pkt: Bytes)
    requires link.Valid() && IsIpPacket(pkt)
    ensures Extracted(link.LinkType(), link.Header() + pkt) == Some(TrimPadding(pkt))
  {
    assert (link.Header() + pkt)[|link.Header()|..] == pkt;
    IpInFrontIsTrim(pkt, TrimPadding(pkt));
    assert Encapsulates(link, link.LinkType(), link.Header() + pkt, TrimPadding(pkt));
    ExtractIsExact(link.LinkType(), link.Header() + pkt, TrimPadding(pkt));
  }

  /** A whole IPv4 packet comes back unchanged from any encapsulation, whatever padding follows it. */
  lemma ExtractUndoesEncapsulation(link: Link, ip: Bytes, padding: Bytes)
    requires link.Valid()
    requires |ip| >= 20 && ip[0] / 16 == 4 && Total(ip) == |ip|
    ensures Extracted(link.LinkType(), link.Header() + ip + padding) == Some(ip)
  {
    assert link.Header() + ip + padding == link.Header() + (ip + padding);
    ExtractIsTrim(link, ip + padding);
    assert (ip + padding)[..|ip|] == ip;
  }

  /** Cutting the padding never changes the tag input, nor the reason a packet has none. */
  lemma TrimKeepsInput(pkt: Bytes)
    ensures Canonical(TrimPadding(pkt)) == Canonical(pkt)
  {
    var t := TrimPadding(pkt);
    if t != pkt {
      assert t + pkt[|t|..] == pkt;
      if Supported(t) { TrailingBytesIgnored(t, pkt[|t|..]); }
    }
  }

  /** Whatever the encapsulation, the tag input of a captured IP packet is that of the packet sent. */
  lemma ExtractKeepsInput(link: Link, pkt: Bytes)
    requires link.Valid() && IsIpPacket(pkt)
    ensures var r := Extracted(link.LinkType(), link.Header() + pkt);
      r.Some? && Canonical(r.value) == Canonical(pkt)
  {
    ExtractIsTrim(link, pkt);
    TrimKeepsInput(pkt);
  }
}
