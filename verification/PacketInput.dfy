/**
The canonical debuglet-tag-v1 input of a packet: which packets have one, which of their
bytes it authenticates, and the two tools that compute it by zeroing a buffer in place.
*/
module PacketInput {
  import opened Bits
  import opened Bytes
  import opened Wrappers

  datatype Refusal = TooShort | Ipv6 | NotIpv4 | Malformed | Fragment

  const INPUT_MAX := 64

  /** TOS, identification, flags and offset, TTL, header checksum. */
  const MUTABLE: seq<nat> := [1, 4, 5, 6, 7, 8, 10, 11]

  // ----- The canonical input

  function Ihl(raw: Bytes): nat
    requires |raw| >= 1
  {
    raw[0] % 16 * 4
  }

  function Total(raw: Bytes): nat
    requires |raw| >= 4
  {
    U16(Big, raw, 2)
  }

  function InputLength(raw: Bytes): nat
    requires |raw| >= 4
  {
    Min(INPUT_MAX, Total(raw))
  }

  /** Why a packet has no tag, or None. */
  function Coverage(raw: Bytes): Option<Refusal> {
    if |raw| == 0 then Some(TooShort)
    else if raw[0] / 16 == 6 then Some(Ipv6)
    else if raw[0] / 16 != 4 then Some(NotIpv4)
    else if |raw| < 20 then Some(TooShort)
    else if Ihl(raw) < 20 || Total(raw) < Ihl(raw) then Some(Malformed)
    else if U16(Big, raw, 6) % 0x4000 != 0 then Some(Fragment)
    else if |raw| < InputLength(raw) then Some(TooShort)
    else None
  }

  predicate Supported(raw: Bytes)
    ensures Supported(raw) ==> |raw| >= 20 && |raw| >= InputLength(raw) >= Ihl(raw) >= 20
  {
    Coverage(raw).None?
  }

  /** Where the transport checksum starts inside its header: ICMP, TCP, UDP. */
  function L4Checksum(protocol: byte): Option<nat> {
    if protocol == 1 then Some(2)
    else if protocol == 6 then Some(16)
    else if protocol == 17 then Some(6)
    else None
  }

  predicate TransportChecksum(raw: Bytes, i: nat)
    requires |raw| >= 20
  {
    var l4 := L4Checksum(raw[9]);
    l4.Some? && (i == Ihl(raw) + l4.value || i == Ihl(raw) + l4.value + 1)
  }

  /** The positions whose bytes the tag covers. */
  predicate Authenticated(raw: Bytes, i: nat)
    requires |raw| >= 20
  {
    i !in MUTABLE && !(20 <= i < Ihl(raw)) && !TransportChecksum(raw, i)
  }

  function Canonical(raw: Bytes): Result<Bytes, Refusal> {
    if Supported(raw) then
      Success(seq<byte>(InputLength(raw), i requires 0 <= i < InputLength(raw) =>
        if Authenticated(raw, i) then raw[i] else 0))
    else Failure(Coverage(raw).value)
  }

  // ----- What the tag covers

  /** Version, header length, total length and protocol are authenticated in every packet. */
  lemma FramingAuthenticated(raw: Bytes)
    requires |raw| >= 20 && Ihl(raw) >= 20
    ensures Authenticated(raw, 0) && Authenticated(raw, 2) && Authenticated(raw, 3) && Authenticated(raw, 9)
  {}

  /** Two packets agree on everything the first one's tag covers. */
  ghost predicate AgreeOnAuthenticated(p: Bytes, q: Bytes)
    requires Supported(p) && Supported(q)
  {
    forall i: nat | i < InputLength(p) && Authenticated(p, i) :: i < |q| && p[i] == q[i]
  }

  lemma SamePositions(p: Bytes, q: Bytes)
    requires Supported(p) && Supported(q)
    requires p[0] == q[0] && p[2] == q[2] && p[3] == q[3] && p[9] == q[9]
    ensures InputLength(p) == InputLength(q)
    ensures forall i: nat :: Authenticated(p, i) == Authenticated(q, i)
  {}

  /** The tag input is an exact projection: equal inputs are exactly agreement on the covered bytes. */
  lemma ProjectionIsExact(p: Bytes, q: Bytes)
    requires Supported(p) && Supported(q)
    ensures Canonical(p) == Canonical(q) <==> AgreeOnAuthenticated(p, q)
  {
    FramingAuthenticated(p);
    FramingAuthenticated(q);
    var a, b := Canonical(p).value, Canonical(q).value;
    if AgreeOnAuthenticated(p, q) {
      SamePositions(p, q);
      assert a == b;
    }
    if a == b {
      assert p[0] == a[0] == b[0] == q[0];
      assert p[2] == a[2] == b[2] == q[2];
      assert p[3] == a[3] == b[3] == q[3];
      assert p[9] == a[9] == b[9] == q[9];
      SamePositions(p, q);
      forall i: nat | i < InputLength(p) && Authenticated(p, i) ensures i < |q| && p[i] == q[i] {
        assert a[i] == b[i];
      }
    }
  }

  /** Canonicalising is idempotent. */
  lemma CanonicalIsIdempotent(raw: Bytes)
    requires Supported(raw)
    ensures Canonical(Canonical(raw).value) == Canonical(raw)
  {
    FramingAuthenticated(raw);
    var c := Canonical(raw).value;
    assert c[0] == raw[0] && c[2] == raw[2] && c[3] == raw[3] && c[9] == raw[9];
    assert c[6] == 0 && c[7] == 0;
    assert Supported(c);
    SamePositions(c, raw);
    assert Canonical(c).value == c;
  }

  /** Bytes after a covered packet, such as link-layer padding, never reach the input. */
  lemma TrailingBytesIgnored(raw: Bytes, more: Bytes)
    requires Supported(raw)
    ensures Canonical(raw + more) == Canonical(raw)
  {
    var r := raw + more;
    assert forall i | 0 <= i < |raw| :: r[i] == raw[i];
    SamePositions(r, raw);
    assert Canonical(r).value == Canonical(raw).value;
  }

  // ----- In plain numbers

  /** MF and the fragment offset are clear exactly in these two bytes. */
  lemma FragmentBits(a: byte, b: byte)
    ensures (a as int * 256 + b) % 0x4000 == 0 <==> a in {0x00, 0x40, 0x80, 0xC0} && b == 0
  {
    assert (a as int * 256 + b) % 0x4000 == 256 * (a % 64) + b;
  }

  /** Which packets have no tag, and why, byte by byte. */
  lemma RefusedExactly(raw: Bytes)
    ensures Coverage(raw) == Some(Ipv6) <==> |raw| > 0 && 0x60 <= raw[0] <= 0x6F
    ensures Coverage(raw) == Some(NotIpv4) <==> |raw| > 0 && !(0x40 <= raw[0] <= 0x4F) && !(0x60 <= raw[0] <= 0x6F)
    ensures Coverage(raw) == Some(Malformed) <==>
      |raw| >= 20 && 0x40 <= raw[0] <= 0x4F && (raw[0] < 0x45 || raw[2] as int * 256 + raw[3] < 4 * (raw[0] as int - 0x40))
    ensures Coverage(raw) == Some(Fragment) <==>
      && |raw| >= 20 && 0x45 <= raw[0] <= 0x4F && raw[2] as int * 256 + raw[3] >= 4 * (raw[0] as int - 0x40)
      && !(raw[6] in {0x00, 0x40, 0x80, 0xC0} && raw[7] == 0)
    ensures Coverage(raw).None? <==>
      && |raw| >= 20 && 0x45 <= raw[0] <= 0x4F && raw[2] as int * 256 + raw[3] >= 4 * (raw[0] as int - 0x40)
      && raw[6] in {0x00, 0x40, 0x80, 0xC0} && raw[7] == 0
      && (|raw| >= 64 || |raw| >= raw[2] as int * 256 + raw[3])
  {
    if |raw| >= 20 { FragmentBits(raw[6], raw[7]); }
  }

  /** The bytes routers, offload engines and the tagger itself may change, by offset. */
  predicate MayChange(raw: Bytes, i: nat)
    requires |raw| >= 20
  {
    var ihl := 4 * (raw[0] % 16);
    || i == 1                                             // TOS
    || i == 4 || i == 5 || i == 6 || i == 7               // identification, flags and offset
    || i == 8                                             // TTL
    || i == 10 || i == 11                                 // header checksum
    || 20 <= i < ihl                                      // options
    || (raw[9] == 1 && (i == ihl + 2 || i == ihl + 3))    // ICMP checksum
    || (raw[9] == 6 && (i == ihl + 16 || i == ihl + 17))  // TCP checksum
    || (raw[9] == 17 && (i == ihl + 6 || i == ihl + 7))   // UDP checksum
  }

  lemma AuthenticatedIsFixed(raw: Bytes, i: nat)
    requires |raw| >= 20
    ensures Authenticated(raw, i) <==> !MayChange(raw, i)
  {
    assert i in MUTABLE <==> i in {1, 4, 5, 6, 7, 8, 10, 11};
  }

  /** The input is the first min(64, total length) bytes with the changeable ones zeroed. */
  lemma InputBytes(raw: Bytes)
    requires Supported(raw)
    ensures var c := Canonical(raw).value;
      && |c| == Min(64, raw[2] as int * 256 + raw[3]) <= |raw|
      && forall i | 0 <= i < |c| :: c[i] == if MayChange(raw, i) then 0 else raw[i]
  {
    forall i | 0 <= i < InputLength(raw) ensures Authenticated(raw, i) <==> !MayChange(raw, i) {
      AuthenticatedIsFixed(raw, i);
    }
  }

  /** A changed byte on the way never changes the input; only the flags must not turn the packet into a fragment. */
  lemma ChangesOnTheWayIgnored(raw: Bytes, i: nat, b: byte)
    requires Supported(raw) && i < |raw| && MayChange(raw, i)
    requires (i == 6 ==> b in {0x00, 0x40, 0x80, 0xC0}) && (i == 7 ==> b == 0)
    ensures Canonical(raw[i := b]) == Canonical(raw)
  {
    var changed := raw[i := b];
    RefusedExactly(raw);
    RefusedExactly(changed);
    AuthenticatedIsFixed(raw, i);
    SamePositions(changed, raw);
    assert Canonical(changed).value == Canonical(raw).value;
  }

  /** Conversely packets with the same input agree on every other byte of its length: framing, addresses, ports, payload. */
  lemma SameInputSameFixedBytes(p: Bytes, q: Bytes, i: nat)
    requires Supported(p) && Supported(q) && Canonical(p) == Canonical(q)
    requires i < 64 && i < p[2] as int * 256 + p[3] && !MayChange(p, i)
    ensures i < |p| && i < |q| && p[i] == q[i]
  {
    ProjectionIsExact(p, q);
    AuthenticatedIsFixed(p, i);
    InputBytes(p);
  }

  // ----- tools/verify_pcap.py: tag_input

  /** The bytes zeroed so far: the mutable header fields, and the options below `options`. */
  predicate Zeroed(i: nat, fields: nat, options: nat)
    requires fields <= |MUTABLE|
  {
    i in MUTABLE[..fields] || 20 <= i < options
  }

  method TagInput(raw: Bytes) returns (r: Result<Bytes, Refusal>)
    ensures r == Canonical(raw)
  {
    if raw == [] { return Failure(TooShort); }
    var version := raw[0] / 16;
    if version == 6 { return Failure(Ipv6); }
    if version != 4 { return Failure(NotIpv4); }
    if |raw| < 20 { return Failure(TooShort); }
    var ihl := raw[0] % 16 * 4;
    var total := U16(Big, raw, 2);
    if ihl < 20 || total < ihl { return Failure(Malformed); }
    if U16(Big, raw, 6) % 0x4000 != 0 { return Failure(Fragment); }
    var n := Min(total, INPUT_MAX);
    if |raw| < n { return Failure(TooShort); }
    var pkt := new byte[n](i requires 0 <= i < n => raw[i]);
    ZeroHeader(raw, pkt, ihl);
    var l4 := L4Checksum(pkt[9]);
    if l4.Some? {
      var c := ihl + l4.value;
      if c < n { pkt[c] := 0; }
      if c + 1 < n { pkt[c + 1] := 0; }
    }
    assert pkt[..] == Canonical(raw).value;
    r := Success(pkt[..]);
  }

  /** The two zeroing loops over the header fields and the options. */
  method ZeroHeader(ghost raw: Bytes, pkt: array<byte>, ihl: nat)
    requires 20 <= ihl <= pkt.Length <= |raw|
    requires pkt[..] == raw[..pkt.Length]
    modifies pkt
    ensures forall i: nat | i < pkt.Length ::
      pkt[i] == if i in MUTABLE || 20 <= i < ihl then 0 else raw[i]
  {
    for k := 0 to |MUTABLE|
      invariant forall i: nat | i < pkt.Length :: pkt[i] == if Zeroed(i, k, 20) then 0 else raw[i]
    {
      assert MUTABLE[..k + 1] == MUTABLE[..k] + [MUTABLE[k]];
      pkt[MUTABLE[k]] := 0;
    }
    assert MUTABLE[..|MUTABLE|] == MUTABLE;
    for j := 20 to Min(ihl, pkt.Length)
      invariant forall i: nat | i < pkt.Length :: pkt[i] == if Zeroed(i, |MUTABLE|, j) then 0 else raw[i]
    {
      pkt[j] := 0;
    }
  }

  // ----- tools/tag_vectors.py: hash_input

  method HashInput(packet: Bytes) returns (r: Result<Bytes, Refusal>)
    ensures r == Canonical(packet)
  {
    if |packet| < 1 { return Failure(TooShort); }
    var version := packet[0] / 16;
    if version == 6 { return Failure(Ipv6); }
    if version != 4 { return Failure(NotIpv4); }
    if |packet| < 20 { return Failure(TooShort); }
    var ihl := packet[0] % 16 * 4;
    JoinBytes(packet[2], packet[3]);
    var total := Join(packet[2], packet[3]);
    if ihl < 20 || total < ihl { return Failure(Malformed); }
    JoinBytes(packet[6], packet[7]);
    if Join(packet[6], packet[7]) % 0x4000 != 0 { return Failure(Fragment); }
    var n := Min(INPUT_MAX, total);
    if |packet| < n { return Failure(TooShort); }
    var buf := new byte[n](i requires 0 <= i < n => packet[i]);
    ZeroHeader(packet, buf, ihl);
    if L4Checksum(buf[9]).Some? {
      var c := ihl + L4Checksum(buf[9]).value;
      for i := c to c + 2
        invariant forall k: nat | k < n ::
          buf[k] == if k in MUTABLE || 20 <= k < ihl || c <= k < i then 0 else packet[k]
      {
        if i < n { buf[i] := 0; }
      }
    }
    assert buf[..] == Canonical(packet).value;
    r := Success(buf[..]);
  }
}
