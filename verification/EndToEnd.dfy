/**
From the sender's operations to the verifier's verdict, stated with the primitives themselves: HMAC, the SipHash of
its first sixteen bytes, and the times of the schedule.
*/
module EndToEnd {
  import Arithmetic
  import opened Bytes
  import opened Capture
  import opened Crypto
  import opened HashChain
  import opened LinkLayer
  import opened PacketInput
  import opened Schedule
  import opened SipHash
  import opened TaggedPacket
  import opened Tesla
  import opened Verifier
  import opened Wrappers

  /** The tag of a run's packet in an epoch: HKDF of the chain key for the run, SipHash under its first half, 16 bits. */
  function WireTag(p: Primitives, chainKey: Bytes, id: RunId, input: Bytes): int {
    var ak := p.hmac(p.hmac(Zeros(32), chainKey), id + [1]);
    Sip(p.round, ak[..16], input) % 0x1_0000
  }

  lemma SchemeIsWireTag(p: Primitives, chainKey: Bytes, id: RunId, input: Bytes)
    ensures SchemeV1(p).tag(chainKey, id, input) == WireTag(p, chainKey, id, input)
  {
    TagIsLowBits(p, p.hmac(p.hmac(Zeros(32), chainKey), id + [1]), input);
  }

  /** What HKDF and the tag of the specification give is the tag on the wire. */
  lemma DerivedTagIsWireTag(p: Primitives, chainKey: Bytes, id: RunId, input: Bytes, ak: Bytes, tag: uint16)
    requires Hkdf(p, chainKey, id, 32) == Success(ak) && Tag(p, ak, input) == Success(tag)
    ensures tag == WireTag(p, chainKey, id, input)
  {
    MeasurementKeyIsHkdf(p, chainKey, id);
    TagIsLowBits(p, ak, input);
  }

  // ----- What the verifier attributes

  /** A schedule, packet and run list the verifier does not refuse. */
  ghost predicate Considered(p: Primitives, pkt: Packet, t: Verifier.Tesla, ids: seq<RunId>) {
    var s := t.timing;
    && Coverage(pkt.ip).None? && s.delayNs > 0 && s.d >= 2 && ids != [] && t.disclosedEpoch >= 0
    && t.disclosedKey.Some? && t.anchorKey == Some(HashN(p.sha256, t.disclosedKey.value, t.disclosedEpoch))
    && pkt.tsNs < s.anchorNs + (t.disclosedEpoch + 1) * s.delayNs
  }

  /** Captured in epoch e or e + 1, before the key of e could have become public. */
  predicate Timely(pkt: Packet, t: Verifier.Tesla, tolerance: int, e: int) {
    var s := t.timing;
    && 1 <= e <= t.disclosedEpoch
    && s.anchorNs + e * s.delayNs <= pkt.tsNs < s.anchorNs + (e + 2) * s.delayNs
    && pkt.tsNs + tolerance < s.anchorNs + (e + s.d) * s.delayNs - 5_000_000_000
  }

  /** The run's tag under a chain key is in the packet. */
  predicate Carries(p: Primitives, ip: Bytes, chainKey: Bytes, id: RunId)
    requires Coverage(ip).None?
  {
    WireTag(p, chainKey, id, Canonical(ip).value) == ip[4] as int * 256 + ip[5]
  }

  /** Epoch e explains the packet as one of the run: the disclosed key, hashed back to e, gives its tag in time. */
  ghost predicate Explains(p: Primitives, pkt: Packet, t: Verifier.Tesla, tolerance: int, id: RunId, e: int)
    requires Coverage(pkt.ip).None? && t.disclosedKey.Some?
  {
    Timely(pkt, t, tolerance, e) && Carries(p, pkt.ip, HashN(p.sha256, t.disclosedKey.value, t.disclosedEpoch - e), id)
  }

  lemma TwoEpochs(ts: int, e: int, s: Timing)
    requires s.delayNs > 0 && e >= 1
    ensures EpochOf(ts, s) == e || EpochOf(ts, s) == e + 1
       <==> s.anchorNs + e * s.delayNs <= ts < s.anchorNs + (e + 2) * s.delayNs
  {
    EpochIsInterval(ts, e, s);
    EpochIsInterval(ts, e + 1, s);
  }

  lemma UpToEpoch(ts: int, tau: int, s: Timing)
    requires s.delayNs > 0
    ensures EpochOf(ts, s) <= tau <==> tau >= 0 && ts < s.anchorNs + (tau + 1) * s.delayNs
  {
    var e := EpochOf(ts, s);
    EpochIsInterval(ts, e, s);
    if e <= tau { Arithmetic.MulMonotone(e + 1, tau + 1, s.delayNs); }
    if 0 <= tau < e { Arithmetic.MulMonotone(tau + 1, e, s.delayNs); }
  }

  lemma ConsideredIsUnrefused(p: Primitives, pkt: Packet, t: Verifier.Tesla, ids: seq<RunId>)
    ensures Considered(p, pkt, t, ids) <==> EarlyRefusal(SchemeV1(p), pkt, t, ids).None?
  {
    if t.timing.delayNs > 0 { UpToEpoch(pkt.tsNs, t.disclosedEpoch, t.timing); }
  }

  lemma InTimeIsUsable(pkt: Packet, t: Verifier.Tesla, tolerance: int, e: int)
    requires t.timing.delayNs > 0
    ensures Usable(pkt, t, tolerance, e) <==> Timely(pkt, t, tolerance, e)
  {
    if e >= 1 { TwoEpochs(pkt.tsNs, e, t.timing); }
  }

  lemma WireTagIsRead(p: Primitives, ip: Bytes, key: Bytes, id: RunId)
    requires Coverage(ip).None?
    ensures KeyReproduces(SchemeV1(p), ip, key, id) <==> Carries(p, ip, key, id)
  {
    SchemeIsWireTag(p, key, id, Canonical(ip).value);
  }

  lemma ExplainsIsReproduces(p: Primitives, pkt: Packet, t: Verifier.Tesla, tolerance: int, id: RunId, e: int)
    requires Coverage(pkt.ip).None? && t.disclosedKey.Some? && t.timing.delayNs > 0
    ensures Explains(p, pkt, t, tolerance, id, e) <==> Reproduces(SchemeV1(p), pkt, t, tolerance, id, e)
  {
    InTimeIsUsable(pkt, t, tolerance, e);
    if Timely(pkt, t, tolerance, e) {
      var key := HashN(p.sha256, t.disclosedKey.value, t.disclosedEpoch - e);
      assert EpochKey(SchemeV1(p), t, e) == key;
      WireTagIsRead(p, pkt.ip, key, id);
    }
  }

  /** The verifier reports a run with an epoch exactly if it is listed and that is the newest epoch to explain the packet. */
  method Attribute(p: Primitives, pkt: Packet, t: Verifier.Tesla, ids: seq<RunId>, tolerance: int) returns (v: Verdict)
    ensures v.matches != [] ==> Considered(p, pkt, t, ids)
    ensures Considered(p, pkt, t, ids) ==>
      forall m :: m in v.matches <==>
        && m.id in ids && Explains(p, pkt, t, tolerance, m.id, m.epoch)
        && forall e | Explains(p, pkt, t, tolerance, m.id, e) :: e <= m.epoch
  {
    v := VerifyPacket(p, pkt, t, ids, tolerance);
    ConsideredIsUnrefused(p, pkt, t, ids);
    if Considered(p, pkt, t, ids) {
      forall id, e ensures Explains(p, pkt, t, tolerance, id, e) <==> Reproduces(SchemeV1(p), pkt, t, tolerance, id, e) {
        ExplainsIsReproduces(p, pkt, t, tolerance, id, e);
      }
      forall m ensures m in v.matches <==>
        && m.id in ids && Explains(p, pkt, t, tolerance, m.id, m.epoch)
        && forall e | Explains(p, pkt, t, tolerance, m.id, e) :: e <= m.epoch
      {
        ReportedExactly(SchemeV1(p), pkt, t, ids, tolerance, m);
      }
    }
  }

  // ----- From sender to verdict

  /** The sender's side: derive, hash, tag. */
  method Send(p: Primitives, chainKey: Bytes, id: RunId, packet: Bytes) returns (sent: Bytes)
    requires Supported(packet)
    ensures Tagged(packet, WireTag(p, chainKey, id, Canonical(packet).value)) == Success(sent)
  {
    var ak := HkdfCounted(p, chainKey, id, 32);
    var input := HashInput(packet);
    HkdfWrittenOut(p, chainKey, id, 32, 0);
    var tag := TagOf(p, ak.value, input.value);
    TagIsLowBits(p, ak.value, input.value);
    DerivedTagIsWireTag(p, chainKey, id, input.value, ak.value, tag.value);
    SupportedCanBeTagged(packet, tag.value);
    var r := TagPacket(packet, tag.value);
    sent := r.value;
  }

  /** What was sent is what the honest executor of module Tesla sends. */
  lemma SentIsSent(p: Primitives, chainKey: Bytes, id: RunId, packet: Bytes, sent: Bytes)
    requires Supported(packet)
    requires Tagged(packet, WireTag(p, chainKey, id, Canonical(packet).value)) == Success(sent)
    ensures sent == Sent(SchemeV1(p), chainKey, id, packet)
  {
    SchemeIsWireTag(p, chainKey, id, Canonical(packet).value);
  }

  /** The newer key reproduces the tag too. */
  predicate AgainInNext(p: Primitives, timing: Timing, keys: seq<Bytes>, e: nat, ts: int, id: RunId, input: Bytes)
    requires e < |keys|
  {
    && ts >= timing.anchorNs + (e + 1) * timing.delayNs && e + 1 < |keys|
    && WireTag(p, keys[e + 1], id, input) == WireTag(p, keys[e], id, input)
  }

  lemma NextEpochStarts(ts: int, e: nat, s: Timing)
    requires s.delayNs > 0 && e >= 1 && e <= EpochOf(ts, s) <= e + 1
    ensures EpochOf(ts, s) == e + 1 <==> ts >= s.anchorNs + (e + 1) * s.delayNs
  {
    EpochIsInterval(ts, e + 1, s);
    EpochIsInterval(ts, e, s);
  }

  lemma ExpectedIsAgain(p: Primitives, timing: Timing, keys: seq<Bytes>, e: nat, ts: int, id: RunId, packet: Bytes)
    requires timing.delayNs > 0 && e >= 1 && Supported(packet) && e < |keys| && EpochOf(ts, timing) < |keys|
    requires e <= EpochOf(ts, timing) <= e + 1
    ensures ExpectedEpoch(SchemeV1(p), keys, packet, id, e, EpochOf(ts, timing))
         == if AgainInNext(p, timing, keys, e, ts, id, Canonical(packet).value) then e + 1 else e
  {
    var input := Canonical(packet).value;
    NextEpochStarts(ts, e, timing);
    SchemeIsWireTag(p, keys[e], id, input);
    if EpochOf(ts, timing) == e + 1 { SchemeIsWireTag(p, keys[e + 1], id, input); }
  }

  /** Captured in time: epochs and times that let an honest packet of epoch e be attributed. */
  predicate InTime(timing: Timing, tau: nat, tolerance: int, e: nat, ts: int) {
    && timing.delayNs > 0 && timing.d >= 2 && 1 <= e <= tau
    && timing.anchorNs + e * timing.delayNs <= ts < timing.anchorNs + (e + 2) * timing.delayNs
    && ts < timing.anchorNs + (tau + 1) * timing.delayNs
    && ts + tolerance < timing.anchorNs + (e + timing.d) * timing.delayNs - 5_000_000_000
  }

  lemma InTimeIsStillSecret(timing: Timing, tau: nat, tolerance: int, e: nat, ts: int)
    requires InTime(timing, tau, tolerance, e, ts)
    ensures e <= EpochOf(ts, timing) <= e + 1 && EpochOf(ts, timing) <= tau && StillSecret(e, ts, tolerance, timing)
  {
    TwoEpochs(ts, e, timing);
    UpToEpoch(ts, tau, timing);
  }

  lemma HonestVerdict(p: Primitives, timing: Timing, keys: seq<Bytes>, tau: nat, ids: seq<RunId>, tolerance: int,
                      packet: Bytes, id: RunId, e: nat, link: Link, padding: Bytes, ts: int, sent: Bytes)
    requires HonestChain(p.sha256, keys) && tau < |keys| && InTime(timing, tau, tolerance, e, ts)
    requires Supported(packet) && link.Valid() && id in ids && sent == Sent(SchemeV1(p), keys[e], id, packet)
    ensures var ip := Extracted(link.LinkType(), link.Header() + (sent + padding));
      && ip.Some?
      && Match(id, if AgainInNext(p, timing, keys, e, ts, id, Canonical(packet).value) then e + 1 else e)
         in Verify(SchemeV1(p), Packet(ts, ip.value), Published(timing, keys, tau), ids, tolerance).matches
  {
    InTimeIsStillSecret(timing, tau, tolerance, e, ts);
    ExpectedIsAgain(p, timing, keys, e, ts, id, packet);
    HonestPacketIsAttributed(SchemeV1(p), timing, keys, tau, ids, tolerance, packet, id, e, link, padding, ts);
  }

  /**
  A covered packet sent for a listed run in epoch e, behind any link header and with any padding, captured in epoch e
  or e + 1 while its key was secret, is attributed to that run once the capture epoch's key is disclosed: under e, or
  under e + 1 if that epoch's key happens to give the same tag.
  */
  method SendAndVerify(p: Primitives, timing: Timing, keys: seq<Bytes>, tau: nat, ids: seq<RunId>, tolerance: int,
                       packet: Bytes, id: RunId, e: nat, link: Link, padding: Bytes, ts: int) returns (v: Verdict)
    requires HonestChain(p.sha256, keys) && tau < |keys| && InTime(timing, tau, tolerance, e, ts)
    requires Supported(packet) && link.Valid() && id in ids
    ensures Match(id, if AgainInNext(p, timing, keys, e, ts, id, Canonical(packet).value) then e + 1 else e) in v.matches
  {
    var sent := Send(p, keys[e], id, packet);
    SentIsSent(p, keys[e], id, packet, sent);
    HonestVerdict(p, timing, keys, tau, ids, tolerance, packet, id, e, link, padding, ts, sent);
    var ip := ExtractIp(link.LinkType(), link.Header() + (sent + padding));
    v := VerifyPacket(p, Packet(ts, ip.value), Published(timing, keys, tau), ids, tolerance);
  }
}
