/**
What attribution guarantees: safety against anyone who only learns keys as they are disclosed,
completeness for an honest sender, and stability of a verdict as more keys are disclosed.
*/
module Tesla {
  import opened Bytes
  import opened Capture
  import opened Checksum
  import opened Crypto
  import opened HashChain
  import opened LinkLayer
  import opened PacketInput
  import opened Schedule
  import opened TaggedPacket
  import opened Verifier
  import opened Wrappers

  // ----- Disclosure runs

  /** True time, and the chain indices whose keys somebody outside the executor can have by then. */
  datatype World = World(clock: int, known: set<int>)

  /** Before anything is disclosed only the public anchor k_0 is known. */
  ghost predicate Start(w: World) {
    w.known == {0}
  }

  /** Time passes, a key is disclosed no earlier than scheduled, or a known key is hashed to the one before it. */
  ghost predicate Step(s: Timing, w: World, w': World) {
    || (w'.known == w.known && w.clock <= w'.clock)
    || (w'.clock == w.clock && exists j :: Disclose(s, w, w', j))
    || (w'.clock == w.clock && exists j :: Derive(w, w', j))
  }

  ghost predicate Disclose(s: Timing, w: World, w': World, j: int) {
    j >= 0 && w.clock >= SecretUntil(j, s) && w'.known == w.known + {j}
  }

  ghost predicate Derive(w: World, w': World, j: int) {
    j >= 1 && j in w.known && w'.known == w.known + {j - 1}
  }

  ghost predicate IsRun(s: Timing, run: seq<World>) {
    && |run| > 0 && Start(run[0])
    && forall i | 0 <= i < |run| - 1 :: Step(s, run[i], run[i + 1])
  }

  /** In every run, a key other than the anchor is known only once its own secrecy has ended. */
  lemma {:induction false} KnownOnlyAfterSecrecy(s: Timing, run: seq<World>, i: nat, e: int)
    requires s.delayNs > 0 && IsRun(s, run) && i < |run|
    requires e >= 1 && e in run[i].known
    ensures SecretUntil(e, s) <= run[i].clock
    decreases i
  {
    if i > 0 && e in run[i - 1].known {
      KnownOnlyAfterSecrecy(s, run, i - 1, e);
      assert Step(s, run[i - 1], run[i]);
    } else if i > 0 {
      assert Step(s, run[i - 1], run[i]);
      if Derive(run[i - 1], run[i], e + 1) {
        KnownOnlyAfterSecrecy(s, run, i - 1, e + 1);
        SecretUntilMonotone(e, e + 1, s);
      }
    }
  }

  /** Some run lets the key of e be known by the given time. */
  ghost predicate CanBeKnownBy(s: Timing, e: int, time: int) {
    exists run: seq<World> :: IsRun(s, run) && run[|run| - 1].clock <= time && e in run[|run| - 1].known
  }

  /** The receiver's test is exact: it passes if and only if no disclosure run could have revealed the key in time. */
  lemma SafetyTestIsExact(s: Timing, e: int, ts: int, tolerance: int)
    requires s.delayNs > 0 && e >= 1
    ensures StillSecret(e, ts, tolerance, s) <==> !CanBeKnownBy(s, e, ts + tolerance)
  {
    if CanBeKnownBy(s, e, ts + tolerance) {
      var run: seq<World> :| IsRun(s, run) && run[|run| - 1].clock <= ts + tolerance && e in run[|run| - 1].known;
      KnownOnlyAfterSecrecy(s, run, |run| - 1, e);
    }
    if !StillSecret(e, ts, tolerance, s) {
      var w0 := World(SecretUntil(e, s), {0});
      var w1 := World(SecretUntil(e, s), {0, e});
      assert Disclose(s, w0, w1, e);
      var run := [w0, w1];
      assert IsRun(s, run);
    }
  }

  /**
  Safety over every run: whenever a packet is attributed to epoch e, then up to its capture time plus
  the tolerance no key of index e or above was known to anyone in any disclosure run.
  */
  lemma AttributionIsSafe(c: Scheme, pkt: Packet, t: Verifier.Tesla, ids: seq<RunId>, tolerance: int, m: Match,
                          run: seq<World>, i: nat, j: int)
    requires m in Verify(c, pkt, t, ids, tolerance).matches
    requires IsRun(t.timing, run) && i < |run| && run[i].clock <= pkt.tsNs + tolerance
    requires j >= m.epoch
    ensures j !in run[i].known
  {
    ReportedExactly(c, pkt, t, ids, tolerance, m);
    StillSecretMonotone(m.epoch, j, pkt.tsNs, tolerance, t.timing);
    if j in run[i].known { KnownOnlyAfterSecrecy(t.timing, run, i, j); }
  }

  /** A match names a listed run and a candidate epoch whose key reproduces the tag. */
  lemma AttributionIsCandidate(c: Scheme, pkt: Packet, t: Verifier.Tesla, ids: seq<RunId>, tolerance: int, m: Match)
    requires m in Verify(c, pkt, t, ids, tolerance).matches
    ensures EarlyRefusal(c, pkt, t, ids).None?
    ensures m.id in ids && 1 <= m.epoch <= t.disclosedEpoch
    ensures m.epoch == PacketEpoch(pkt, t) || m.epoch == PacketEpoch(pkt, t) - 1
    ensures KeyReproduces(c, pkt.ip, EpochKey(c, t, m.epoch), m.id)
  {
    ReportedExactly(c, pkt, t, ids, tolerance, m);
  }

  /** The key a match was made with hashes back to the published anchor. */
  lemma AttributionIsAnchored(c: Scheme, pkt: Packet, t: Verifier.Tesla, ids: seq<RunId>, tolerance: int, m: Match)
    requires m in Verify(c, pkt, t, ids, tolerance).matches
    ensures t.disclosedKey.Some? && m.epoch >= 0
    ensures Some(HashN(c.sha256, EpochKey(c, t, m.epoch), m.epoch)) == t.anchorKey
  {
    AttributionIsCandidate(c, pkt, t, ids, tolerance, m);
    HashNSum(c.sha256, t.disclosedKey.value, t.disclosedEpoch - m.epoch, m.epoch);
  }

  // ----- An honest executor

  /** The schedule of an honest chain whose keys up to tau are disclosed. */
  function Published(timing: Timing, keys: seq<Bytes>, tau: nat): Verifier.Tesla
    requires tau < |keys|
  {
    Verifier.Tesla(timing, tau, Some(keys[tau]), Some(keys[0]))
  }

  /** Whatever was disclosed, the verifier works with the chain's own keys. */
  lemma HonestKeys(c: Scheme, timing: Timing, keys: seq<Bytes>, tau: nat, e: nat)
    requires HonestChain(c.sha256, keys) && e <= tau < |keys|
    ensures EpochKey(c, Published(timing, keys, tau), e) == keys[e]
    ensures HashN(c.sha256, keys[tau], tau) == keys[0]
  {
    EarlierKey(c.sha256, keys, e, tau);
    EarlierKey(c.sha256, keys, 0, tau);
  }

  /** The tag an executor writes for a run in an epoch. */
  function SenderTag(c: Scheme, key: Bytes, id: RunId, packet: Bytes): uint16
    requires Supported(packet)
  {
    c.tag(key, id, Canonical(packet).value)
  }

  /** What the executor sends. */
  function Sent(c: Scheme, key: Bytes, id: RunId, packet: Bytes): Bytes
    requires Supported(packet)
  {
    SupportedCanBeTagged(packet, SenderTag(c, key, id, packet));
    Tagged(packet, SenderTag(c, key, id, packet)).value
  }

  /** The receiver sees the sender's input and tag in the sent packet, padded or not. */
  lemma SentIsReproduced(c: Scheme, key: Bytes, id: RunId, packet: Bytes, padding: Bytes)
    requires Supported(packet)
    ensures Supported(Sent(c, key, id, packet)) && Supported(Sent(c, key, id, packet) + padding)
    ensures Canonical(Sent(c, key, id, packet) + padding) == Canonical(packet)
    ensures U16(Big, Sent(c, key, id, packet) + padding, 4) == SenderTag(c, key, id, packet)
  {
    var tag, sent := SenderTag(c, key, id, packet), Sent(c, key, id, packet);
    SupportedCanBeTagged(packet, tag);
    TaggingKeepsInput(packet, tag);
    TagIsReadBack(packet, tag);
    TrailingBytesIgnored(sent, padding);
  }

  lemma TrimKeepsTag(ip: Bytes)
    requires |ip| >= 20
    ensures |TrimPadding(ip)| >= 20 && U16(Big, TrimPadding(ip), 4) == U16(Big, ip, 4)
  {}

  /** Link-layer extraction keeps both the input and the tag. */
  lemma ExtractionKeepsTag(link: Link, ip: Bytes)
    requires link.Valid() && Supported(ip)
    ensures var r := Extracted(link.LinkType(), link.Header() + ip);
      && r.Some? && Supported(r.value)
      && Canonical(r.value) == Canonical(ip) && U16(Big, r.value, 4) == U16(Big, ip, 4)
  {
    ExtractIsTrim(link, ip);
    TrimKeepsInput(ip);
    TrimKeepsTag(ip);
  }

  /** The epoch an honest packet is attributed to: its own, unless the next key happens to give the same tag. */
  function ExpectedEpoch(c: Scheme, keys: seq<Bytes>, packet: Bytes, id: RunId, e: nat, captureEpoch: nat): nat
    requires Supported(packet) && e < |keys| && captureEpoch < |keys|
  {
    if captureEpoch == e + 1 && SenderTag(c, keys[e + 1], id, packet) == SenderTag(c, keys[e], id, packet)
    then e + 1 else e
  }

  /** An honest packet in time: nothing refuses it, and which epochs reproduce its tag. */
  lemma HonestTagReproduces(c: Scheme, timing: Timing, keys: seq<Bytes>, tau: nat, ids: seq<RunId>, tolerance: int,
                            packet: Bytes, id: RunId, e: nat, pkt: Packet)
    requires HonestChain(c.sha256, keys) && 1 <= e <= tau < |keys| && timing.delayNs > 0
    requires timing.d >= MIN_DISCLOSURE_DELAY
    requires Supported(packet) && Supported(pkt.ip) && Canonical(pkt.ip) == Canonical(packet)
    requires U16(Big, pkt.ip, 4) == SenderTag(c, keys[e], id, packet)
    requires e <= EpochOf(pkt.tsNs, timing) <= e + 1 && EpochOf(pkt.tsNs, timing) <= tau
    requires StillSecret(e, pkt.tsNs, tolerance, timing) && id in ids
    ensures var t, capture := Published(timing, keys, tau), EpochOf(pkt.tsNs, timing);
      && EarlyRefusal(c, pkt, t, ids).None?
      && Reproduces(c, pkt, t, tolerance, id, e)
      && (Reproduces(c, pkt, t, tolerance, id, capture)
          <==> SenderTag(c, keys[capture], id, packet) == SenderTag(c, keys[e], id, packet))
  {
    var capture := EpochOf(pkt.tsNs, timing);
    HonestKeys(c, timing, keys, tau, e);
    HonestKeys(c, timing, keys, tau, capture);
    StillSecretMonotone(e, capture, pkt.tsNs, tolerance, timing);
  }

  lemma HonestTagIsReported(c: Scheme, timing: Timing, keys: seq<Bytes>, tau: nat, ids: seq<RunId>, tolerance: int,
                            packet: Bytes, id: RunId, e: nat, pkt: Packet)
    requires HonestChain(c.sha256, keys) && 1 <= e <= tau < |keys| && timing.delayNs > 0
    requires timing.d >= MIN_DISCLOSURE_DELAY
    requires Supported(packet) && Supported(pkt.ip) && Canonical(pkt.ip) == Canonical(packet)
    requires U16(Big, pkt.ip, 4) == SenderTag(c, keys[e], id, packet)
    requires e <= EpochOf(pkt.tsNs, timing) <= e + 1 && EpochOf(pkt.tsNs, timing) <= tau
    requires StillSecret(e, pkt.tsNs, tolerance, timing) && id in ids
    ensures Match(id, ExpectedEpoch(c, keys, packet, id, e, EpochOf(pkt.tsNs, timing)))
         in Verify(c, pkt, Published(timing, keys, tau), ids, tolerance).matches
  {
    var t := Published(timing, keys, tau);
    var expected := ExpectedEpoch(c, keys, packet, id, e, EpochOf(pkt.tsNs, timing));
    HonestTagReproduces(c, timing, keys, tau, ids, tolerance, packet, id, e, pkt);
    assert Reproduces(c, pkt, t, tolerance, id, expected);
    forall x | Reproduces(c, pkt, t, tolerance, id, x) ensures x <= expected {
      assert x <= EpochOf(pkt.tsNs, timing);
    }
    ReportedExactly(c, pkt, t, ids, tolerance, Match(id, expected));
  }

  /**
  End to end: a covered packet tagged for a listed run in epoch e, captured behind any link header and with
  any padding in epoch e or e + 1 while the key was still secret, is attributed to that run once its epoch's
  key is disclosed.
  */
  lemma HonestPacketIsAttributed(c: Scheme, timing: Timing, keys: seq<Bytes>, tau: nat, ids: seq<RunId>, tolerance: int,
                                 packet: Bytes, id: RunId, e: nat, link: Link, padding: Bytes, ts: int)
    requires HonestChain(c.sha256, keys) && 1 <= e <= tau < |keys| && timing.delayNs > 0
    requires timing.d >= MIN_DISCLOSURE_DELAY
    requires Supported(packet) && link.Valid() && id in ids
    requires e <= EpochOf(ts, timing) <= e + 1 && EpochOf(ts, timing) <= tau
    requires StillSecret(e, ts, tolerance, timing)
    ensures var captured := Extracted(link.LinkType(), link.Header() + (Sent(c, keys[e], id, packet) + padding));
      && captured.Some?
      && Match(id, ExpectedEpoch(c, keys, packet, id, e, EpochOf(ts, timing)))
         in Verify(c, Packet(ts, captured.value), Published(timing, keys, tau), ids, tolerance).matches
  {
    var ip := Sent(c, keys[e], id, packet) + padding;
    SentIsReproduced(c, keys[e], id, packet, padding);
    ExtractionKeepsTag(link, ip);
    var pkt := Packet(ts, Extracted(link.LinkType(), link.Header() + ip).value);
    HonestTagIsReported(c, timing, keys, tau, ids, tolerance, packet, id, e, pkt);
  }

  // ----- Later disclosures

  lemma SameAttribution(c: Scheme, pkt: Packet, timing: Timing, keys: seq<Bytes>, tau1: nat, tau2: nat, tolerance: int, id: RunId)
    requires HonestChain(c.sha256, keys) && timing.delayNs > 0 && Supported(pkt.ip)
    requires EpochOf(pkt.tsNs, timing) <= tau1 < |keys| && EpochOf(pkt.tsNs, timing) <= tau2 < |keys|
    ensures Attribution(c, pkt, Published(timing, keys, tau1), tolerance, id)
         == Attribution(c, pkt, Published(timing, keys, tau2), tolerance, id)
  {
    var e: int := EpochOf(pkt.tsNs, timing);
    forall x | e - 1 <= x <= e
      ensures Reproduces(c, pkt, Published(timing, keys, tau1), tolerance, id, x)
           == Reproduces(c, pkt, Published(timing, keys, tau2), tolerance, id, x)
    {
      if x >= 1 {
        HonestKeys(c, timing, keys, tau1, x);
        HonestKeys(c, timing, keys, tau2, x);
      }
    }
  }

  /** Once a packet's epoch is disclosed its verdict is final: later keys change neither matches nor reason. */
  lemma VerdictIsStable(c: Scheme, pkt: Packet, timing: Timing, keys: seq<Bytes>, tau1: nat, tau2: nat,
                        ids: seq<RunId>, tolerance: int)
    requires HonestChain(c.sha256, keys) && tau1 < |keys| && tau2 < |keys|
    requires timing.delayNs > 0 ==> EpochOf(pkt.tsNs, timing) <= tau1 && EpochOf(pkt.tsNs, timing) <= tau2
    ensures Verify(c, pkt, Published(timing, keys, tau1), ids, tolerance)
         == Verify(c, pkt, Published(timing, keys, tau2), ids, tolerance)
  {
    var t1, t2 := Published(timing, keys, tau1), Published(timing, keys, tau2);
    HonestKeys(c, timing, keys, tau1, 0);
    HonestKeys(c, timing, keys, tau2, 0);
    assert EarlyRefusal(c, pkt, t1, ids) == EarlyRefusal(c, pkt, t2, ids);
    if EarlyRefusal(c, pkt, t1, ids).None? {
      forall id ensures Attribution(c, pkt, t1, tolerance, id) == Attribution(c, pkt, t2, tolerance, id) {
        SameAttribution(c, pkt, timing, keys, tau1, tau2, tolerance, id);
      }
      var e: int := PacketEpoch(pkt, t1);
      assert RunsOf(c, pkt, t1, tolerance, ids, e) == RunsOf(c, pkt, t2, tolerance, ids, e);
      assert RunsOf(c, pkt, t1, tolerance, ids, e - 1) == RunsOf(c, pkt, t2, tolerance, ids, e - 1);
      assert Matches(c, pkt, t1, tolerance, ids) == Matches(c, pkt, t2, tolerance, ids);
    }
  }

  /** Before that, nothing is reported, so no match is ever withdrawn or changed. */
  lemma NothingReportedEarly(c: Scheme, pkt: Packet, timing: Timing, keys: seq<Bytes>, tau: nat, ids: seq<RunId>, tolerance: int)
    requires HonestChain(c.sha256, keys) && tau < |keys| && timing.delayNs > 0 && tau < EpochOf(pkt.tsNs, timing)
    ensures Verify(c, pkt, Published(timing, keys, tau), ids, tolerance).matches == []
  {}
}
