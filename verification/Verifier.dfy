/** Attributing one packet (tools/verify_pcap.py, verify_packet). */
module Verifier {
  import opened Bytes
  import opened Capture
  import opened Crypto
  import opened FirstOccurrences
  import opened HashChain
  import opened PacketInput
  import opened Schedule
  import opened Wrappers

  /** A run ID, as the bytes it is encoded to. */
  type RunId = Bytes

  /** What attribution needs of the cryptography: the chain's hash, and the tag of (chain key, run, canonical input). */
  datatype Scheme = Scheme(sha256: Hash, tag: (Bytes, RunId, Bytes) -> uint16)

  /** debuglet-tag-v1 over given primitives. */
  function TagV1(p: Primitives, chainKey: Bytes, id: RunId, canonical: Bytes): uint16 {
    Tag(p, MeasurementKey(p, chainKey, id), canonical).value
  }

  function SchemeV1(p: Primitives): Scheme {
    Scheme(p.sha256, (key, id, canonical) => TagV1(p, key, id, canonical))
  }

  /** The key schedule an executor published. */
  datatype Tesla = Tesla(timing: Timing, disclosedEpoch: int, disclosedKey: Option<Bytes>, anchorKey: Option<Bytes>)

  datatype Match = Match(id: RunId, epoch: int)

  datatype Reason =
    | Matched
    | Unsupported(refusal: Refusal)
    | ZeroLengthEpoch
    | DelayTooShort(d: int)
    | NothingDisclosed
    | NoAnchor
    | ForeignKey
    | NotDisclosedYet(epoch: nat, dueNs: int, d: int)
    | NoKeyForEpoch(epoch: nat, latest: int)
    | NoRuns
    | NoKeyInEpochZero
    | KeysNoLongerSecret
    | NoRunProducesTag

  datatype Verdict = Verdict(matches: seq<Match>, reason: Reason)

  function PacketEpoch(pkt: Packet, t: Tesla): nat
    requires t.timing.delayNs > 0
  {
    EpochOf(pkt.tsNs, t.timing)
  }

  /** Why a packet is refused before any key is tried. */
  function EarlyRefusal(c: Scheme, pkt: Packet, t: Tesla, ids: seq<RunId>): Option<Reason> {
    var s := t.timing;
    if !Supported(pkt.ip) then Some(Unsupported(Coverage(pkt.ip).value))
    else if s.delayNs <= 0 then Some(ZeroLengthEpoch)
    else if s.d < MIN_DISCLOSURE_DELAY then Some(DelayTooShort(s.d))
    else if t.disclosedKey.None? then Some(NothingDisclosed)
    else if t.anchorKey.None? then Some(NoAnchor)
    else if HashN(c.sha256, t.disclosedKey.value, Steps(t.disclosedEpoch)) != t.anchorKey.value then Some(ForeignKey)
    else
      var epoch := EpochOf(pkt.tsNs, s);
      if epoch > t.disclosedEpoch then
        if epoch - t.disclosedEpoch <= s.d + 1
        then Some(NotDisclosedYet(epoch, s.anchorNs + (epoch + s.d) * s.delayNs, s.d))
        else Some(NoKeyForEpoch(epoch, t.disclosedEpoch))
      else if ids == [] then Some(NoRuns)
      else None
  }

  // ----- The meaning of a match

  /** An epoch the verifier considers at all: the packet's own or the one before, never epoch 0. */
  predicate Candidate(pkt: Packet, t: Tesla, e: int)
    requires t.timing.delayNs > 0
  {
    1 <= e <= t.disclosedEpoch && PacketEpoch(pkt, t) - 1 <= e <= PacketEpoch(pkt, t)
  }

  /** A candidate whose key was still secret when the packet was captured. */
  predicate Usable(pkt: Packet, t: Tesla, tolerance: int, e: int)
    requires t.timing.delayNs > 0
  {
    Candidate(pkt, t, e) && StillSecret(e, pkt.tsNs, tolerance, t.timing)
  }

  /** The key of an earlier epoch, hashed forward from the disclosed one. */
  function EpochKey(c: Scheme, t: Tesla, e: int): Bytes
    requires t.disclosedKey.Some?
  {
    HashN(c.sha256, t.disclosedKey.value, Steps(t.disclosedEpoch - e))
  }

  /** Under this chain key the run's tag is the one the packet carries. */
  predicate KeyReproduces(c: Scheme, ip: Bytes, key: Bytes, id: RunId)
    requires Supported(ip)
  {
    c.tag(key, id, Canonical(ip).value) == U16(Big, ip, 4)
  }

  /** The run reproduces the tag under a usable key of epoch e. */
  predicate Reproduces(c: Scheme, pkt: Packet, t: Tesla, tolerance: int, id: RunId, e: int)
    requires t.timing.delayNs > 0 && t.disclosedKey.Some? && Supported(pkt.ip)
  {
    Usable(pkt, t, tolerance, e) && KeyReproduces(c, pkt.ip, EpochKey(c, t, e), id)
  }

  /** The epoch a run is attributed under: the newest usable one that reproduces the tag. */
  function Attribution(c: Scheme, pkt: Packet, t: Tesla, tolerance: int, id: RunId): Option<int>
    requires t.timing.delayNs > 0 && t.disclosedKey.Some? && Supported(pkt.ip)
  {
    var e := PacketEpoch(pkt, t);
    if Reproduces(c, pkt, t, tolerance, id, e) then Some(e)
    else if Reproduces(c, pkt, t, tolerance, id, e - 1) then Some(e - 1)
    else None
  }

  /** One match per run. */
  function At(ids: seq<RunId>, e: int): seq<Match> {
    seq(|ids|, i requires 0 <= i < |ids| => Match(ids[i], e))
  }

  function RunsOf(c: Scheme, pkt: Packet, t: Tesla, tolerance: int, ids: seq<RunId>, e: int): set<RunId>
    requires t.timing.delayNs > 0 && t.disclosedKey.Some? && Supported(pkt.ip)
  {
    set id | id in ids && Attribution(c, pkt, t, tolerance, id) == Some(e)
  }

  /** The listed runs attributed to epoch e, each once, in the order first listed. */
  function AttributedTo(c: Scheme, pkt: Packet, t: Tesla, tolerance: int, ids: seq<RunId>, e: int): seq<RunId>
    requires t.timing.delayNs > 0 && t.disclosedKey.Some? && Supported(pkt.ip)
  {
    First(ids, RunsOf(c, pkt, t, tolerance, ids, e))
  }

  lemma InAttributedTo(c: Scheme, pkt: Packet, t: Tesla, tolerance: int, ids: seq<RunId>, e: int, id: RunId)
    requires t.timing.delayNs > 0 && t.disclosedKey.Some? && Supported(pkt.ip)
    ensures id in AttributedTo(c, pkt, t, tolerance, ids, e) <==>
            id in ids && Attribution(c, pkt, t, tolerance, id) == Some(e)
  {
    FirstMembers(ids, RunsOf(c, pkt, t, tolerance, ids, e), id);
  }

  function Matches(c: Scheme, pkt: Packet, t: Tesla, tolerance: int, ids: seq<RunId>): seq<Match>
    requires t.timing.delayNs > 0 && t.disclosedKey.Some? && Supported(pkt.ip)
  {
    var e := PacketEpoch(pkt, t);
    At(AttributedTo(c, pkt, t, tolerance, ids, e), e) + At(AttributedTo(c, pkt, t, tolerance, ids, e - 1), e - 1)
  }

  /** A candidate that is not used because its key may already have been public. */
  predicate PassedOver(pkt: Packet, t: Tesla, tolerance: int, e: int)
    requires t.timing.delayNs > 0
  {
    Candidate(pkt, t, e) && !StillSecret(e, pkt.tsNs, tolerance, t.timing)
  }

  predicate TooLate(pkt: Packet, t: Tesla, tolerance: int)
    requires t.timing.delayNs > 0
  {
    PassedOver(pkt, t, tolerance, PacketEpoch(pkt, t)) || PassedOver(pkt, t, tolerance, PacketEpoch(pkt, t) - 1)
  }

  function Verify(c: Scheme, pkt: Packet, t: Tesla, ids: seq<RunId>, tolerance: int): Verdict {
    var refusal := EarlyRefusal(c, pkt, t, ids);
    if refusal.Some? then Verdict([], refusal.value)
    else
      var matches := Matches(c, pkt, t, tolerance, ids);
      if matches != [] then Verdict(matches, Matched)
      else if PacketEpoch(pkt, t) < 1 then Verdict([], NoKeyInEpochZero)
      else if TooLate(pkt, t, tolerance) then Verdict([], KeysNoLongerSecret)
      else Verdict([], NoRunProducesTag)
  }

  lemma InAt(ids: seq<RunId>, e: int, m: Match)
    ensures m in At(ids, e) <==> m.epoch == e && m.id in ids
  {
    if m.epoch == e && m.id in ids {
      var i :| 0 <= i < |ids| && ids[i] == m.id;
      assert At(ids, e)[i] == m;
    }
  }

  /**
  A run is reported if and only if it is listed and some usable candidate epoch reproduces the tag,
  and then with the largest such epoch.
  */
  lemma ReportedExactly(c: Scheme, pkt: Packet, t: Tesla, ids: seq<RunId>, tolerance: int, m: Match)
    requires EarlyRefusal(c, pkt, t, ids).None?
    ensures m in Verify(c, pkt, t, ids, tolerance).matches <==>
            && m.id in ids
            && Reproduces(c, pkt, t, tolerance, m.id, m.epoch)
            && (forall e | Reproduces(c, pkt, t, tolerance, m.id, e) :: e <= m.epoch)
  {
    var e: int := PacketEpoch(pkt, t);
    forall x | x == e || x == e - 1
      ensures m in At(AttributedTo(c, pkt, t, tolerance, ids, x), x) <==>
              m.epoch == x && m.id in ids && Attribution(c, pkt, t, tolerance, m.id) == Some(x)
    {
      InAt(AttributedTo(c, pkt, t, tolerance, ids, x), x, m);
      InAttributedTo(c, pkt, t, tolerance, ids, x, m.id);
    }
    assert forall x | Reproduces(c, pkt, t, tolerance, m.id, x) :: x == e || x == e - 1;
  }

  /** No two entries name the same run, however often it is listed. */
  ghost predicate NamesEachRunOnce(matches: seq<Match>) {
    forall i, j | 0 <= i < j < |matches| :: matches[i].id != matches[j].id
  }

  /** Each run is reported once, and matches of the packet's own epoch come before those of the epoch before. */
  lemma ReportedOnceNewestFirst(c: Scheme, pkt: Packet, t: Tesla, ids: seq<RunId>, tolerance: int)
    ensures var matches := Verify(c, pkt, t, ids, tolerance).matches;
      && NamesEachRunOnce(matches)
      && forall i, j | 0 <= i < j < |matches| :: matches[i].epoch >= matches[j].epoch
  {
    if EarlyRefusal(c, pkt, t, ids).None? {
      var e: int := PacketEpoch(pkt, t);
      var newer, older := AttributedTo(c, pkt, t, tolerance, ids, e), AttributedTo(c, pkt, t, tolerance, ids, e - 1);
      FirstDistinct(ids, RunsOf(c, pkt, t, tolerance, ids, e));
      FirstDistinct(ids, RunsOf(c, pkt, t, tolerance, ids, e - 1));
      forall id | id in newer ensures id !in older {
        InAttributedTo(c, pkt, t, tolerance, ids, e, id);
        InAttributedTo(c, pkt, t, tolerance, ids, e - 1, id);
      }
      OnceNewestFirst(newer, older, e);
    }
  }

  lemma OnceNewestFirst(newer: seq<RunId>, older: seq<RunId>, e: int)
    requires Distinct(newer) && Distinct(older)
    requires forall id | id in newer :: id !in older
    ensures var matches := At(newer, e) + At(older, e - 1);
      && NamesEachRunOnce(matches)
      && forall i, j | 0 <= i < j < |matches| :: matches[i].epoch >= matches[j].epoch
  {
    var matches := At(newer, e) + At(older, e - 1);
    forall i, j | 0 <= i < j < |matches| ensures matches[i].id != matches[j].id {
      assert i < |newer| ==> newer[i] in newer;
      assert j >= |newer| ==> older[j - |newer|] in older;
    }
  }

  /** A result is empty exactly when a reason is given. */
  lemma ReasonExplainsEmpty(c: Scheme, pkt: Packet, t: Tesla, ids: seq<RunId>, tolerance: int)
    ensures var v := Verify(c, pkt, t, ids, tolerance); v.matches == [] <==> v.reason != Matched
  {}

  // ----- The reasons

  /** The refusals that depend on the published schedule alone, each after those before it. */
  lemma ScheduleRefusals(c: Scheme, pkt: Packet, t: Tesla, ids: seq<RunId>, tolerance: int)
    ensures var r, s := Verify(c, pkt, t, ids, tolerance).reason, t.timing;
      var covered, timed := Coverage(pkt.ip).None?, s.delayNs > 0 && s.d >= 2;
      var disclosed := covered && timed && t.disclosedKey.Some?;
      && (r.Unsupported? <==> !covered) && (r.Unsupported? ==> Coverage(pkt.ip) == Some(r.refusal))
      && (r.ZeroLengthEpoch? <==> covered && s.delayNs <= 0)
      && (r.DelayTooShort? <==> covered && s.delayNs > 0 && s.d <= 1)
      && (r.NothingDisclosed? <==> covered && timed && t.disclosedKey.None?)
      && (r.NoAnchor? <==> disclosed && t.anchorKey.None?)
      && (r.ForeignKey? <==> disclosed && t.anchorKey.Some? && !Checks(c, pkt, t))
  {}

  /** A schedule whose disclosed key leads to the anchor, for a covered packet. */
  ghost predicate Checks(c: Scheme, pkt: Packet, t: Tesla) {
    && Coverage(pkt.ip).None? && t.timing.delayNs > 0 && t.timing.d >= 2
    && t.disclosedKey.Some? && t.anchorKey == Some(HashN(c.sha256, t.disclosedKey.value, Steps(t.disclosedEpoch)))
  }

  /**
  Then the key may not be disclosed yet, which is expected up to d + 1 epochs back and due when the key's secrecy and
  five seconds of skew are over; or no run is listed.
  */
  lemma DisclosureRefusals(c: Scheme, pkt: Packet, t: Tesla, ids: seq<RunId>, tolerance: int)
    requires Checks(c, pkt, t)
    ensures var r, epoch := Verify(c, pkt, t, ids, tolerance).reason, PacketEpoch(pkt, t);
      && !r.ForeignKey?
      && (r.NotDisclosedYet? <==> 1 <= epoch - t.disclosedEpoch <= t.timing.d + 1)
      && (r.NotDisclosedYet? ==> r.epoch == epoch && r.d == t.timing.d && r.dueNs == SecretUntil(epoch, t.timing) + 5_000_000_000)
      && (r.NoKeyForEpoch? <==> epoch - t.disclosedEpoch > t.timing.d + 1)
      && (r.NoRuns? <==> epoch <= t.disclosedEpoch && ids == [])
  {}

  /** Past the refusals, an empty result is explained by the first of these that applies. */
  lemma EmptyReasons(c: Scheme, pkt: Packet, t: Tesla, ids: seq<RunId>, tolerance: int)
    requires Checks(c, pkt, t) && PacketEpoch(pkt, t) <= t.disclosedEpoch && ids != []
    requires Verify(c, pkt, t, ids, tolerance).matches == []
    ensures var r, epoch := Verify(c, pkt, t, ids, tolerance).reason, PacketEpoch(pkt, t);
      var late := exists e :: 1 <= e <= epoch && epoch - 1 <= e && pkt.tsNs + tolerance >= SecretUntil(e, t.timing);
      && (r.NoKeyInEpochZero? <==> epoch == 0)
      && (r.KeysNoLongerSecret? <==> epoch > 0 && late)
      && (r.NoRunProducesTag? <==> epoch > 0 && !late)
  {}

  // ----- The loop

  method TagMatches(p: Primitives, canonical: Bytes, tag: nat, key: Bytes, id: RunId) returns (b: bool)
    ensures b == (SchemeV1(p).tag(key, id, canonical) == tag)
  {
    var ak := HkdfUntilLong(p, key, id, 32);
    MeasurementKeyIsHkdf(p, key, id);
    var computed := ComputeTag(p, ak.value, canonical);
    b := computed == Success(tag);
  }

  /** The listed runs a chain key explains, but for those already seen. */
  function Explained(c: Scheme, canonical: Bytes, tag: nat, key: Bytes, ids: seq<RunId>, seen: set<RunId>): set<RunId> {
    set id | id in ids && id !in seen && c.tag(key, id, canonical) == tag
  }

  /** The inner loop: one epoch's key against every listed run not yet seen. */
  method TryKey(p: Primitives, canonical: Bytes, tag: nat, key: Bytes, ids: seq<RunId>, skip: set<RunId>)
    returns (found: seq<RunId>)
    ensures found == First(ids, Explained(SchemeV1(p), canonical, tag, key, ids, skip))
  {
    ghost var kept := Explained(SchemeV1(p), canonical, tag, key, ids, skip);
    var seen := skip;
    found := [];
    for i := 0 to |ids|
      invariant found == First(ids[..i], kept)
      invariant forall id :: id in seen <==> id in skip || id in found
    {
      var mid := ids[i];
      FirstOneMore(ids, kept, i);
      if mid !in seen {
        var b := TagMatches(p, canonical, tag, key, mid);
        if b { found, seen := found + [mid], seen + {mid}; }
      }
    }
    assert ids[..|ids|] == ids;
  }

  /** The outer loop over the two candidate epochs. */
  method TryEpochs(p: Primitives, pkt: Packet, t: Tesla, ids: seq<RunId>, tolerance: int)
    returns (matched: seq<Match>, late: bool, late': bool)
    requires EarlyRefusal(SchemeV1(p), pkt, t, ids).None?
    ensures matched == Matches(SchemeV1(p), pkt, t, tolerance, ids)
    ensures late == PassedOver(pkt, t, tolerance, PacketEpoch(pkt, t))
    ensures late' == PassedOver(pkt, t, tolerance, PacketEpoch(pkt, t) - 1)
  {
    var e: int := PacketEpoch(pkt, t);
    var newer, older;
    newer, late := TryEpoch(p, pkt, t, ids, tolerance, e, {});
    older, late' := TryEpoch(p, pkt, t, ids, tolerance, e - 1, set id | id in newer);
    SameRuns(SchemeV1(p), pkt, t, ids, tolerance, e, newer, older);
    matched := At(newer, e) + At(older, e - 1);
  }

  /** The listed runs an epoch's usable key explains, but for those already seen. */
  function NewRuns(c: Scheme, pkt: Packet, t: Tesla, tolerance: int, ids: seq<RunId>, e: int, seen: set<RunId>): set<RunId>
    requires t.timing.delayNs > 0 && t.disclosedKey.Some? && Supported(pkt.ip)
  {
    set id | id in ids && id !in seen && Reproduces(c, pkt, t, tolerance, id, e)
  }

  lemma UsableRunsAreExplained(c: Scheme, pkt: Packet, t: Tesla, tolerance: int, ids: seq<RunId>, e: int, seen: set<RunId>)
    requires t.timing.delayNs > 0 && t.disclosedKey.Some? && Supported(pkt.ip) && Usable(pkt, t, tolerance, e)
    ensures NewRuns(c, pkt, t, tolerance, ids, e, seen)
         == Explained(c, Canonical(pkt.ip).value, U16(Big, pkt.ip, 4), EpochKey(c, t, e), ids, seen)
  {}

  lemma UnusableHasNoRuns(c: Scheme, pkt: Packet, t: Tesla, tolerance: int, ids: seq<RunId>, e: int, seen: set<RunId>)
    requires t.timing.delayNs > 0 && t.disclosedKey.Some? && Supported(pkt.ip) && !Usable(pkt, t, tolerance, e)
    ensures First(ids, NewRuns(c, pkt, t, tolerance, ids, e, seen)) == []
  {
    assert NewRuns(c, pkt, t, tolerance, ids, e, seen) == {};
    NothingKept(ids);
  }

  /** One candidate epoch, unless it is out of range or its key may have been public. */
  method TryEpoch(p: Primitives, pkt: Packet, t: Tesla, ids: seq<RunId>, tolerance: int, e: int, seen: set<RunId>)
    returns (found: seq<RunId>, tooLate: bool)
    requires EarlyRefusal(SchemeV1(p), pkt, t, ids).None?
    requires PacketEpoch(pkt, t) - 1 <= e <= PacketEpoch(pkt, t)
    ensures found == First(ids, NewRuns(SchemeV1(p), pkt, t, tolerance, ids, e, seen))
    ensures tooLate == PassedOver(pkt, t, tolerance, e)
  {
    if e < 1 || e > t.disclosedEpoch {
      UnusableHasNoRuns(SchemeV1(p), pkt, t, tolerance, ids, e, seen);
      return [], false;
    }
    if pkt.tsNs + tolerance >= SecretUntil(e, t.timing) {
      UnusableHasNoRuns(SchemeV1(p), pkt, t, tolerance, ids, e, seen);
      return [], true;
    }
    var canonical := TagInput(pkt.ip);
    var key := HashChainForward(p.sha256, t.disclosedKey.value, t.disclosedEpoch - e);
    assert key == EpochKey(SchemeV1(p), t, e);
    UsableRunsAreExplained(SchemeV1(p), pkt, t, tolerance, ids, e, seen);
    found := TryKey(p, canonical.value, U16(Big, pkt.ip, 4), key, ids, seen);
    tooLate := false;
  }

  /** Skipping what the newer key already explained is attribution to the newest epoch. */
  lemma SameRuns(c: Scheme, pkt: Packet, t: Tesla, ids: seq<RunId>, tolerance: int, e: int, newer: seq<RunId>, older: seq<RunId>)
    requires EarlyRefusal(c, pkt, t, ids).None? && e == PacketEpoch(pkt, t)
    requires newer == First(ids, NewRuns(c, pkt, t, tolerance, ids, e, {}))
    requires older == First(ids, NewRuns(c, pkt, t, tolerance, ids, e - 1, set x | x in newer))
    ensures newer == AttributedTo(c, pkt, t, tolerance, ids, e)
    ensures older == AttributedTo(c, pkt, t, tolerance, ids, e - 1)
  {
    assert NewRuns(c, pkt, t, tolerance, ids, e, {}) == RunsOf(c, pkt, t, tolerance, ids, e);
    forall id | id in ids ensures id in newer <==> Reproduces(c, pkt, t, tolerance, id, e) {
      FirstMembers(ids, NewRuns(c, pkt, t, tolerance, ids, e, {}), id);
    }
    assert NewRuns(c, pkt, t, tolerance, ids, e - 1, set x | x in newer) == RunsOf(c, pkt, t, tolerance, ids, e - 1);
  }

  method VerifyPacket(p: Primitives, pkt: Packet, t: Tesla, ids: seq<RunId>, tolerance: int) returns (v: Verdict)
    ensures v == Verify(SchemeV1(p), pkt, t, ids, tolerance)
  {
    var canonical := TagInput(pkt.ip);
    if canonical.Failure? { return Verdict([], Unsupported(canonical.error)); }
    var s := t.timing;
    if s.delayNs <= 0 { return Verdict([], ZeroLengthEpoch); }
    if s.d < MIN_DISCLOSURE_DELAY { return Verdict([], DelayTooShort(s.d)); }
    if t.disclosedKey.None? { return Verdict([], NothingDisclosed); }
    if t.anchorKey.None? { return Verdict([], NoAnchor); }
    var head := HashChainForward(p.sha256, t.disclosedKey.value, t.disclosedEpoch);
    if head != t.anchorKey.value { return Verdict([], ForeignKey); }
    var epoch := EpochOf(pkt.tsNs, s);
    if epoch > t.disclosedEpoch {
      if epoch - t.disclosedEpoch <= s.d + 1 {
        return Verdict([], NotDisclosedYet(epoch, s.anchorNs + (epoch + s.d) * s.delayNs, s.d));
      }
      return Verdict([], NoKeyForEpoch(epoch, t.disclosedEpoch));
    }
    if ids == [] { return Verdict([], NoRuns); }
    var matched, late, late' := TryEpochs(p, pkt, t, ids, tolerance);
    if matched == [] {
      if epoch < 1 { return Verdict([], NoKeyInEpochZero); }
      if late || late' { return Verdict([], KeysNoLongerSecret); }
      return Verdict([], NoRunProducesTag);
    }
    v := Verdict(matched, Matched);
  }
}
