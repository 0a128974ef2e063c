/** Epochs and the time until which a key is secret (sections 3.5 and 3.6 of RFC 4082). Times are in nanoseconds. */
module Schedule {
  import opened Arithmetic

  const SECOND: int := 1_000_000_000
  const MIN_DISCLOSURE_DELAY := 2
  /** How far the dispatcher lets an executor clock lead when it accepts a disclosure. */
  const SKEW: int := 5 * SECOND

  /** When epoch 0 started, the epoch length I and the disclosure delay d in epochs. */
  datatype Timing = Timing(anchorNs: int, delayNs: int, d: int)

  function EpochOf(ts: int, s: Timing): nat
    requires s.delayNs > 0
  {
    if ts < s.anchorNs then 0 else (ts - s.anchorNs) / s.delayNs
  }

  /** The earliest instant the key of an epoch could have become public. */
  function SecretUntil(epoch: int, s: Timing): int {
    s.anchorNs + (epoch + s.d) * s.delayNs - SKEW
  }

  /** A key may attribute a packet captured at ts only if it was still secret then. */
  predicate StillSecret(epoch: int, ts: int, tolerance: int, s: Timing) {
    ts + tolerance < SecretUntil(epoch, s)
  }

  // ----- Epochs are the intervals [anchor + t*I, anchor + (t+1)*I)

  /** An epoch is exactly its half-open interval; epoch 0 also takes everything before the anchor. */
  lemma EpochIsInterval(ts: int, t: nat, s: Timing)
    requires s.delayNs > 0
    ensures EpochOf(ts, s) == t
       <==> (t == 0 || s.anchorNs + t * s.delayNs <= ts) && ts < s.anchorNs + (t + 1) * s.delayNs
  {
    if t > 0 { MulMonotone(1, t, s.delayNs); }
    if ts >= s.anchorNs { QuotientIs(ts - s.anchorNs, s.delayNs, t); }
  }

  // ----- The secrecy margin

  lemma SecretUntilMonotone(e: int, e': int, s: Timing)
    requires s.delayNs > 0 && e <= e'
    ensures SecretUntil(e, s) <= SecretUntil(e', s)
  {
    MulMonotone(e + s.d, e' + s.d, s.delayNs);
  }

  /** If an older key is still secret, so is every newer one. */
  lemma StillSecretMonotone(e: int, e': int, ts: int, tolerance: int, s: Timing)
    requires s.delayNs > 0 && e <= e' && StillSecret(e, ts, tolerance, s)
    ensures StillSecret(e', ts, tolerance, s)
  {
    SecretUntilMonotone(e, e', s);
  }

  /** The key of epoch e can be used at every instant of epoch t. */
  ghost predicate UsableThroughout(e: int, t: nat, tolerance: int, s: Timing)
    requires s.delayNs > 0
  {
    forall ts | EpochOf(ts, s) == t :: StillSecret(e, ts, tolerance, s)
  }

  /**
  The exact margin: the key of epoch t - back is usable at every instant of epoch t if and only if
  the tolerance and the five seconds of skew fit into d - 1 - back whole epochs.
  */
  lemma ExactMargin(t: nat, back: nat, tolerance: int, s: Timing)
    requires s.delayNs > 0 && t >= 1
    ensures UsableThroughout(t - back, t, tolerance, s) <==> tolerance + 5_000_000_000 <= (s.d - 1 - back) * s.delayNs
  {
    var last := s.anchorNs + (t + 1) * s.delayNs - 1;
    assert t * s.delayNs <= (t + 1) * s.delayNs - 1;
    EpochIsInterval(last, t, s);
    assert (t - back + s.d) * s.delayNs == (t + 1) * s.delayNs + (s.d - 1 - back) * s.delayNs;
    if tolerance + SKEW <= (s.d - 1 - back) * s.delayNs {
      forall ts | EpochOf(ts, s) == t ensures StillSecret(t - back, ts, tolerance, s) {
        EpochIsInterval(ts, t, s);
      }
    }
  }

  /** With a disclosure delay of one epoch the previous epoch's key is never usable. */
  lemma DelayOneNeverUsable(t: nat, ts: int, tolerance: int, s: Timing)
    requires s.delayNs > 0 && t >= 1 && s.d == 1 && EpochOf(ts, s) == t && tolerance >= -5_000_000_000
    ensures !StillSecret(t - 1, ts, tolerance, s)
  {
    EpochIsInterval(ts, t, s);
  }
}
