/** The one-way key chain (section 3.2 of RFC 4082), for any hash function. */
module HashChain {
  import opened Bytes

  type Hash = Bytes -> Digest

  /** H^n(key). */
  function HashN(h: Hash, key: Bytes, n: nat): Bytes {
    if n == 0 then key else h(HashN(h, key, n - 1))
  }

  lemma {:induction false} HashNSum(h: Hash, key: Bytes, a: nat, b: nat)
    ensures HashN(h, HashN(h, key, a), b) == HashN(h, key, a + b)
  {
    if b != 0 { HashNSum(h, key, a, b - 1); }
  }

  /** A Python range over a negative count is empty. */
  function Steps(n: int): nat {
    if n < 0 then 0 else n
  }

  /** tools/verify_pcap.py: hash_chain_forward. */
  method HashChainForward(h: Hash, key: Bytes, steps: int) returns (cur: Bytes)
    ensures cur == if steps <= 0 then key else HashN(h, key, steps)
  {
    cur := key;
    for i := 0 to Steps(steps)
      invariant cur == HashN(h, key, i)
    {
      cur := h(cur);
    }
  }

  /** Each key is the hash of the next. */
  ghost predicate HonestChain(h: Hash, keys: seq<Bytes>) {
    |keys| > 0 && forall i | 0 <= i < |keys| - 1 :: keys[i] == h(keys[i + 1])
  }

  /** tools/tag_vectors.py: chain, filled from its last key down. */
  method Chain(h: Hash, seed: Bytes, length: nat) returns (keys: array<Bytes>)
    ensures fresh(keys) && keys.Length == length + 1 && keys[length] == seed
    ensures HonestChain(h, keys[..])
  {
    keys := new Bytes[length + 1](_ => []);
    keys[length] := seed;
    var i := length;
    while i > 0
      invariant 0 <= i <= length
      invariant keys[length] == seed
      invariant forall j | i <= j < length :: keys[j] == h(keys[j + 1])
    {
      i := i - 1;
      keys[i] := h(keys[i + 1]);
    }
  }

  /** Every key of the chain follows from any later one, and all of them lead to the anchor. */
  lemma {:induction false} EarlierKey(h: Hash, keys: seq<Bytes>, i: nat, j: nat)
    requires HonestChain(h, keys) && i <= j < |keys|
    ensures HashN(h, keys[j], j - i) == keys[i]
    decreases j - i
  {
    if i < j { EarlierKey(h, keys, i + 1, j); }
  }
}
