/**
The two tools side by side: tools/tag_vectors.py and tools/verify_pcap.py share no code, and reach the same
input, the same key and the same tag for every packet, key, run and length.
*/
module Agreement {
  import opened Bytes
  import opened Crypto
  import opened PacketInput
  import opened Wrappers

  /** Both tools accept the same packets, refuse the others for the same reason, and hash the same bytes. */
  method SameInput(packet: Bytes) returns (reference: Result<Bytes, Refusal>, verifier: Result<Bytes, Refusal>)
    ensures reference == verifier
  {
    reference := HashInput(packet);
    verifier := TagInput(packet);
  }

  /** Both expansions give the same bytes for every length, and fail for the same lengths: above 255 blocks. */
  method SameKey(p: Primitives, secret: Bytes, info: Bytes, length: int)
    returns (reference: Result<Bytes, CryptoError>, verifier: Result<Bytes, CryptoError>)
    ensures reference == verifier
    ensures reference.Success? <==> length <= 255 * 32
    ensures reference.Success? ==> |reference.value| == if length < 0 then 0 else length
  {
    reference := HkdfCounted(p, secret, info, length);
    verifier := HkdfUntilLong(p, secret, info, length);
  }

  /** From one packet and chain key to the tag: each tool by its own path. */
  method SameTag(p: Primitives, chainKey: Bytes, id: Bytes, packet: Bytes)
    returns (reference: Result<uint16, Refusal>, verifier: Result<uint16, Refusal>)
    ensures reference == verifier
    ensures reference.Success? <==> Supported(packet)
    ensures Supported(packet) ==>
      Success(reference.value) == Tag(p, MeasurementKey(p, chainKey, id), Canonical(packet).value)
  {
    var input := HashInput(packet);
    var canonical := TagInput(packet);
    if input.Failure? { return Failure(input.error), Failure(canonical.error); }
    var ak := HkdfCounted(p, chainKey, id, 32);
    var ak' := HkdfUntilLong(p, chainKey, id, 32);
    MeasurementKeyIsHkdf(p, chainKey, id);
    var tag := TagOf(p, ak.value, input.value);
    var tag' := ComputeTag(p, ak'.value, canonical.value);
    return Success(tag.value), Success(tag'.value);
  }
}
