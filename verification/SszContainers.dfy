/** The attestation and aggregate containers (crates/eth2api/src/spec/phase0.rs and electra.rs) as
    SSZ bytes, laid out by consensus-specs ssz/simple-serialize.md: fixed parts in order, an offset
    in place of the variable field, the variable field at the end. */
module SszContainers {
  import opened Common
  import opened Ssz

  const ROOT: nat := 32
  const SIGNATURE: nat := 96

  datatype Checkpoint = Checkpoint(epoch: nat, root: Bytes) {
    predicate Valid() {
      epoch <= U64_MAX && |root| == ROOT
    }
  }

  datatype AttestationData = AttestationData(
    slot: nat, index: nat, blockRoot: Bytes, source: Checkpoint, target: Checkpoint)
  {
    predicate Valid() {
      slot <= U64_MAX && index <= U64_MAX && |blockRoot| == ROOT && source.Valid() && target.Valid()
    }
  }

  /** Both attestation containers: Electra's has eight bytes of committee bits, phase0's has none. */
  datatype Attestation = Attestation(bits: seq<bool>, data: AttestationData, signature: Bytes, committeeBits: Bytes)

  datatype Layout = Layout(committeeBytes: nat, maxBits: nat) {
    function FixedLength(): nat {
      4 + 128 + SIGNATURE + committeeBytes
    }
  }

  const PHASE0 := Layout(0, 2048)
  const ELECTRA := Layout(8, 131_072)

  /** The value has the container's Rust type. Its bit list is not yet held to the limit. */
  predicate Typed(l: Layout, a: Attestation) {
    a.data.Valid() && |a.signature| == SIGNATURE && |a.committeeBits| == l.committeeBytes
  }

  // ---------------------------------------------------------------------------------------------
  // Encoding and decoding
  // ---------------------------------------------------------------------------------------------

  function EncodeCheckpoint(c: Checkpoint): (s: Bytes)
    requires c.Valid()
    ensures |s| == 40
  {
    LittleEndian(c.epoch, 8) + c.root
  }

  function DecodeCheckpoint(s: Bytes): Checkpoint
    requires |s| == 40
  {
    Checkpoint(FromLittleEndian(s[..8]), s[8..])
  }

  function EncodeData(d: AttestationData): (s: Bytes)
    requires d.Valid()
    ensures |s| == 128
  {
    LittleEndian(d.slot, 8) + LittleEndian(d.index, 8) + d.blockRoot
    + EncodeCheckpoint(d.source) + EncodeCheckpoint(d.target)
  }

  function DecodeData(s: Bytes): AttestationData
    requires |s| == 128
  {
    AttestationData(FromLittleEndian(s[..8]), FromLittleEndian(s[8..16]), s[16..48],
                    DecodeCheckpoint(s[48..88]), DecodeCheckpoint(s[88..]))
  }

  function EncodeAttestation(l: Layout, a: Attestation): (s: Bytes)
    requires Typed(l, a)
    ensures |s| > l.FixedLength()
  {
    LittleEndian(l.FixedLength(), 4) + EncodeData(a.data) + a.signature + a.committeeBits + EncodeBits(a.bits)
  }

  function DecodeAttestation(l: Layout, s: Bytes): Option<Attestation> {
    var fixed := l.FixedLength();
    if |s| < fixed || FromLittleEndian(s[..4]) != fixed then None else
    match DecodeBits(s[fixed..])
    case None => None
    case Some(bits) =>
      if |bits| > l.maxBits then None
      else Some(Attestation(bits, DecodeData(s[4..132]), s[132..228], s[228..fixed]))
  }

  // ---------------------------------------------------------------------------------------------
  // The two are inverse
  // ---------------------------------------------------------------------------------------------

  lemma ReadU64(v: nat)
    requires v <= U64_MAX
    ensures FromLittleEndian(LittleEndian(v, 8)) == v
  {
    Widths();
    ReadInteger(v, 8);
  }

  lemma ReadU32(v: nat)
    requires v <= U32_MAX
    ensures FromLittleEndian(LittleEndian(v, 4)) == v
  {
    Widths();
    ReadInteger(v, 4);
  }

  lemma IsU64(s: Bytes)
    requires |s| == 8
    ensures FromLittleEndian(s) <= U64_MAX && LittleEndian(FromLittleEndian(s), 8) == s
  {
    Widths();
    WriteInteger(s);
  }

  lemma CheckpointInverse(c: Checkpoint, s: Bytes)
    requires |s| == 40
    ensures DecodeCheckpoint(s) == c <==> c.Valid() && EncodeCheckpoint(c) == s
  {
    hide LittleEndian, FromLittleEndian;
    IsU64(s[..8]);
    assert s == s[..8] + s[8..];
    if c.Valid() {
      ReadU64(c.epoch);
      assert EncodeCheckpoint(c)[..8] == LittleEndian(c.epoch, 8) && EncodeCheckpoint(c)[8..] == c.root;
    }
  }

  lemma DataInverse(d: AttestationData, s: Bytes)
    requires |s| == 128
    ensures DecodeData(s) == d <==> d.Valid() && EncodeData(d) == s
  {
    hide LittleEndian, FromLittleEndian, EncodeCheckpoint, DecodeCheckpoint;
    IsU64(s[..8]);
    IsU64(s[8..16]);
    CheckpointInverse(d.source, s[48..88]);
    CheckpointInverse(d.target, s[88..]);
    assert s == s[..8] + s[8..16] + s[16..48] + s[48..88] + s[88..];
    if d.Valid() {
      var e := EncodeData(d);
      ReadU64(d.slot);
      ReadU64(d.index);
      assert e[..8] == LittleEndian(d.slot, 8) && e[8..16] == LittleEndian(d.index, 8) && e[16..48] == d.blockRoot;
      assert e[48..88] == EncodeCheckpoint(d.source) && e[88..] == EncodeCheckpoint(d.target);
    }
  }

  lemma AttestationParts(l: Layout, a: Attestation)
    requires Typed(l, a)
    ensures var s, fixed := EncodeAttestation(l, a), l.FixedLength();
            && s[..4] == LittleEndian(fixed, 4) && s[4..132] == EncodeData(a.data) && s[132..228] == a.signature
            && s[228..fixed] == a.committeeBits && s[fixed..] == EncodeBits(a.bits)
  {
    hide LittleEndian, EncodeData, EncodeBits;
  }

  /** A byte string decodes to an attestation exactly when it is that attestation's encoding and
      the bit list is within the limit. */
  lemma AttestationInverse(l: Layout, a: Attestation, s: Bytes)
    requires l in {PHASE0, ELECTRA}
    ensures DecodeAttestation(l, s) == Some(a) <==>
              Typed(l, a) && |a.bits| <= l.maxBits && s == EncodeAttestation(l, a)
  {
    if Typed(l, a) && |a.bits| <= l.maxBits && s == EncodeAttestation(l, a) { AttestationDecodes(l, a); }
    if DecodeAttestation(l, s) == Some(a) { AttestationEncodes(l, a, s); }
  }

  lemma AttestationDecodes(l: Layout, a: Attestation)
    requires l in {PHASE0, ELECTRA} && Typed(l, a)
    ensures DecodeAttestation(l, EncodeAttestation(l, a)) == if |a.bits| <= l.maxBits then Some(a) else None
  {
    hide LittleEndian, FromLittleEndian, EncodeData, DecodeData, EncodeBits, DecodeBits, EncodeAttestation;
    AttestationParts(l, a);
    ReadU32(l.FixedLength());
    DataInverse(a.data, EncodeData(a.data));
    DecodeEncodedBits(a.bits);
  }

  lemma AttestationEncodes(l: Layout, a: Attestation, s: Bytes)
    requires l in {PHASE0, ELECTRA} && DecodeAttestation(l, s) == Some(a)
    ensures Typed(l, a) && |a.bits| <= l.maxBits && s == EncodeAttestation(l, a)
  {
    hide LittleEndian, FromLittleEndian, EncodeData, DecodeData, EncodeBits, DecodeBits;
    var fixed := l.FixedLength();
    DataInverse(a.data, s[4..132]);
    EncodeDecodedBits(s[fixed..]);
    WriteInteger(s[..4]);
    assert s == s[..4] + s[4..132] + s[132..228] + s[228..fixed] + s[fixed..];
  }

  // ---------------------------------------------------------------------------------------------
  // Signed aggregates
  // ---------------------------------------------------------------------------------------------

  datatype Aggregate = Aggregate(
    aggregatorIndex: nat, attestation: Attestation, selectionProof: Bytes, signature: Bytes)

  const MESSAGE_FIXED: nat := 108
  const SIGNED_FIXED: nat := 100

  predicate TypedAggregate(l: Layout, x: Aggregate) {
    && x.aggregatorIndex <= U64_MAX && Typed(l, x.attestation)
    && |x.selectionProof| == SIGNATURE && |x.signature| == SIGNATURE
  }

  function EncodeAggregate(l: Layout, x: Aggregate): (s: Bytes)
    requires TypedAggregate(l, x)
    ensures |s| > SIGNED_FIXED + MESSAGE_FIXED
  {
    LittleEndian(SIGNED_FIXED, 4) + x.signature +
    (LittleEndian(x.aggregatorIndex, 8) + LittleEndian(MESSAGE_FIXED, 4) + x.selectionProof
     + EncodeAttestation(l, x.attestation))
  }

  function DecodeAggregate(l: Layout, s: Bytes): Option<Aggregate> {
    if |s| < SIGNED_FIXED || FromLittleEndian(s[..4]) != SIGNED_FIXED then None else
    var m := s[SIGNED_FIXED..];
    if |m| < MESSAGE_FIXED || FromLittleEndian(m[8..12]) != MESSAGE_FIXED then None else
    match DecodeAttestation(l, m[MESSAGE_FIXED..])
    case None => None
    case Some(a) => Some(Aggregate(FromLittleEndian(m[..8]), a, m[12..MESSAGE_FIXED], s[4..SIGNED_FIXED]))
  }

  lemma AggregateParts(l: Layout, x: Aggregate)
    requires TypedAggregate(l, x)
    ensures var s := EncodeAggregate(l, x);
            var m := s[SIGNED_FIXED..];
            && s[..4] == LittleEndian(SIGNED_FIXED, 4) && s[4..SIGNED_FIXED] == x.signature
            && m[..8] == LittleEndian(x.aggregatorIndex, 8) && m[8..12] == LittleEndian(MESSAGE_FIXED, 4)
            && m[12..MESSAGE_FIXED] == x.selectionProof && m[MESSAGE_FIXED..] == EncodeAttestation(l, x.attestation)
  {
    hide LittleEndian, EncodeAttestation;
    var m := LittleEndian(x.aggregatorIndex, 8) + LittleEndian(MESSAGE_FIXED, 4) + x.selectionProof
             + EncodeAttestation(l, x.attestation);
    assert EncodeAggregate(l, x)[SIGNED_FIXED..] == m;
  }

  /** The same for signed aggregates. */
  lemma AggregateInverse(l: Layout, x: Aggregate, s: Bytes)
    requires l in {PHASE0, ELECTRA}
    ensures DecodeAggregate(l, s) == Some(x) <==>
              TypedAggregate(l, x) && |x.attestation.bits| <= l.maxBits && s == EncodeAggregate(l, x)
  {
    if TypedAggregate(l, x) && |x.attestation.bits| <= l.maxBits && s == EncodeAggregate(l, x) {
      AggregateDecodes(l, x);
    }
    if DecodeAggregate(l, s) == Some(x) { AggregateEncodes(l, x, s); }
  }

  lemma AggregateDecodes(l: Layout, x: Aggregate)
    requires l in {PHASE0, ELECTRA} && TypedAggregate(l, x)
    ensures DecodeAggregate(l, EncodeAggregate(l, x)) == if |x.attestation.bits| <= l.maxBits then Some(x) else None
  {
    hide LittleEndian, FromLittleEndian, EncodeAttestation, DecodeAttestation, EncodeAggregate;
    AggregateParts(l, x);
    ReadU32(SIGNED_FIXED);
    ReadU32(MESSAGE_FIXED);
    ReadU64(x.aggregatorIndex);
    AttestationDecodes(l, x.attestation);
  }

  lemma AggregateEncodes(l: Layout, x: Aggregate, s: Bytes)
    requires l in {PHASE0, ELECTRA} && DecodeAggregate(l, s) == Some(x)
    ensures TypedAggregate(l, x) && |x.attestation.bits| <= l.maxBits && s == EncodeAggregate(l, x)
  {
    hide LittleEndian, FromLittleEndian, EncodeAttestation, DecodeAttestation;
    var m := s[SIGNED_FIXED..];
    AttestationEncodes(l, x.attestation, m[MESSAGE_FIXED..]);
    WriteInteger(s[..4]);
    WriteInteger(m[8..12]);
    IsU64(m[..8]);
    assert m == m[..8] + m[8..12] + m[12..MESSAGE_FIXED] + m[MESSAGE_FIXED..];
    assert s == s[..4] + s[4..SIGNED_FIXED] + m;
  }
}
