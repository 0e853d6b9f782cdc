/** The versioned wire format (crates/core/src/ssz_codec.rs): a header naming the fork in front of
    the fork's own container. */
module SszCodec {
  import opened Common
  import opened Ssz
  import opened SszContainers

  datatype DataVersion = Unknown | Phase0 | Altair | Bellatrix | Capella | Deneb | Electra | Fulu {
    function Layout(): Layout {
      if this in {Electra, Fulu} then ELECTRA else PHASE0
    }

    function ToLegacy(): Option<nat> {
      match this
      case Unknown => None
      case Phase0 => Some(0)
      case Altair => Some(1)
      case Bellatrix => Some(2)
      case Capella => Some(3)
      case Deneb => Some(4)
      case Electra => Some(5)
      case Fulu => Some(6)
    }
  }

  function FromLegacy(v: nat): DataVersion {
    match v
    case 0 => Phase0
    case 1 => Altair
    case 2 => Bellatrix
    case 3 => Capella
    case 4 => Deneb
    case 5 => Electra
    case 6 => Fulu
    case _ => Unknown
  }

  datatype CodecError = TooShort | InvalidOffset(got: nat) | UnknownVersion(raw: nat) | Decode

  /** A payload enum: the variant's fork and the container it wraps. */
  datatype Payload<+T> = Payload(fork: DataVersion, body: T)

  const VAL_IDX_HEADER: nat := 20
  const PLAIN_HEADER: nat := 12

  function DecodeVersion(s: Bytes): Result<DataVersion, CodecError> {
    var raw := FromLittleEndian(s);
    var version := FromLegacy(raw);
    if version == Unknown then Err(UnknownVersion(raw)) else Ok(version)
  }

  lemma VersionReads(v: DataVersion)
    requires v != Unknown
    ensures DecodeVersion(LittleEndian(v.ToLegacy().value, 8)) == Ok(v)
  {
    hide LittleEndian, FromLittleEndian;
    ReadU64(v.ToLegacy().value);
  }

  /** A version field's first byte is below seven. */
  lemma VersionByte(s: Bytes)
    requires |s| == 8 && DecodeVersion(s).Ok?
    ensures s[0] < 7
  {
  }

  // ---------------------------------------------------------------------------------------------
  // Attestations
  // ---------------------------------------------------------------------------------------------

  datatype VersionedAttestation = VersionedAttestation(
    version: DataVersion, validatorIndex: Option<nat>, attestation: Option<Payload<Attestation>>)
  {
    /** The value has its Rust type: variants exist for known forks and hold that fork's container. */
    predicate Typed() {
      && (validatorIndex.Some? ==> validatorIndex.value <= U64_MAX)
      && (attestation.Some? ==>
            && attestation.value.fork != Unknown
            && SszContainers.Typed(attestation.value.fork.Layout(), attestation.value.body))
    }
  }

  /** The encoder appends the header fields and the payload to a byte buffer. */
  method EncodeVersionedAttestation(va: VersionedAttestation) returns (r: Result<Bytes, CodecError>)
    requires va.Typed()
    ensures r == EncodedAttestation(va)
  {
    if va.version == Unknown { return Err(Decode); }
    if va.attestation.None? { return Err(Decode); }
    var inner := EncodeAttestation(va.attestation.value.fork.Layout(), va.attestation.value.body);
    var buf: Bytes := LittleEndian(va.version.ToLegacy().value, 8);
    match va.validatorIndex {
      case Some(index) =>
        buf := buf + LittleEndian(index, 8);
        buf := buf + LittleEndian(VAL_IDX_HEADER, 4);
      case None =>
        buf := buf + LittleEndian(PLAIN_HEADER, 4);
    }
    buf := buf + inner;
    return Ok(buf);
  }

  function EncodedAttestation(va: VersionedAttestation): Result<Bytes, CodecError>
    requires va.Typed()
  {
    if va.version == Unknown || va.attestation.None? then Err(Decode) else
    var inner := EncodeAttestation(va.attestation.value.fork.Layout(), va.attestation.value.body);
    Ok(AttestationHeader(va.version, va.validatorIndex) + inner)
  }

  function AttestationHeader(version: DataVersion, index: Option<nat>): (s: Bytes)
    requires version != Unknown
    ensures |s| == if index.Some? then VAL_IDX_HEADER else PLAIN_HEADER
  {
    match index
    case Some(i) => LittleEndian(version.ToLegacy().value, 8) + LittleEndian(i, 8) + LittleEndian(VAL_IDX_HEADER, 4)
    case None => LittleEndian(version.ToLegacy().value, 8) + LittleEndian(PLAIN_HEADER, 4)
  }

  function DecodePayload(version: DataVersion, inner: Bytes): Result<Payload<Attestation>, CodecError> {
    match DecodeAttestation(version.Layout(), inner)
    case None => Err(Decode)
    case Some(a) => Ok(Payload(version, a))
  }

  function TryWithIndex(s: Bytes): Result<VersionedAttestation, CodecError> {
    if |s| < VAL_IDX_HEADER then Err(TooShort) else
    var version := DecodeVersion(s[..8]);
    if version.Err? then Err(version.error) else
    var offset := FromLittleEndian(s[16..20]);
    if offset != VAL_IDX_HEADER then Err(InvalidOffset(offset)) else
    var payload := DecodePayload(version.value, s[VAL_IDX_HEADER..]);
    if payload.Err? then Err(payload.error)
    else Ok(VersionedAttestation(version.value, Some(FromLittleEndian(s[8..16])), Some(payload.value)))
  }

  function DecodeWithoutIndex(s: Bytes): Result<VersionedAttestation, CodecError> {
    if |s| < PLAIN_HEADER then Err(TooShort) else
    var version := DecodeVersion(s[..8]);
    if version.Err? then Err(version.error) else
    var offset := FromLittleEndian(s[8..12]);
    if offset != PLAIN_HEADER then Err(InvalidOffset(offset)) else
    var payload := DecodePayload(version.value, s[PLAIN_HEADER..]);
    if payload.Err? then Err(payload.error)
    else Ok(VersionedAttestation(version.value, None, Some(payload.value)))
  }

  /** The index form is tried first; only a wrong offset falls back to the plain form. */
  function DecodeVersionedAttestation(s: Bytes): Result<VersionedAttestation, CodecError> {
    var r := TryWithIndex(s);
    if r.Err? && r.error.InvalidOffset? then DecodeWithoutIndex(s) else r
  }

  /** The low half of the slot sits where the index form keeps its offset. */
  predicate Ambiguous(va: VersionedAttestation)
    requires va.attestation.Some?
  {
    va.validatorIndex.None? && va.attestation.value.body.data.slot % 0x1_0000_0000 == VAL_IDX_HEADER
  }

  /** What a caller can check before sending: the version names the payload's fork, the bits are
      within the fork's limit, and the encoding is not ambiguous. */
  predicate Survives(va: VersionedAttestation) {
    && va.version != Unknown && va.attestation.Some? && va.attestation.value.fork == va.version
    && |va.attestation.value.body.bits| <= va.version.Layout().maxBits && !Ambiguous(va)
  }

  lemma WithIndexReads(va: VersionedAttestation)
    requires va.Typed() && va.version != Unknown && va.attestation.Some? && va.attestation.value.fork == va.version
    requires va.validatorIndex.Some? && |va.attestation.value.body.bits| <= va.version.Layout().maxBits
    ensures TryWithIndex(EncodedAttestation(va).value) == Ok(va)
  {
    hide LittleEndian, FromLittleEndian, DecodeVersion, EncodeAttestation, DecodeAttestation;
    var s, inner := EncodedAttestation(va).value, EncodeAttestation(va.version.Layout(), va.attestation.value.body);
    VersionReads(va.version);
    ReadU64(va.validatorIndex.value);
    ReadU32(VAL_IDX_HEADER);
    AttestationDecodes(va.version.Layout(), va.attestation.value.body);
    assert s[..8] == LittleEndian(va.version.ToLegacy().value, 8);
    assert s[8..16] == LittleEndian(va.validatorIndex.value, 8);
    assert s[16..20] == LittleEndian(VAL_IDX_HEADER, 4) && s[VAL_IDX_HEADER..] == inner;
  }

  lemma WithoutIndexReads(va: VersionedAttestation)
    requires va.Typed() && va.version != Unknown && va.attestation.Some? && va.attestation.value.fork == va.version
    requires va.validatorIndex.None? && |va.attestation.value.body.bits| <= va.version.Layout().maxBits
    ensures DecodeWithoutIndex(EncodedAttestation(va).value) == Ok(va)
  {
    hide LittleEndian, FromLittleEndian, DecodeVersion, EncodeAttestation, DecodeAttestation;
    var s, inner := EncodedAttestation(va).value, EncodeAttestation(va.version.Layout(), va.attestation.value.body);
    VersionReads(va.version);
    ReadU32(PLAIN_HEADER);
    AttestationDecodes(va.version.Layout(), va.attestation.value.body);
    assert s[..8] == LittleEndian(va.version.ToLegacy().value, 8) && s[8..12] == LittleEndian(PLAIN_HEADER, 4);
    assert s[PLAIN_HEADER..] == inner;
  }

  /** Without an index, the bytes read as the index form's offset are the slot's low half. */
  lemma OffsetIsSlot(va: VersionedAttestation)
    requires va.Typed() && va.version != Unknown && va.attestation.Some? && va.validatorIndex.None?
    ensures var s := EncodedAttestation(va).value;
            && |s| >= VAL_IDX_HEADER && DecodeVersion(s[..8]) == Ok(va.version)
            && FromLittleEndian(s[16..20]) == va.attestation.value.body.data.slot % 0x1_0000_0000
  {
    hide LittleEndian, FromLittleEndian, DecodeVersion, EncodeBits;
    var p, s := va.attestation.value, EncodedAttestation(va).value;
    var inner := EncodeAttestation(p.fork.Layout(), p.body);
    VersionReads(va.version);
    assert s[..8] == LittleEndian(va.version.ToLegacy().value, 8) && s[PLAIN_HEADER..] == inner;
    AttestationParts(p.fork.Layout(), p.body);
    assert s[16..20] == inner[4..8] == inner[4..132][..4];
    assert EncodeData(p.body.data)[..4] == LittleEndian(p.body.data.slot, 8)[..4];
    LowHalf(p.body.data.slot);
  }

  lemma DecodedMatches(s: Bytes)
    requires DecodeVersionedAttestation(s).Ok?
    ensures var va := DecodeVersionedAttestation(s).value;
            && va.version != Unknown && va.attestation.Some? && va.attestation.value.fork == va.version
            && |va.attestation.value.body.bits| <= va.version.Layout().maxBits
  {
    hide FromLittleEndian, DecodeData, DecodeBits;
  }

  /** A versioned attestation survives encoding and decoding exactly when `Survives` says so. */
  lemma AttestationSurvivesIff(va: VersionedAttestation)
    requires va.Typed()
    ensures EncodedAttestation(va).Ok? && DecodeVersionedAttestation(EncodedAttestation(va).value) == Ok(va) <==>
              Survives(va)
  {
    hide EncodedAttestation, DecodeWithoutIndex, DecodeVersion, FromLittleEndian, DecodeAttestation;
    hide SszContainers.Typed;
    if va.version == Unknown || va.attestation.None? {
      assert EncodedAttestation(va).Err? by { EncodingFails(va); }
    } else {
      var s := EncodingWorks(va);
      if DecodeVersionedAttestation(s) == Ok(va) { DecodedMatches(s); }
      if va.validatorIndex.None? { OffsetIsSlot(va); }
      if Survives(va) {
        if va.validatorIndex.Some? { WithIndexReads(va); } else { WithoutIndexReads(va); }
      }
    }
  }

  lemma AmbiguousIsLost(va: VersionedAttestation)
    requires va.Typed() && va.version != Unknown && va.attestation.Some? && Ambiguous(va)
    ensures EncodedAttestation(va).Ok? && DecodeVersionedAttestation(EncodedAttestation(va).value) != Ok(va)
  {
    hide EncodedAttestation, DecodeVersionedAttestation, SszContainers.Typed;
    AttestationSurvivesIff(va);
    EncodingFails(va);
  }

  lemma SlotTwenty() returns (va: VersionedAttestation)
    ensures va.Typed() && va.attestation.Some? && va.version == va.attestation.value.fork == Phase0
    ensures va.attestation.value.body.data.slot == 20 && va.validatorIndex.None?
  {
    var zero := Checkpoint(0, seq(ROOT, _ => 0));
    var data := AttestationData(20, 0, seq(ROOT, _ => 0), zero, zero);
    var body := Attestation([true], data, seq(SIGNATURE, _ => 0), []);
    va := VersionedAttestation(Phase0, None, Some(Payload(Phase0, body)));
  }

  /** An attestation for slot 20 without a validator index is lost. */
  lemma SlotTwentyIsLost() returns (va: VersionedAttestation)
    ensures va.Typed() && va.attestation.Some? && va.version == va.attestation.value.fork != Unknown
    ensures va.attestation.value.body.data.slot == 20
    ensures EncodedAttestation(va).Ok? && DecodeVersionedAttestation(EncodedAttestation(va).value) != Ok(va)
  {
    hide EncodedAttestation, DecodeVersionedAttestation, SszContainers.Typed;
    va := SlotTwenty();
    AmbiguousIsLost(va);
  }

  lemma VersionWrites(s: Bytes)
    requires |s| == 8 && DecodeVersion(s).Ok?
    ensures DecodeVersion(s).value != Unknown && LittleEndian(DecodeVersion(s).value.ToLegacy().value, 8) == s
  {
    hide LittleEndian, FromLittleEndian;
    WriteInteger(s);
  }

  lemma WithIndexWrites(s: Bytes)
    requires TryWithIndex(s).Ok?
    ensures TryWithIndex(s).value.Typed() && EncodedAttestation(TryWithIndex(s).value) == Ok(s)
  {
    hide LittleEndian, FromLittleEndian, DecodeVersion, EncodeAttestation, DecodeAttestation, SszContainers.Typed;
    var va := TryWithIndex(s).value;
    VersionWrites(s[..8]);
    IsU64(s[8..16]);
    WriteInteger(s[16..20]);
    AttestationEncodes(va.version.Layout(), va.attestation.value.body, s[VAL_IDX_HEADER..]);
    assert s == s[..8] + s[8..16] + s[16..20] + s[VAL_IDX_HEADER..];
  }

  lemma WithoutIndexWrites(s: Bytes)
    requires DecodeWithoutIndex(s).Ok?
    ensures DecodeWithoutIndex(s).value.Typed() && EncodedAttestation(DecodeWithoutIndex(s).value) == Ok(s)
  {
    hide LittleEndian, FromLittleEndian, DecodeVersion, EncodeAttestation, DecodeAttestation, SszContainers.Typed;
    var va := DecodeWithoutIndex(s).value;
    VersionWrites(s[..8]);
    WriteInteger(s[8..12]);
    AttestationEncodes(va.version.Layout(), va.attestation.value.body, s[PLAIN_HEADER..]);
    assert s == s[..8] + s[8..12] + s[PLAIN_HEADER..];
  }

  /** Every accepted byte string is the encoding of what it decodes to. */
  lemma AttestationCanonical(s: Bytes)
    requires DecodeVersionedAttestation(s).Ok?
    ensures var va := DecodeVersionedAttestation(s).value; va.Typed() && EncodedAttestation(va) == Ok(s)
  {
    hide TryWithIndex, DecodeWithoutIndex, EncodedAttestation;
    if TryWithIndex(s).Ok? { WithIndexWrites(s); } else { WithoutIndexWrites(s); }
  }

  lemma EncodingFails(va: VersionedAttestation)
    requires va.Typed()
    ensures EncodedAttestation(va).Err? <==> va.version == Unknown || va.attestation.None?
  {
  }

  lemma EncodingWorks(va: VersionedAttestation) returns (s: Bytes)
    requires va.Typed() && va.version != Unknown && va.attestation.Some?
    ensures EncodedAttestation(va) == Ok(s)
  {
    s := EncodedAttestation(va).value;
  }

  // ---------------------------------------------------------------------------------------------
  // Aggregates
  // ---------------------------------------------------------------------------------------------

  datatype VersionedAggregate = VersionedAggregate(version: DataVersion, payload: Payload<Aggregate>) {
    predicate Typed() {
      payload.fork != Unknown && TypedAggregate(payload.fork.Layout(), payload.body)
    }
  }

  function EncodedAggregate(va: VersionedAggregate): Result<Bytes, CodecError>
    requires va.Typed()
  {
    if va.version == Unknown then Err(Decode)
    else Ok(AttestationHeader(va.version, None) + EncodeAggregate(va.payload.fork.Layout(), va.payload.body))
  }

  function DecodeVersionedAggregate(s: Bytes): Result<VersionedAggregate, CodecError> {
    if |s| < PLAIN_HEADER then Err(TooShort) else
    var version := DecodeVersion(s[..8]);
    if version.Err? then Err(version.error) else
    var offset := FromLittleEndian(s[8..12]);
    if offset != PLAIN_HEADER then Err(InvalidOffset(offset)) else
    match DecodeAggregate(version.value.Layout(), s[PLAIN_HEADER..])
    case None => Err(Decode)
    case Some(x) => Ok(VersionedAggregate(version.value, Payload(version.value, x)))
  }

  predicate AggregateSurvives(va: VersionedAggregate) {
    && va.version != Unknown && va.payload.fork == va.version
    && |va.payload.body.attestation.bits| <= va.version.Layout().maxBits
  }

  lemma AggregateBits(l: Layout, s: Bytes)
    requires DecodeAggregate(l, s).Some?
    ensures |DecodeAggregate(l, s).value.attestation.bits| <= l.maxBits
  {
    hide FromLittleEndian, DecodeData, DecodeBits;
  }

  /** Aggregates have one header form, so nothing but version and bit limit can break them. */
  lemma AggregateSurvivesIff(va: VersionedAggregate)
    requires va.Typed()
    ensures EncodedAggregate(va).Ok? && DecodeVersionedAggregate(EncodedAggregate(va).value) == Ok(va) <==>
              AggregateSurvives(va)
  {
    hide LittleEndian, FromLittleEndian, DecodeVersion, EncodeAggregate, DecodeAggregate, TypedAggregate;
    if va.version != Unknown {
      var s, inner := EncodedAggregate(va).value, EncodeAggregate(va.payload.fork.Layout(), va.payload.body);
      VersionReads(va.version);
      ReadU32(PLAIN_HEADER);
      assert s[..8] == LittleEndian(va.version.ToLegacy().value, 8) && s[8..12] == LittleEndian(PLAIN_HEADER, 4);
      assert s[PLAIN_HEADER..] == inner;
      if va.payload.fork == va.version { AggregateDecodes(va.version.Layout(), va.payload.body); }
      if DecodeAggregate(va.version.Layout(), inner).Some? { AggregateBits(va.version.Layout(), inner); }
    }
  }
}
