/** Signed data on the wire (crates/core/src/parsigex_codec.rs): the receiver knows the duty type
    only and recovers the concrete type by trying decoders in order. */
module ParsigexCodec {
  import opened Common
  import opened Slots
  import opened Ssz
  import opened SszContainers
  import opened SszCodec

  datatype SyncCommitteeMessage = SyncCommitteeMessage(
    slot: nat, blockRoot: Bytes, validatorIndex: nat, signature: Bytes)
  {
    predicate Valid() {
      slot <= U64_MAX && |blockRoot| == ROOT && validatorIndex <= U64_MAX && |signature| == SIGNATURE
    }
  }

  /** The concrete types of `dyn SignedData`. `Foreign` stands for those whose codec is not part of
      this model. */
  datatype SignedData =
    | RawAttestation(attestation: Attestation)
    | VersionedAtt(versioned: VersionedAttestation)
    | RawAggregate(aggregate: Aggregate)
    | VersionedAgg(versionedAggregate: VersionedAggregate)
    | SyncMessageData(message: SyncCommitteeMessage)
    | Foreign(id: nat)
  {
    predicate Typed() {
      match this
      case RawAttestation(a) => SszContainers.Typed(PHASE0, a)
      case VersionedAtt(va) => va.Typed()
      case RawAggregate(x) => TypedAggregate(PHASE0, x)
      case VersionedAgg(va) => va.Typed()
      case SyncMessageData(m) => m.Valid()
      case Foreign(_) => true
    }
  }

  datatype Error = Codec(error: CodecError) | DeprecatedBuilderProposer | UnsupportedDutyType | ForeignError

  /** JSON text and the foreign types: arbitrary functions. */
  datatype ForeignCodec = ForeignCodec(
    encode: nat -> Option<Bytes>,
    signature: nat -> Option<Bytes>,
    json: (DutyType, Bytes) -> Option<SignedData>)

  /** `SignedData::signature`. */
  function SignatureOf(f: ForeignCodec, d: SignedData): Option<Bytes> {
    match d
    case RawAttestation(a) => Some(a.signature)
    case VersionedAtt(va) =>
      if va.version == DataVersion.Unknown || va.attestation.None? then None
      else Some(va.attestation.value.body.signature)
    case RawAggregate(x) => Some(x.signature)
    case VersionedAgg(va) => Some(va.payload.body.signature)
    case SyncMessageData(m) => Some(m.signature)
    case Foreign(id) => f.signature(id)
  }

  function EncodeSyncMessage(m: SyncCommitteeMessage): (s: Bytes)
    requires m.Valid()
    ensures |s| == 144
  {
    LittleEndian(m.slot, 8) + m.blockRoot + LittleEndian(m.validatorIndex, 8) + m.signature
  }

  function DecodeSyncMessage(s: Bytes): Option<SyncCommitteeMessage> {
    if |s| != 144 then None
    else Some(SyncCommitteeMessage(FromLittleEndian(s[..8]), s[8..40], FromLittleEndian(s[40..48]), s[48..]))
  }

  function FromCodec(r: Result<Bytes, CodecError>): Result<Bytes, Error> {
    match r
    case Ok(s) => Ok(s)
    case Err(e) => Err(Codec(e))
  }

  function Serialize(f: ForeignCodec, d: SignedData): Result<Bytes, Error>
    requires d.Typed()
  {
    match d
    case RawAttestation(a) => Ok(EncodeAttestation(PHASE0, a))
    case VersionedAtt(va) => FromCodec(EncodedAttestation(va))
    case RawAggregate(x) => Ok(EncodeAggregate(PHASE0, x))
    case VersionedAgg(va) => FromCodec(EncodedAggregate(va))
    case SyncMessageData(m) => Ok(EncodeSyncMessage(m))
    case Foreign(id) =>
      match f.encode(id)
      case Some(s) => Ok(s)
      case None => Err(ForeignError)
  }

  predicate IsWhitespace(b: Byte) {
    b in {9, 10, 12, 13, 32}
  }

  const OPEN_BRACE: Byte := 123

  /** The first byte that is not ASCII whitespace is `{`. */
  predicate LooksLikeJson(s: Bytes) {
    s != [] && (if IsWhitespace(s[0]) then LooksLikeJson(s[1..]) else s[0] == OPEN_BRACE)
  }

  function FallBack(f: ForeignCodec, t: DutyType, s: Bytes): Result<SignedData, Error> {
    if !LooksLikeJson(s) then Err(UnsupportedDutyType)
    else match f.json(t, s)
         case Some(d) => Ok(d)
         case None => Err(ForeignError)
  }

  /** Duty types other than these three are left to the foreign codec, save the deprecated and the
      unsupported ones. */
  function Deserialize(f: ForeignCodec, t: DutyType, s: Bytes): Result<SignedData, Error> {
    match t
    case Attester =>
      var raw := DecodeAttestation(PHASE0, s);
      if raw.Some? then Ok(RawAttestation(raw.value)) else
      var va := DecodeVersionedAttestation(s);
      if va.Ok? then Ok(VersionedAtt(va.value)) else FallBack(f, t, s)
    case Aggregator =>
      var raw := DecodeAggregate(PHASE0, s);
      if raw.Some? then Ok(RawAggregate(raw.value)) else
      var va := DecodeVersionedAggregate(s);
      if va.Ok? then Ok(VersionedAgg(va.value)) else FallBack(f, t, s)
    case SyncMessage =>
      var m := DecodeSyncMessage(s);
      if m.Some? then Ok(SyncMessageData(m.value)) else FallBack(f, t, s)
    case BuilderProposer => Err(DeprecatedBuilderProposer)
    case Unknown => Err(UnsupportedDutyType)
    case InfoSync => Err(UnsupportedDutyType)
    case DutySentinel(_) => Err(UnsupportedDutyType)
    case _ =>
      match f.json(t, s)
      case Some(d) => Ok(d)
      case None => Err(ForeignError)
  }

  // ---------------------------------------------------------------------------------------------
  // No decoder takes another type's bytes
  // ---------------------------------------------------------------------------------------------

  /** Bytes read as a small little-endian number start with its low byte. */
  lemma FirstByte(s: Bytes)
    requires s != []
    ensures s[0] == FromLittleEndian(s) % 256
  {
  }

  /** The first byte of everything each decoder accepts. */
  lemma AcceptedFirstBytes(s: Bytes)
    requires s != []
    ensures DecodeAttestation(PHASE0, s).Some? ==> s[0] == 228
    ensures DecodeAggregate(PHASE0, s).Some? ==> s[0] == 100
    ensures DecodeVersionedAttestation(s).Ok? ==> s[0] < 7
    ensures DecodeVersionedAggregate(s).Ok? ==> s[0] < 7
  {
    hide FromLittleEndian, DecodeData, DecodeBits, DecodeVersion;
    if |s| >= 8 {
      FirstByte(s[..4]);
      if DecodeVersion(s[..8]).Ok? { VersionByte(s[..8]); }
    }
  }

  lemma JsonFirstByte(s: Bytes)
    requires LooksLikeJson(s)
    ensures s[0] == OPEN_BRACE || IsWhitespace(s[0])
  {
  }

  /** What looks like JSON is never taken by an attestation or aggregate decoder: it reaches the
      JSON parser. */
  lemma JsonReachesParser(f: ForeignCodec, t: DutyType, s: Bytes)
    requires LooksLikeJson(s) && t in {Attester, Aggregator}
    ensures Deserialize(f, t, s) == match f.json(t, s) case Some(d) => Ok(d) case None => Err(ForeignError)
  {
    hide DecodeAttestation, DecodeAggregate, DecodeVersionedAttestation, DecodeVersionedAggregate;
    AcceptedFirstBytes(s);
    JsonFirstByte(s);
  }

  /** The first bytes of what is sent. */
  lemma SentFirstBytes(f: ForeignCodec, d: SignedData)
    requires d.Typed() && Serialize(f, d).Ok?
    ensures !d.Foreign? ==> Serialize(f, d).value != []
    ensures d.RawAttestation? ==> Serialize(f, d).value[0] == 228
    ensures d.RawAggregate? ==> Serialize(f, d).value[0] == 100
    ensures d.VersionedAtt? ==> Serialize(f, d).value[0] < 7
    ensures d.VersionedAgg? ==> Serialize(f, d).value[0] < 7
  {
    hide EncodeBits, EncodeData;
    match d
    case RawAttestation(a) => assert EncodeAttestation(PHASE0, a)[0] == LittleEndian(228, 4)[0];
    case RawAggregate(x) => assert EncodeAggregate(PHASE0, x)[0] == LittleEndian(100, 4)[0];
    case VersionedAtt(va) => HeaderFirstByte(va.version, va.validatorIndex);
    case VersionedAgg(va) => HeaderFirstByte(va.version, None);
    case _ =>
  }

  lemma HeaderFirstByte(v: DataVersion, index: Option<nat>)
    requires v != DataVersion.Unknown
    ensures AttestationHeader(v, index)[0] < 7
  {
    assert AttestationHeader(v, index)[0] == LittleEndian(v.ToLegacy().value, 8)[0];
  }

  // ---------------------------------------------------------------------------------------------
  // Type and value recovered
  // ---------------------------------------------------------------------------------------------

  /** What can be checked before sending: the value fits the duty type and its own codec. */
  predicate Recoverable(t: DutyType, d: SignedData) {
    match d
    case RawAttestation(a) => t == Attester && |a.bits| <= PHASE0.maxBits
    case VersionedAtt(va) => t == Attester && Survives(va)
    case RawAggregate(x) => t == Aggregator && |x.attestation.bits| <= PHASE0.maxBits
    case VersionedAgg(va) => t == Aggregator && AggregateSurvives(va)
    case SyncMessageData(_) => t == SyncMessage
    case Foreign(_) => false
  }

  predicate RoundTrips(f: ForeignCodec, t: DutyType, d: SignedData)
    requires d.Typed()
  {
    Serialize(f, d).Ok? && Deserialize(f, t, Serialize(f, d).value) == Ok(d)
  }

  lemma AttesterRecovers(f: ForeignCodec, d: SignedData)
    requires d.Typed() && (d.RawAttestation? || d.VersionedAtt?)
    ensures RoundTrips(f, Attester, d) <==> Recoverable(Attester, d)
  {
    hide DecodeAttestation, DecodeVersionedAttestation, EncodeAttestation, EncodedAttestation, Survives;
    if Serialize(f, d).Ok? {
      var s := Serialize(f, d).value;
      SentFirstBytes(f, d);
      AcceptedFirstBytes(s);
      if d.RawAttestation? { AttestationDecodes(PHASE0, d.attestation); }
    }
    if d.VersionedAtt? { AttestationSurvivesIff(d.versioned); }
  }

  lemma AggregatorRecovers(f: ForeignCodec, d: SignedData)
    requires d.Typed() && (d.RawAggregate? || d.VersionedAgg?)
    ensures RoundTrips(f, Aggregator, d) <==> Recoverable(Aggregator, d)
  {
    hide DecodeAggregate, DecodeVersionedAggregate, EncodeAggregate, EncodedAggregate, AggregateSurvives;
    if Serialize(f, d).Ok? {
      var s := Serialize(f, d).value;
      SentFirstBytes(f, d);
      AcceptedFirstBytes(s);
      if d.RawAggregate? { AggregateDecodes(PHASE0, d.aggregate); }
    }
    if d.VersionedAgg? { AggregateSurvivesIff(d.versionedAggregate); }
  }

  lemma SyncMessageRecovers(f: ForeignCodec, m: SyncCommitteeMessage)
    requires m.Valid()
    ensures RoundTrips(f, SyncMessage, SyncMessageData(m))
  {
    hide LittleEndian, FromLittleEndian;
    var s := EncodeSyncMessage(m);
    ReadU64(m.slot);
    ReadU64(m.validatorIndex);
    assert s[..8] == LittleEndian(m.slot, 8) && s[8..40] == m.blockRoot;
    assert s[40..48] == LittleEndian(m.validatorIndex, 8) && s[48..] == m.signature;
  }

  /** For attester, aggregator and sync-message duties, the bytes sent for a value of that duty give
      back the same concrete type and value exactly when it is recoverable. */
  lemma TypeAndValueRecovered(f: ForeignCodec, t: DutyType, d: SignedData)
    requires d.Typed()
    requires (t == Attester && (d.RawAttestation? || d.VersionedAtt?))
             || (t == Aggregator && (d.RawAggregate? || d.VersionedAgg?))
             || (t == SyncMessage && d.SyncMessageData?)
    ensures RoundTrips(f, t, d) <==> Recoverable(t, d)
  {
    hide RoundTrips;
    match t
    case Attester => AttesterRecovers(f, d);
    case Aggregator => AggregatorRecovers(f, d);
    case SyncMessage => SyncMessageRecovers(f, d.message);
  }
}
