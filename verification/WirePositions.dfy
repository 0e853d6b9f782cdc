/** Where everything sits in the bytes: field by field, with the constants written out. Inverse laws
    say that nothing is lost; these say what other nodes read. */
module WirePositions {
  import opened Common
  import opened Slots
  import opened Ssz
  import opened SszContainers
  import opened SszCodec
  import P = ParsigexCodec

  // ---------------------------------------------------------------------------------------------
  // Integers and bits
  // ---------------------------------------------------------------------------------------------

  lemma Reassociate(k: nat, p: nat, b: nat)
    ensures k * p * b == k * (b * p)
  {
  }

  predicate IsProduct(m: nat, b: nat, p: nat) {
    m >= 1 && b >= 1 && p >= 1 && m == b * p
  }

  lemma DivDivAtLeast(v: nat, p: nat, b: nat, m: nat, k: nat)
    requires IsProduct(m, b, p)
    ensures v / b / p >= k <==> v / m >= k
  {
    DivAtLeast(v / b, p, k);
    DivAtLeast(v, b, k * p);
    DivAtLeast(v, m, k);
    Reassociate(k, p, b);
  }

  lemma DivDiv(v: nat, p: nat, b: nat, m: nat)
    requires IsProduct(m, b, p)
    ensures v / b / p == v / m
  {
    hide IsProduct;
    assert m >= 1 && b >= 1 && p >= 1 by { Positive(m, b, p); }
    DivDivAtLeast(v, p, b, m, v / b / p);
    DivDivAtLeast(v, p, b, m, v / b / p + 1);
  }

  lemma Positive(m: nat, b: nat, p: nat)
    requires IsProduct(m, b, p)
    ensures m >= 1 && b >= 1 && p >= 1
  {
  }

  /** Byte `i` of an integer has the weight of the `i`th power of 256. */
  lemma {:induction false} IntegerBytes(v: nat, n: nat, i: nat)
    requires i < n
    ensures LittleEndian(v, n)[i] == v / Pow256(i) % 256
  {
    if i > 0 {
      IntegerBytes(v / 256, n - 1, i - 1);
      DivDiv(v, Pow256(i - 1), 256, Pow256(i));
    }
  }

  predicate BitAt(s: Bytes, i: nat)
    requires i < 8 * |s|
  {
    s[i / 8] / Pow2(i % 8) % 2 == 1
  }

  lemma HalfPack(bits: seq<bool>)
    requires bits != []
    ensures Pack(bits) / 2 == Pack(bits[1..]) && (Pack(bits) % 2 == 1 <==> bits[0])
  {
  }

  lemma Zeros(j: nat)
    ensures Pack([]) / Pow2(j) == 0
  {
    DivAtLeast(0, Pow2(j), 1);
  }

  lemma {:induction false} PackedBit(bits: seq<bool>, j: nat)
    ensures Pack(bits) / Pow2(j) % 2 == 1 <==> j < |bits| && bits[j]
  {
    hide Pack;
    if bits == [] {
      Zeros(j);
    } else {
      HalfPack(bits);
      if j == 0 {
        assert Pow2(0) == 1;
      } else {
        PackedBit(bits[1..], j - 1);
        DivDiv(Pack(bits), Pow2(j - 1), 2, Pow2(j));
      }
    }
  }

  predicate Expected(bits: seq<bool>, i: nat) {
    if i < |bits| then bits[i] else i == |bits|
  }

  lemma LastByte(bits: seq<bool>, i: nat)
    requires |bits| < 8 && i < 8
    ensures |EncodeBits(bits)| == 1 && (BitAt(EncodeBits(bits), i) <==> Expected(bits, i))
  {
    hide Pack, Pow2;
    PackedBit(bits + [true], i);
  }

  lemma FirstOfMany(bits: seq<bool>, i: nat)
    requires |bits| >= 8 && i < 8
    ensures BitAt(EncodeBits(bits), i) <==> bits[i]
  {
    hide Pack, Pow2;
    PackedBit(bits[..8], i);
  }

  lemma ShiftByte(bits: seq<bool>, i: nat)
    requires |bits| >= 8 && 8 <= i < 8 * |EncodeBits(bits)|
    ensures i - 8 < 8 * |EncodeBits(bits[8..])|
    ensures BitAt(EncodeBits(bits), i) <==> BitAt(EncodeBits(bits[8..]), i - 8)
  {
    hide Pack, Pow2;
    assert EncodeBits(bits)[1..] == EncodeBits(bits[8..]);
    assert i / 8 == (i - 8) / 8 + 1 && i % 8 == (i - 8) % 8;
  }

  /** Bit `i` of a list is bit `i % 8`, least significant first, of byte `i / 8`; the sentinel
      follows the last one, and nothing follows it. */
  lemma {:induction false} BitPositions(bits: seq<bool>, i: nat)
    requires i < 8 * (|bits| / 8 + 1)
    ensures |EncodeBits(bits)| == |bits| / 8 + 1
    ensures BitAt(EncodeBits(bits), i) <==> (if i < |bits| then bits[i] else i == |bits|)
  {
    hide BitAt, EncodeBits;
    BitCount(bits);
    if |bits| < 8 {
      LastByte(bits, i);
    } else if i < 8 {
      FirstOfMany(bits, i);
    } else {
      BitPositions(bits[8..], i - 8);
      ShiftByte(bits, i);
    }
  }

  lemma {:induction false} BitCount(bits: seq<bool>)
    ensures |EncodeBits(bits)| == |bits| / 8 + 1
  {
    if |bits| >= 8 { BitCount(bits[8..]); }
  }

  lemma SmallInteger(v: nat, n: nat)
    requires v < 256 && n >= 1
    ensures LittleEndian(v, n) == [v] + seq(n - 1, _ => 0)
  {
    ZeroInteger(n - 1);
  }

  lemma {:induction false} ZeroInteger(n: nat)
    ensures LittleEndian(0, n) == seq(n, _ => 0)
  {
    if n > 0 { ZeroInteger(n - 1); }
  }

  lemma Offset(v: nat)
    requires v < 256
    ensures LittleEndian(v, 4) == [v, 0, 0, 0] && LittleEndian(v, 8) == [v, 0, 0, 0, 0, 0, 0, 0]
  {
    SmallInteger(v, 4);
    SmallInteger(v, 8);
  }

  // ---------------------------------------------------------------------------------------------
  // Containers
  // ---------------------------------------------------------------------------------------------

  lemma DataBytes(d: AttestationData)
    requires d.Valid()
    ensures var s := EncodeData(d);
            && s[0..8] == LittleEndian(d.slot, 8) && s[8..16] == LittleEndian(d.index, 8)
            && s[16..48] == d.blockRoot
            && s[48..56] == LittleEndian(d.source.epoch, 8) && s[56..88] == d.source.root
            && s[88..96] == LittleEndian(d.target.epoch, 8) && s[96..128] == d.target.root
  {
    hide LittleEndian;
  }

  lemma Within(s: Bytes, a: nat, b: nat, i: nat, j: nat)
    requires a <= b <= |s| && i <= j <= b - a
    ensures s[a..b][i..j] == s[a + i..a + j]
  {
    var x, y := s[a..b][i..j], s[a + i..a + j];
    assert |x| == |y| && forall k | 0 <= k < |x| :: x[k] == s[a + i + k] == y[k];
  }

  /** An attestation: offset of the bit list, slot, committee index, block root, source, target,
      signature, from Electra on the committee bits, and the bit list. */
  lemma AttestationBytes(l: Layout, a: Attestation)
    requires l in {PHASE0, ELECTRA} && Typed(l, a)
    ensures var s, d := EncodeAttestation(l, a), a.data;
            && s[4..12] == LittleEndian(d.slot, 8) && s[12..20] == LittleEndian(d.index, 8)
            && s[20..52] == d.blockRoot
            && s[52..60] == LittleEndian(d.source.epoch, 8) && s[60..92] == d.source.root
            && s[92..100] == LittleEndian(d.target.epoch, 8) && s[100..132] == d.target.root
            && s[132..228] == a.signature
            && (l == PHASE0 ==> s[0..4] == [228, 0, 0, 0] && s[228..] == EncodeBits(a.bits))
            && (l == ELECTRA ==> && s[0..4] == [236, 0, 0, 0] && s[228..236] == a.committeeBits
                                 && s[236..] == EncodeBits(a.bits))
  {
    hide LittleEndian, EncodeData, EncodeBits, EncodeAttestation;
    var s := EncodeAttestation(l, a);
    AttestationParts(l, a);
    DataBytes(a.data);
    Offset(228);
    Offset(236);
    Within(s, 4, 132, 0, 8);
    Within(s, 4, 132, 8, 16);
    Within(s, 4, 132, 16, 48);
    Within(s, 4, 132, 48, 56);
    Within(s, 4, 132, 56, 88);
    Within(s, 4, 132, 88, 96);
    Within(s, 4, 132, 96, 128);
  }

  /** A signed aggregate: offset of the message, signature, then the message: aggregator index, offset
      of the attestation, selection proof, attestation. */
  lemma AggregateBytes(l: Layout, x: Aggregate)
    requires l in {PHASE0, ELECTRA} && TypedAggregate(l, x)
    ensures var s := EncodeAggregate(l, x);
            && s[0..4] == [100, 0, 0, 0] && s[4..100] == x.signature
            && s[100..108] == LittleEndian(x.aggregatorIndex, 8) && s[108..112] == [108, 0, 0, 0]
            && s[112..208] == x.selectionProof && s[208..] == EncodeAttestation(l, x.attestation)
  {
    hide LittleEndian, EncodeAttestation, EncodeAggregate;
    var s := EncodeAggregate(l, x);
    AggregateParts(l, x);
    Offset(100);
    Offset(108);
    Within(s, 100, |s|, 0, 8);
    Within(s, 100, |s|, 8, 12);
    Within(s, 100, |s|, 12, 108);
    Within(s, 100, |s|, 108, |s| - 100);
    assert s[100..|s|] == s[100..];
  }

  lemma SyncMessageBytes(m: P.SyncCommitteeMessage)
    requires m.Valid()
    ensures var s := P.EncodeSyncMessage(m);
            && s[0..8] == LittleEndian(m.slot, 8) && s[8..40] == m.blockRoot
            && s[40..48] == LittleEndian(m.validatorIndex, 8) && s[48..144] == m.signature
  {
    hide LittleEndian;
  }

  // ---------------------------------------------------------------------------------------------
  // Headers
  // ---------------------------------------------------------------------------------------------

  /** The number of each fork on the wire. */
  predicate Numbered(v: DataVersion, number: nat) {
    match v
    case Unknown => false
    case Phase0 => number == 0
    case Altair => number == 1
    case Bellatrix => number == 2
    case Capella => number == 3
    case Deneb => number == 4
    case Electra => number == 5
    case Fulu => number == 6
  }

  /** A versioned attestation: the fork's number, then either the validator index and 20, or 12, then
      the attestation in its fork's layout. */
  lemma HeaderBytes(va: VersionedAttestation, number: Byte)
    requires va.Typed() && va.attestation.Some? && Numbered(va.version, number)
    ensures EncodedAttestation(va).Ok?
    ensures var s, p := EncodedAttestation(va).value, va.attestation.value;
            var inner := EncodeAttestation(if p.fork in {Electra, Fulu} then ELECTRA else PHASE0, p.body);
            && |s| >= 12 && s[0..8] == [number, 0, 0, 0, 0, 0, 0, 0]
            && (va.validatorIndex.Some? ==>
                  |s| >= 20 && s[8..16] == LittleEndian(va.validatorIndex.value, 8) && s[16..20] == [20, 0, 0, 0]
                  && s[20..] == inner)
            && (va.validatorIndex.None? ==> s[8..12] == [12, 0, 0, 0] && s[12..] == inner)
  {
    hide LittleEndian, EncodeAttestation;
    Offset(number);
    Offset(20);
    Offset(12);
  }

  /** A versioned aggregate has the plain header. */
  lemma AggregateHeaderBytes(va: VersionedAggregate, number: Byte)
    requires va.Typed() && Numbered(va.version, number)
    ensures EncodedAggregate(va).Ok?
    ensures var s, l := EncodedAggregate(va).value, if va.payload.fork in {Electra, Fulu} then ELECTRA else PHASE0;
            && |s| >= 12 && s[0..8] == [number, 0, 0, 0, 0, 0, 0, 0] && s[8..12] == [12, 0, 0, 0]
            && s[12..] == EncodeAggregate(l, va.payload.body)
  {
    hide LittleEndian, EncodeAggregate;
    Offset(number);
    Offset(12);
  }

  /** The bit limits, and the slots that are lost, in numbers. */
  lemma SurvivesInNumbers(va: VersionedAttestation)
    ensures Survives(va) <==>
              && va.version != DataVersion.Unknown && va.attestation.Some? && va.attestation.value.fork == va.version
              && |va.attestation.value.body.bits| <= (if va.version in {Electra, Fulu} then 131_072 else 2_048)
              && (va.validatorIndex.Some? || va.attestation.value.body.data.slot % 4_294_967_296 != 20)
  {
  }

  // ---------------------------------------------------------------------------------------------
  // What is refused, and how
  // ---------------------------------------------------------------------------------------------

  /** The fork number read from the first eight bytes. */
  function ForkNumber(s: Bytes): nat
    requires |s| >= 8
  {
    FromLittleEndian(s[0..8])
  }

  lemma KnownForks(s: Bytes)
    requires |s| >= 8
    ensures DecodeVersion(s[..8]) == Err(UnknownVersion(ForkNumber(s))) <==> ForkNumber(s) > 6
    ensures ForkNumber(s) <= 6 ==> DecodeVersion(s[..8]).Ok? && Numbered(DecodeVersion(s[..8]).value, ForkNumber(s))
  {
    hide FromLittleEndian;
    assert s[0..8] == s[..8];
  }

  /** The errors of the attestation decoder: fewer than 20 bytes, then a fork past Fulu, then, if
      neither offset is right, the shorter header's; otherwise the payload itself. */
  lemma AttestationErrors(s: Bytes)
    ensures var r := DecodeVersionedAttestation(s);
            && (r == Err(TooShort) <==> |s| < 20)
            && (|s| >= 20 && ForkNumber(s) > 6 ==> r == Err(UnknownVersion(ForkNumber(s))))
            && (|s| >= 20 && ForkNumber(s) <= 6 ==>
                  var long, short := FromLittleEndian(s[16..20]), FromLittleEndian(s[8..12]);
                  && (long != 20 && short != 12 <==> r == Err(InvalidOffset(short)))
                  && (long == 20 || short == 12 <==> r.Ok? || r == Err(Decode)))
  {
    hide FromLittleEndian, DecodeAttestation, DecodeVersion;
    if |s| >= 20 { KnownForks(s); }
  }

  /** Those of the aggregate decoder. */
  lemma AggregateErrors(s: Bytes)
    ensures var r := DecodeVersionedAggregate(s);
            && (r == Err(TooShort) <==> |s| < 12)
            && (|s| >= 12 && ForkNumber(s) > 6 ==> r == Err(UnknownVersion(ForkNumber(s))))
            && (|s| >= 12 && ForkNumber(s) <= 6 ==>
                  var offset := FromLittleEndian(s[8..12]);
                  && (offset != 12 <==> r == Err(InvalidOffset(offset)))
                  && (offset == 12 <==> r.Ok? || r == Err(Decode)))
  {
    hide FromLittleEndian, DecodeAggregate, DecodeVersion;
    if |s| >= 12 { KnownForks(s); }
  }

  /** The first byte that is not a tab, line feed, form feed, carriage return or space is a brace. */
  ghost predicate OpensBrace(s: Bytes) {
    exists i: nat :: i < |s| && s[i] == 123 && forall j | 0 <= j < i :: s[j] in {9, 10, 12, 13, 32}
  }

  lemma {:induction false} JsonIff(s: Bytes)
    ensures P.LooksLikeJson(s) <==> OpensBrace(s)
  {
    if s != [] {
      JsonIff(s[1..]);
      if s[0] in {9, 10, 12, 13, 32} {
        if OpensBrace(s[1..]) {
          var i: nat :| i < |s[1..]| && s[1..][i] == 123 && forall j | 0 <= j < i :: s[1..][j] in {9, 10, 12, 13, 32};
          assert s[i + 1] == 123 && forall j | 0 <= j < i + 1 :: j > 0 ==> s[j] == s[1..][j - 1];
        }
        if OpensBrace(s) {
          var i: nat :| i < |s| && s[i] == 123 && forall j | 0 <= j < i :: s[j] in {9, 10, 12, 13, 32};
          assert s[1..][i - 1] == 123 && forall j | 0 <= j < i - 1 :: s[1..][j] == s[j + 1];
        }
      } else if s[0] == 123 {
        assert OpensBrace(s);
      }
    }
  }

  /** Bytes no decoder of the duty takes go to the JSON parser exactly when they open a brace, and are
      refused as unsupported otherwise. */
  lemma NotTaken(f: P.ForeignCodec, t: DutyType, s: Bytes)
    requires t == Attester ==> DecodeAttestation(PHASE0, s).None? && DecodeVersionedAttestation(s).Err?
    requires t == Aggregator ==> DecodeAggregate(PHASE0, s).None? && DecodeVersionedAggregate(s).Err?
    requires t == SyncMessage ==> |s| != 144
    requires t in {Attester, Aggregator, SyncMessage}
    ensures P.Deserialize(f, t, s) ==
              if !OpensBrace(s) then Err(P.UnsupportedDutyType)
              else match f.json(t, s) case Some(d) => Ok(d) case None => Err(P.ForeignError)
  {
    hide DecodeAttestation, DecodeAggregate, DecodeVersionedAttestation, DecodeVersionedAggregate, P.LooksLikeJson;
    JsonIff(s);
  }
}
