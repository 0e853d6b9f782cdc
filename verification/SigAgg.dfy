/** Threshold aggregation of partial signatures (crates/core/src/sigagg.rs) and the quorum formula
    (crates/cluster/src/helpers.rs). */
module SigAgg {
  import opened Common
  import opened Slots
  import opened SszContainers
  import opened SszCodec
  import P = ParsigexCodec
  import opened ParSigSet

  // ---------------------------------------------------------------------------------------------
  // Quorum
  // ---------------------------------------------------------------------------------------------

  /** ceil(2n / 3); the source panics when 2n + 2 leaves u64. */
  function Threshold(nodes: nat): (t: nat)
    requires 2 * nodes + 2 <= U64_MAX
    ensures 2 * nodes <= 3 * t < 2 * nodes + 3
  {
    (2 * nodes + 2) / 3
  }

  /** The number of faulty nodes a cluster tolerates. */
  function Faulty(nodes: nat): nat
    requires nodes >= 1
  {
    (nodes - 1) / 3
  }

  ghost predicate Indices(s: set<nat>, nodes: nat) {
    forall i | i in s :: 1 <= i <= nodes
  }

  lemma {:induction false} IndicesAtMost(s: set<nat>, nodes: nat)
    requires Indices(s, nodes)
    ensures |s| <= nodes
  {
    if nodes == 0 {
      assert s == {};
    } else {
      IndicesAtMost(s - {nodes}, nodes - 1);
      assert s <= (s - {nodes}) + {nodes};
      SubsetSize(s, (s - {nodes}) + {nodes});
    }
  }

  lemma {:induction false} SubsetSize<T>(a: set<T>, b: set<T>)
    requires a <= b
    ensures |a| <= |b|
  {
    assert b == a + (b - a);
  }

  /** Two quorums share more indices than there can be faulty nodes. */
  lemma QuorumsOverlap(a: set<nat>, b: set<nat>, nodes: nat)
    requires nodes >= 1 && 2 * nodes + 2 <= U64_MAX && Indices(a, nodes) && Indices(b, nodes)
    requires |a| >= Threshold(nodes) && |b| >= Threshold(nodes)
    ensures |a * b| >= Faulty(nodes) + 1
  {
    IndicesAtMost(a + b, nodes);
    assert |a + b| == |a| + |b| - |a * b|;
  }

  // ---------------------------------------------------------------------------------------------
  // One validator
  // ---------------------------------------------------------------------------------------------

  type Shares = seq<ParSigned>

  /** BLS combination, chain verification and the foreign types' signature setter: arbitrary. */
  datatype Crypto = Crypto(
    combine: map<nat, Bytes> -> Option<Bytes>,
    verify: (PubKey, P.SignedData) -> bool,
    setForeign: (nat, Bytes) -> Option<nat>)

  datatype AggError = InvalidThreshold | EmptySet | RequireThresholdSignatures(key: PubKey)
    | InsufficientDistinctSignatures(key: PubKey) | SignatureFromCore(key: PubKey)
    | ThresholdAggregate(key: PubKey) | SetSignature(key: PubKey) | VerificationFailed | SubscriberFailed

  /** `set_signature_boxed`: everything but the signature stays. */
  function WithSignature(c: Crypto, d: P.SignedData, sig: Bytes): Option<P.SignedData> {
    match d
    case RawAttestation(a) => Some(P.RawAttestation(a.(signature := sig)))
    case VersionedAtt(va) =>
      if va.version == DataVersion.Unknown || va.attestation.None? then None
      else var p := va.attestation.value;
           Some(P.VersionedAtt(va.(attestation := Some(p.(body := p.body.(signature := sig))))))
    case RawAggregate(x) => Some(P.RawAggregate(x.(signature := sig)))
    case VersionedAgg(va) =>
      Some(P.VersionedAgg(va.(payload := va.payload.(body := va.payload.body.(signature := sig)))))
    case SyncMessageData(m) => Some(P.SyncMessageData(m.(signature := sig)))
    case Foreign(id) => match c.setForeign(id, sig) case None => None case Some(j) => Some(P.Foreign(j))
  }

  /** Setting a signature is read back, and setting the old one again restores the data. */
  lemma SignatureSetAndRead(f: P.ForeignCodec, c: Crypto, d: P.SignedData, sig: Bytes)
    requires !d.Foreign? && P.SignatureOf(f, d).Some?
    ensures WithSignature(c, d, sig).Some?
    ensures var e := WithSignature(c, d, sig).value;
            P.SignatureOf(f, e) == Some(sig) && WithSignature(c, e, P.SignatureOf(f, d).value) == Some(d)
  {
  }

  /** The map handed to BLS: signatures by share index, later ones replacing earlier ones. */
  function Dedup(f: P.ForeignCodec, shares: Shares): Option<map<nat, Bytes>> {
    if shares == [] then Some(map[]) else
    var x := shares[|shares| - 1];
    match (Dedup(f, shares[..|shares| - 1]), P.SignatureOf(f, x.data))
    case (Some(m), Some(sig)) => Some(m[x.shareIdx := sig])
    case _ => None
  }

  function ShareIndices(shares: Shares): set<nat> {
    set i | 0 <= i < |shares| :: shares[i].shareIdx
  }

  ghost predicate LastWith(shares: Shares, i: nat) {
    i < |shares| && forall j | i < j < |shares| :: shares[j].shareIdx != shares[i].shareIdx
  }

  /** It fails exactly when a share has no signature; otherwise it holds every share index, each
      with the signature of its last share. */
  lemma {:induction false} DedupExact(f: P.ForeignCodec, shares: Shares)
    ensures var r := Dedup(f, shares);
            && (r.Some? <==> forall i | 0 <= i < |shares| :: P.SignatureOf(f, shares[i].data).Some?)
            && (r.Some? ==> r.value.Keys == ShareIndices(shares))
            && (r.Some? ==> forall i: nat | LastWith(shares, i) ::
                  && shares[i].shareIdx in r.value
                  && P.SignatureOf(f, shares[i].data) == Some(r.value[shares[i].shareIdx]))
  {
    hide P.SignatureOf;
    if shares != [] {
      var n := |shares| - 1;
      var init, x := shares[..n], shares[n];
      DedupExact(f, init);
      assert shares == init + [x];
      assert ShareIndices(shares) == ShareIndices(init) + {x.shareIdx} by {
        assert forall i | 0 <= i < n :: init[i] == shares[i];
      }
      if Dedup(f, shares).Some? {
        var m := Dedup(f, shares).value;
        forall i: nat | LastWith(shares, i)
          ensures shares[i].shareIdx in m && P.SignatureOf(f, shares[i].data) == Some(m[shares[i].shareIdx])
        {
          if i < n {
            assert shares[n].shareIdx != shares[i].shareIdx;
            assert LastWith(init, i);
          }
        }
      }
    }
  }

  predicate HasValidatorIndex(d: P.SignedData) {
    d.VersionedAtt? && d.versioned.validatorIndex.Some?
  }

  /** The share whose data carries the result: scanning stops at the first share that is not a
      versioned attestation. */
  function TemplateFrom(shares: Shares, i: nat): (t: nat)
    requires shares != [] && i <= |shares|
    ensures t < |shares|
    decreases |shares| - i
  {
    if i == |shares| || !shares[i].data.VersionedAtt? then 0
    else if HasValidatorIndex(shares[i].data) then i
    else TemplateFrom(shares, i + 1)
  }

  /** Share `i` has a validator index and only attestations without one come before it. */
  ghost predicate FirstWithIndex(shares: Shares, i: nat) {
    && i < |shares| && HasValidatorIndex(shares[i].data)
    && forall j | 0 <= j < i :: shares[j].data.VersionedAtt? && !HasValidatorIndex(shares[j].data)
  }

  lemma {:induction false} TemplateExact(shares: Shares, from: nat)
    requires shares != [] && from <= |shares|
    requires forall j | 0 <= j < from :: shares[j].data.VersionedAtt? && !HasValidatorIndex(shares[j].data)
    ensures var t := TemplateFrom(shares, from);
            (FirstWithIndex(shares, t)) || (t == 0 && forall i: nat :: !FirstWithIndex(shares, i))
    decreases |shares| - from
  {
    if from < |shares| && shares[from].data.VersionedAtt? && !HasValidatorIndex(shares[from].data) {
      TemplateExact(shares, from + 1);
    }
  }

  function AggregateOne(f: P.ForeignCodec, c: Crypto, threshold: nat, key: PubKey, shares: Shares)
    : Result<P.SignedData, AggError>
    requires threshold > 0
  {
    if |shares| < threshold then Err(RequireThresholdSignatures(key)) else
    match Dedup(f, shares)
    case None => Err(SignatureFromCore(key))
    case Some(sigs) =>
      if |sigs| < threshold then Err(InsufficientDistinctSignatures(key)) else
      match c.combine(sigs)
      case None => Err(ThresholdAggregate(key))
      case Some(sig) =>
        match WithSignature(c, shares[TemplateFrom(shares, 0)].data, sig)
        case None => Err(SetSignature(key))
        case Some(d) => if c.verify(key, d) then Ok(d) else Err(VerificationFailed)
  }

  /** The two hold the same data, field by field, up to the signature. */
  predicate SameButSignature(x: P.SignedData, y: P.SignedData) {
    match (x, y)
    case (RawAttestation(a), RawAttestation(b)) => SameAttestation(a, b)
    case (VersionedAtt(a), VersionedAtt(b)) =>
      && a.version == b.version && a.validatorIndex == b.validatorIndex
      && a.attestation.Some? && b.attestation.Some? && a.attestation.value.fork == b.attestation.value.fork
      && SameAttestation(a.attestation.value.body, b.attestation.value.body)
    case (RawAggregate(a), RawAggregate(b)) => SameAggregate(a, b)
    case (VersionedAgg(a), VersionedAgg(b)) =>
      && a.version == b.version && a.payload.fork == b.payload.fork && SameAggregate(a.payload.body, b.payload.body)
    case (SyncMessageData(a), SyncMessageData(b)) =>
      a.slot == b.slot && a.blockRoot == b.blockRoot && a.validatorIndex == b.validatorIndex
    case _ => false
  }

  predicate SameAttestation(a: Attestation, b: Attestation) {
    a.bits == b.bits && a.data == b.data && a.committeeBits == b.committeeBits
  }

  predicate SameAggregate(a: Aggregate, b: Aggregate) {
    a.aggregatorIndex == b.aggregatorIndex && a.attestation == b.attestation && a.selectionProof == b.selectionProof
  }

  /** Where each type keeps its signature. */
  predicate Signed(d: P.SignedData, sig: Bytes) {
    match d
    case RawAttestation(a) => a.signature == sig
    case VersionedAtt(va) => va.attestation.Some? && va.attestation.value.body.signature == sig
    case RawAggregate(x) => x.signature == sig
    case VersionedAgg(va) => va.payload.body.signature == sig
    case SyncMessageData(m) => m.signature == sig
    case Foreign(_) => false
  }

  lemma SignatureWhere(f: P.ForeignCodec, c: Crypto, d: P.SignedData, sig: Bytes)
    requires !d.Foreign?
    ensures P.SignatureOf(f, d) == Some(sig) ==> Signed(d, sig)
    ensures var e := WithSignature(c, d, sig); e.Some? ==> Signed(e.value, sig) && SameButSignature(d, e.value)
  {
  }

  /** The share whose data carries the result. */
  ghost predicate IsTemplate(shares: Shares, t: nat) {
    t < |shares| && (FirstWithIndex(shares, t) || (t == 0 && forall i: nat :: !FirstWithIndex(shares, i)))
  }

  /** Every share index with the signature of its last share, and nothing else. */
  ghost predicate LastSignatures(f: P.ForeignCodec, shares: Shares, sigs: map<nat, Bytes>) {
    && sigs.Keys == ShareIndices(shares)
    && forall i: nat | LastWith(shares, i) ::
         shares[i].shareIdx in sigs && P.SignatureOf(f, shares[i].data) == Some(sigs[shares[i].shareIdx])
  }

  /** What a success returns: the template's data, changed in nothing but the signature, which is the
      combination of the last signature of every share index. */
  lemma SuccessIs(f: P.ForeignCodec, c: Crypto, threshold: nat, key: PubKey, shares: Shares)
    returns (t: nat, sigs: map<nat, Bytes>, sig: Bytes)
    requires threshold > 0 && AggregateOne(f, c, threshold, key, shares).Ok?
    ensures IsTemplate(shares, t) && LastSignatures(f, shares, sigs) && |sigs| >= threshold
    ensures c.combine(sigs) == Some(sig)
    ensures var d := AggregateOne(f, c, threshold, key, shares).value;
            && c.verify(key, d)
            && (!shares[t].data.Foreign? ==> Signed(d, sig) && SameButSignature(shares[t].data, d))
            && (HasValidatorIndex(shares[t].data) ==>
                  d.VersionedAtt? && d.versioned.validatorIndex == shares[t].data.versioned.validatorIndex)
  {
    hide P.SignatureOf, WithSignature, Dedup, SameButSignature, Signed;
    DedupExact(f, shares);
    TemplateExact(shares, 0);
    t, sigs := TemplateFrom(shares, 0), Dedup(f, shares).value;
    sig := c.combine(sigs).value;
    if !shares[t].data.Foreign? { SignatureWhere(f, c, shares[t].data, sig); }
    if HasValidatorIndex(shares[t].data) {
      IndexKept(shares[t].data, AggregateOne(f, c, threshold, key, shares).value);
    }
  }

  lemma IndexKept(x: P.SignedData, y: P.SignedData)
    requires HasValidatorIndex(x) && SameButSignature(x, y)
    ensures y.VersionedAtt? && y.versioned.validatorIndex == x.versioned.validatorIndex
  {
  }

  /** Which error is given, and when: too few shares, a share without a signature, too few distinct
      indices, a failed combination, a foreign type that refuses the signature, a failed check. */
  lemma FailureIs(f: P.ForeignCodec, c: Crypto, threshold: nat, key: PubKey, shares: Shares)
    returns (sigs: map<nat, Bytes>, t: nat)
    requires threshold > 0
    ensures var r, signed := AggregateOne(f, c, threshold, key, shares), AllSigned(f, shares);
            var reached := |shares| >= threshold && signed && |ShareIndices(shares)| >= threshold;
            && (r == Err(RequireThresholdSignatures(key)) <==> |shares| < threshold)
            && (r == Err(SignatureFromCore(key)) <==> |shares| >= threshold && !signed)
            && (r == Err(InsufficientDistinctSignatures(key)) <==>
                  |shares| >= threshold && signed && |ShareIndices(shares)| < threshold)
            && (reached ==> LastSignatures(f, shares, sigs) && IsTemplate(shares, t))
            && (r == Err(ThresholdAggregate(key)) <==> reached && c.combine(sigs).None?)
            && (r == Err(SetSignature(key)) <==> reached && c.combine(sigs).Some? && shares[t].data.Foreign?
                                                 && c.setForeign(shares[t].data.id, c.combine(sigs).value).None?)
            && (r == Err(VerificationFailed) ==> reached && c.combine(sigs).Some?)
  {
    hide P.SignatureOf, WithSignature;
    DedupExact(f, shares);
    sigs, t := map[], 0;
    if Dedup(f, shares).Some? {
      sigs := Dedup(f, shares).value;
      assert |sigs| == |sigs.Keys|;
      if shares != [] {
        TemplateExact(shares, 0);
        t := TemplateFrom(shares, 0);
        if c.combine(sigs).Some? { RefusedIff(f, c, shares[t].data, c.combine(sigs).value); }
      }
    }
  }

  ghost predicate AllSigned(f: P.ForeignCodec, shares: Shares) {
    forall i | 0 <= i < |shares| :: P.SignatureOf(f, shares[i].data).Some?
  }

  lemma RefusedIff(f: P.ForeignCodec, c: Crypto, d: P.SignedData, sig: Bytes)
    requires P.SignatureOf(f, d).Some?
    ensures WithSignature(c, d, sig).None? <==> d.Foreign? && c.setForeign(d.id, sig).None?
  {
  }

  /** A success counted at least `threshold` distinct share indices, and what it returns verified. */
  lemma SuccessCounted(f: P.ForeignCodec, c: Crypto, threshold: nat, key: PubKey, shares: Shares)
    requires threshold > 0 && AggregateOne(f, c, threshold, key, shares).Ok?
    ensures |ShareIndices(shares)| >= threshold && c.verify(key, AggregateOne(f, c, threshold, key, shares).value)
  {
    hide P.SignatureOf, WithSignature;
    DedupExact(f, shares);
    var m := Dedup(f, shares).value;
    assert |m| == |m.Keys|;
  }

  /** Any two successful aggregations in a cluster used overlapping shares, one of them from a node
      that is not faulty. */
  lemma SuccessesOverlap(f: P.ForeignCodec, c: Crypto, nodes: nat, k1: PubKey, s1: Shares, k2: PubKey, s2: Shares)
    requires nodes >= 1 && 2 * nodes + 2 <= U64_MAX
    requires Indices(ShareIndices(s1), nodes) && Indices(ShareIndices(s2), nodes)
    requires AggregateOne(f, c, Threshold(nodes), k1, s1).Ok? && AggregateOne(f, c, Threshold(nodes), k2, s2).Ok?
    ensures |ShareIndices(s1) * ShareIndices(s2)| >= Faulty(nodes) + 1
  {
    SuccessCounted(f, c, Threshold(nodes), k1, s1);
    SuccessCounted(f, c, Threshold(nodes), k2, s2);
    QuorumsOverlap(ShareIndices(s1), ShareIndices(s2), nodes);
  }

  lemma {:induction false} IndicesWithin(shares: Shares)
    ensures |ShareIndices(shares)| <= |shares|
  {
    if shares == [] {
      assert ShareIndices(shares) == {};
    } else {
      var init := shares[..|shares| - 1];
      IndicesWithin(init);
      assert ShareIndices(shares) == ShareIndices(init) + {shares[|shares| - 1].shareIdx} by {
        assert forall i | 0 <= i < |init| :: init[i] == shares[i];
      }
    }
  }

  /** Shares from all nodes that are not faulty always reach the threshold. */
  lemma HonestReachThreshold(f: P.ForeignCodec, c: Crypto, nodes: nat, key: PubKey, shares: Shares)
    requires nodes >= 1 && 2 * nodes + 2 <= U64_MAX && |ShareIndices(shares)| >= nodes - Faulty(nodes)
    ensures AggregateOne(f, c, Threshold(nodes), key, shares) !in
              {Err(RequireThresholdSignatures(key)), Err(InsufficientDistinctSignatures(key))}
  {
    hide P.SignatureOf, WithSignature;
    IndicesWithin(shares);
    DedupExact(f, shares);
    if Dedup(f, shares).Some? {
      var m := Dedup(f, shares).value;
      assert |m| == |m.Keys|;
    }
  }

  // ---------------------------------------------------------------------------------------------
  // The aggregator
  // ---------------------------------------------------------------------------------------------

  type Output = map<PubKey, P.SignedData>

  /** A subscriber's answer to a duty's output: whether it succeeded. */
  type Subscriber = (Duty, Output) -> bool

  datatype Call = Call(subscriber: nat, duty: Duty, output: Output)

  /** Subscribers run in order, up to and including the first that fails. */
  function Calls(subs: seq<Subscriber>, duty: Duty, output: Output): seq<Call> {
    if subs == [] then [] else
    var before := Calls(subs[..|subs| - 1], duty, output);
    if AllSucceed(subs[..|subs| - 1], duty, output) then before + [Call(|subs| - 1, duty, output)] else before
  }

  predicate AllSucceed(subs: seq<Subscriber>, duty: Duty, output: Output) {
    forall i | 0 <= i < |subs| :: subs[i](duty, output)
  }

  /** Each subscriber called is the next in order and hears the same, all but the last succeeded, and
      the last failed if any is left uncalled. */
  lemma {:induction false} CallsExact(subs: seq<Subscriber>, duty: Duty, output: Output)
    ensures var calls := Calls(subs, duty, output);
            && |calls| <= |subs|
            && (forall k | 0 <= k < |calls| :: calls[k] == Call(k, duty, output))
            && (forall k | 0 <= k < |calls| - 1 :: subs[k](duty, output))
            && (|calls| < |subs| ==> |calls| > 0 && !subs[|calls| - 1](duty, output))
  {
    if subs != [] {
      var init := subs[..|subs| - 1];
      CallsExact(init, duty, output);
      assert forall k | 0 <= k < |init| :: init[k] == subs[k];
      var before := Calls(init, duty, output);
      if !AllSucceed(init, duty, output) {
        var i :| 0 <= i < |init| && !init[i](duty, output);
      }
    }
  }

  class Aggregator {
    const foreign: P.ForeignCodec
    const crypto: Crypto
    const threshold: nat
    var subs: seq<Subscriber>

    /** Every call made to a subscriber so far. */
    var delivered: seq<Call>

    constructor (foreign: P.ForeignCodec, crypto: Crypto, threshold: nat)
      requires threshold > 0
      ensures this.foreign == foreign && this.crypto == crypto && this.threshold == threshold
      ensures subs == [] && delivered == []
    {
      this.foreign, this.crypto, this.threshold := foreign, crypto, threshold;
      subs, delivered := [], [];
    }

    /** `Aggregator::new` refuses a zero threshold. */
    static method New(foreign: P.ForeignCodec, crypto: Crypto, threshold: nat) returns (r: Result<Aggregator, AggError>)
      ensures r.Err? <==> threshold == 0
      ensures r.Ok? ==> fresh(r.value) && r.value.threshold == threshold
      ensures r.Ok? ==> r.value.subs == [] && r.value.delivered == []
    {
      if threshold == 0 { return Err(InvalidThreshold); }
      var a := new Aggregator(foreign, crypto, threshold);
      return Ok(a);
    }

    method Subscribe(sub: Subscriber)
      modifies this
      ensures subs == old(subs) + [sub] && delivered == old(delivered)
    {
      subs := subs + [sub];
    }

    ghost predicate Succeeds(key: PubKey, shares: Shares)
      requires threshold > 0
    {
      AggregateOne(foreign, crypto, threshold, key, shares).Ok?
    }

    method AggregateShares(key: PubKey, shares: Shares) returns (r: Result<P.SignedData, AggError>)
      requires threshold > 0
      ensures r == AggregateOne(foreign, crypto, threshold, key, shares)
    {
      hide P.SignatureOf;
      if |shares| < threshold { return Err(RequireThresholdSignatures(key)); }
      var sigs: map<nat, Bytes> := map[];
      for i := 0 to |shares|
        invariant Dedup(foreign, shares[..i]) == Some(sigs)
      {
        assert shares[..i + 1][..i] == shares[..i];
        match P.SignatureOf(foreign, shares[i].data) {
          case None =>
            DedupExact(foreign, shares);
            return Err(SignatureFromCore(key));
          case Some(sig) =>
            sigs := sigs[shares[i].shareIdx := sig];
        }
      }
      assert shares[..|shares|] == shares;
      if |sigs| < threshold { return Err(InsufficientDistinctSignatures(key)); }
      var sig := crypto.combine(sigs);
      if sig.None? { return Err(ThresholdAggregate(key)); }
      var t := FindTemplate(shares);
      var d := WithSignature(crypto, shares[t].data, sig.value);
      if d.None? { return Err(SetSignature(key)); }
      if !crypto.verify(key, d.value) { return Err(VerificationFailed); }
      return Ok(d.value);
    }

    method FindTemplate(shares: Shares) returns (t: nat)
      requires shares != []
      ensures t == TemplateFrom(shares, 0)
    {
      var i := 0;
      while i < |shares| && shares[i].data.VersionedAtt?
        invariant i <= |shares| && TemplateFrom(shares, 0) == TemplateFrom(shares, i)
      {
        if HasValidatorIndex(shares[i].data) { return i; }
        i := i + 1;
      }
      return 0;
    }

    /** The first half of `aggregate`: one output per validator, or the error of one that failed. */
    method Outputs(set_: map<PubKey, Shares>) returns (r: Result<Output, AggError>)
      requires threshold > 0
      ensures r.Ok? ==> r.value.Keys == set_.Keys &&
                        forall k | k in set_ :: AggregateOne(foreign, crypto, threshold, k, set_[k]) == Ok(r.value[k])
      ensures r.Err? ==> exists k :: k in set_ && AggregateOne(foreign, crypto, threshold, k, set_[k]) == Err(r.error)
    {
      var output: Output, todo := map[], set_.Keys;
      while todo != {}
        invariant todo <= set_.Keys && output.Keys == set_.Keys - todo
        invariant forall k | k in output :: AggregateOne(foreign, crypto, threshold, k, set_[k]) == Ok(output[k])
        decreases |todo|
      {
        hide AggregateOne;
        var k :| k in todo;
        var one := AggregateShares(k, set_[k]);
        if one.Err? { return Err(one.error); }
        output, todo := output[k := one.value], todo - {k};
      }
      return Ok(output);
    }

    /** Subscribers hear nothing unless every validator succeeded; then each hears of all of them. */
    method Aggregate(duty: Duty, set_: map<PubKey, Shares>) returns (r: Result<(), AggError>)
      requires threshold > 0
      modifies this`delivered
      ensures set_ == map[] || (exists k :: k in set_ && !Succeeds(k, set_[k])) ==>
                r.Err? && delivered == old(delivered)
      ensures set_ != map[] && (forall k | k in set_ :: Succeeds(k, set_[k])) ==>
                exists output: Output ::
                  && output.Keys == set_.Keys
                  && (forall k | k in set_ :: AggregateOne(foreign, crypto, threshold, k, set_[k]) == Ok(output[k]))
                  && delivered == old(delivered) + Calls(subs, duty, output)
                  && r == (if AllSucceed(subs, duty, output) then Ok(()) else Err(SubscriberFailed))
    {
      hide AggregateOne;
      if set_ == map[] { return Err(EmptySet); }
      var outputs := Outputs(set_);
      if outputs.Err? { return Err(outputs.error); }
      var output := outputs.value;
      r := Notify(duty, output);
    }

    method Notify(duty: Duty, output: Output) returns (r: Result<(), AggError>)
      modifies this`delivered
      ensures delivered == old(delivered) + Calls(subs, duty, output)
      ensures r == if AllSucceed(subs, duty, output) then Ok(()) else Err(SubscriberFailed)
    {
      for i := 0 to |subs|
        invariant AllSucceed(subs[..i], duty, output)
        invariant delivered == old(delivered) + Calls(subs[..i], duty, output)
      {
        assert subs[..i + 1][..i] == subs[..i];
        delivered := delivered + [Call(i, duty, output)];
        if !subs[i](duty, output) {
          StopsHere(subs, duty, output, i + 1);
          assert !AllSucceed(subs, duty, output);
          return Err(SubscriberFailed);
        }
      }
      assert subs[..|subs|] == subs;
      return Ok(());
    }
  }

  lemma {:induction false} StopsHere(subs: seq<Subscriber>, duty: Duty, output: Output, n: nat)
    requires n <= |subs| && !AllSucceed(subs[..n], duty, output)
    ensures Calls(subs, duty, output) == Calls(subs[..n], duty, output)
    decreases |subs|
  {
    if n == |subs| {
      assert subs[..n] == subs;
    } else {
      var init := subs[..|subs| - 1];
      assert init[..n] == subs[..n];
      StopsHere(init, duty, output, n);
      var i :| 0 <= i < n && !subs[..n][i](duty, output);
      assert !init[i](duty, output);
    }
  }
}
