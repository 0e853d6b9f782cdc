/** Partial-signature sets to protobuf and back (crates/core/src/types.rs). */
module ParSigSet {
  import opened Common
  import opened Slots
  import opened SszContainers
  import P = ParsigexCodec
  import K = PubKeyText

  datatype ParSigned = ParSigned(data: P.SignedData, shareIdx: nat)

  /** The protobuf message; `shareIdx` is an i32. */
  datatype ProtoParSigned = ProtoParSigned(data: Bytes, signature: Bytes, shareIdx: int)

  datatype SetError =
    | InvalidFields
    | InvalidPubKey(text: string)
    | InvalidShareIndex
    | InvalidSignature
    | Codec(error: P.Error)

  type SigSet = map<PubKey, ParSigned>

  type ProtoSet = map<string, ProtoParSigned>

  /** Keys are 48 bytes and members have their Rust types. */
  ghost predicate Typed(set_: SigSet) {
    forall k | k in set_ :: |k.bytes| == K.PK_LEN && set_[k].data.Typed()
  }

  function ToProtoOne(f: P.ForeignCodec, x: ParSigned): Result<ProtoParSigned, SetError>
    requires x.data.Typed()
  {
    var encoded := P.Serialize(f, x.data);
    if encoded.Err? then Err(Codec(encoded.error))
    else if x.shareIdx > I32_MAX then Err(InvalidShareIndex)
    else match P.SignatureOf(f, x.data)
         case None => Err(InvalidSignature)
         case Some(signature) => Ok(ProtoParSigned(encoded.value, signature, x.shareIdx))
  }

  function FromProtoOne(f: P.ForeignCodec, t: DutyType, p: ProtoParSigned): Result<ParSigned, SetError> {
    if p.shareIdx < 0 then Err(InvalidShareIndex) else
    match P.Deserialize(f, t, p.data)
    case Err(e) => Err(Codec(e))
    case Ok(d) => Ok(ParSigned(d, p.shareIdx))
  }

  /** A converted member carries the share index, the encoded data and the signature of that data. */
  lemma ConvertedCarries(f: P.ForeignCodec, x: ParSigned)
    requires x.data.Typed() && ToProtoOne(f, x).Ok?
    ensures var p := ToProtoOne(f, x).value;
            && p.shareIdx == x.shareIdx && P.Serialize(f, x.data) == Ok(p.data)
            && match x.data
               case RawAttestation(a) => p.signature == a.signature
               case VersionedAtt(va) => va.attestation.Some? && p.signature == va.attestation.value.body.signature
               case RawAggregate(y) => p.signature == y.signature
               case VersionedAgg(va) => p.signature == va.payload.body.signature
               case SyncMessageData(m) => p.signature == m.signature
               case Foreign(id) => f.signature(id) == Some(p.signature)
  {
    hide P.Serialize;
  }

  /** Which error a member that does not convert gives: its encoding's, then a share index past i32,
      then a missing signature. */
  lemma ConversionErrors(f: P.ForeignCodec, x: ParSigned)
    requires x.data.Typed()
    ensures var r, encoded := ToProtoOne(f, x), P.Serialize(f, x.data);
            && (forall e :: r == Err(Codec(e)) <==> encoded == Err(e))
            && (r == Err(InvalidShareIndex) <==> encoded.Ok? && x.shareIdx > 0x7FFF_FFFF)
            && (r == Err(InvalidSignature) <==>
                  encoded.Ok? && x.shareIdx <= 0x7FFF_FFFF && P.SignatureOf(f, x.data).None?)
            && (r.Err? ==> r.error in {InvalidShareIndex, InvalidSignature} || encoded.Err?)
  {
    hide P.Serialize;
  }

  /** Coming back, a negative index is refused before the data is read. */
  lemma ReceivedMember(f: P.ForeignCodec, t: DutyType, p: ProtoParSigned)
    ensures var r, data := FromProtoOne(f, t, p), P.Deserialize(f, t, p.data);
            && (r == Err(InvalidShareIndex) <==> p.shareIdx < 0)
            && (forall e :: r == Err(Codec(e)) <==> p.shareIdx >= 0 && data == Err(e))
            && (forall x :: r == Ok(x) <==> p.shareIdx >= 0 && data == Ok(x.data) && x.shareIdx == p.shareIdx)
  {
    hide P.Deserialize;
  }

  /** `out` holds exactly the converted members of `keys`, under their printed keys. */
  ghost predicate Converted(f: P.ForeignCodec, set_: SigSet, keys: set<PubKey>, out: ProtoSet)
    requires Typed(set_) && keys <= set_.Keys
  {
    && (forall k | k in keys :: K.KeyText(k) in out && ToProtoOne(f, set_[k]) == Ok(out[K.KeyText(k)]))
    && (forall text | text in out :: exists k :: k in keys && K.KeyText(k) == text)
  }

  /** Walks the set in any order; the first member that fails to convert aborts. */
  method ToProto(f: P.ForeignCodec, set_: SigSet) returns (r: Result<ProtoSet, SetError>)
    requires Typed(set_)
    ensures r.Ok? ==> Converted(f, set_, set_.Keys, r.value)
    ensures r.Err? ==> exists k :: k in set_ && ToProtoOne(f, set_[k]) == Err(r.error)
  {
    var out: ProtoSet, todo := map[], set_.Keys;
    while todo != {}
      invariant todo <= set_.Keys && Converted(f, set_, set_.Keys - todo, out)
      decreases |todo|
    {
      var k :| k in todo;
      var one := ToProtoOne(f, set_[k]);
      if one.Err? { return Err(one.error); }
      AddConverted(f, set_, set_.Keys - todo, out, k);
      out, todo := out[K.KeyText(k) := one.value], todo - {k};
      assert set_.Keys - todo == (set_.Keys - (todo + {k})) + {k};
    }
    return Ok(out);
  }

  lemma AddConverted(f: P.ForeignCodec, set_: SigSet, keys: set<PubKey>, out: ProtoSet, k: PubKey)
    requires Typed(set_) && keys <= set_.Keys && k in set_ && Converted(f, set_, keys, out)
    requires ToProtoOne(f, set_[k]).Ok?
    ensures Converted(f, set_, keys + {k}, out[K.KeyText(k) := ToProtoOne(f, set_[k]).value])
  {
    hide P.Serialize, P.SignatureOf, K.KeyText;
    var out' := out[K.KeyText(k) := ToProtoOne(f, set_[k]).value];
    forall j | j in keys + {k} ensures K.KeyText(j) in out' && ToProtoOne(f, set_[j]) == Ok(out'[K.KeyText(j)]) {
      if K.KeyText(j) == K.KeyText(k) { K.PrintedKeysDiffer(j, k); }
    }
    forall text | text in out' ensures exists j :: j in keys + {k} && K.KeyText(j) == text {
      if text != K.KeyText(k) {
        var j :| j in keys && K.KeyText(j) == text;
      }
    }
  }

  // ---------------------------------------------------------------------------------------------
  // Back: the received map is walked in the order of its texts
  // ---------------------------------------------------------------------------------------------

  /** `Ord` on strings: lexicographic. */
  predicate Before(s: string, t: string) {
    t != [] && (s == [] || s[0] < t[0] || (s[0] == t[0] && Before(s[1..], t[1..])))
  }

  /** The first difference decides, the smaller character first; a proper prefix comes first. */
  ghost predicate Differs(s: string, t: string, i: nat) {
    && i <= |s| && i < |t| && s[..i] == t[..i] && (i == |s| || s[i] < t[i])
  }

  lemma {:induction false} BeforeIff(s: string, t: string)
    ensures Before(s, t) <==> exists i: nat :: Differs(s, t, i)
  {
    if s == [] || t == [] || s[0] != t[0] {
      if t != [] && (s == [] || s[0] < t[0]) { assert Differs(s, t, 0); }
      forall i: nat | Differs(s, t, i) ensures Before(s, t) {
        if i > 0 { assert s[..i][0] == t[..i][0]; }
      }
    } else {
      BeforeIff(s[1..], t[1..]);
      forall i: nat | Differs(s[1..], t[1..], i) ensures Differs(s, t, i + 1) {
        assert s[..i + 1] == [s[0]] + s[1..][..i] && t[..i + 1] == [t[0]] + t[1..][..i];
      }
      forall i: nat | Differs(s, t, i) ensures i > 0 && Differs(s[1..], t[1..], i - 1) {
        assert s[1..][..i - 1] == s[..i][1..] && t[1..][..i - 1] == t[..i][1..];
      }
    }
  }

  lemma {:induction false} BeforeTotal(s: string, t: string)
    ensures s == t || Before(s, t) || Before(t, s)
    ensures !(Before(s, t) && Before(t, s)) && !Before(s, s)
  {
    if s != [] && t != [] && s[0] == t[0] {
      BeforeTotal(s[1..], t[1..]);
      assert s == [s[0]] + s[1..] && t == [t[0]] + t[1..];
    }
    if s != [] { BeforeTotal(s[1..], s[1..]); }
  }

  lemma {:induction false} BeforeTransitive(s: string, t: string, u: string)
    requires Before(s, t) && Before(t, u)
    ensures Before(s, u)
  {
    if s != [] && s[0] == t[0] == u[0] { BeforeTransitive(s[1..], t[1..], u[1..]); }
  }

  ghost predicate IsFirst(text: string, texts: set<string>) {
    text in texts && forall u | u in texts :: u == text || Before(text, u)
  }

  lemma {:induction false} FirstExists(texts: set<string>)
    requires texts != {}
    ensures exists text :: IsFirst(text, texts)
  {
    var some :| some in texts;
    if texts == {some} {
      assert IsFirst(some, texts);
    } else {
      var rest := texts - {some};
      assert texts == rest + {some};
      FirstExists(rest);
      var least :| IsFirst(least, rest);
      BeforeTotal(some, least);
      var text := if Before(some, least) then some else least;
      forall u | u in texts ensures u == text || Before(text, u) {
        if text == some && u != some && u != least { BeforeTransitive(some, least, u); }
      }
      assert IsFirst(text, texts);
    }
  }

  /** Why a received member is refused. */
  function Refused(f: P.ForeignCodec, t: DutyType, text: string, p: ProtoParSigned): Option<SetError> {
    if K.ParseKey(text).Err? then Some(InvalidPubKey(text))
    else match FromProtoOne(f, t, p)
         case Err(e) => Some(e)
         case Ok(_) => None
  }

  /** Of the texts for a key, the last one gives its member. */
  ghost predicate Wins(f: P.ForeignCodec, t: DutyType, proto: ProtoSet, texts: set<string>,
                       k: PubKey, x: ParSigned, text: string)
    requires texts <= proto.Keys
  {
    && text in texts && K.ParseKey(text) == Ok(k) && FromProtoOne(f, t, proto[text]) == Ok(x)
    && forall u | u in texts && K.ParseKey(u) == Ok(k) :: u == text || Before(u, text)
  }

  /** `out` holds exactly what the texts in `texts` parse to, later texts replacing earlier ones. */
  ghost predicate ConvertedBack(f: P.ForeignCodec, t: DutyType, proto: ProtoSet, texts: set<string>, out: SigSet)
    requires texts <= proto.Keys
  {
    && (forall text | text in texts ::
          K.ParseKey(text).Ok? && FromProtoOne(f, t, proto[text]).Ok? && K.ParseKey(text).value in out)
    && (forall k | k in out :: exists text :: Wins(f, t, proto, texts, k, out[k], text))
  }

  /** The error is that of an empty message, or of the first member that is refused. */
  ghost predicate Failed(f: P.ForeignCodec, t: DutyType, proto: ProtoSet, e: SetError) {
    if proto == map[] then e == InvalidFields else
    exists text :: text in proto && Refused(f, t, text, proto[text]) == Some(e) &&
      forall u | u in proto && Before(u, text) :: Refused(f, t, u, proto[u]) == None
  }

  /** `done` has been walked and every text in it comes before those still to do. */
  ghost predicate Walked(f: P.ForeignCodec, t: DutyType, proto: ProtoSet, done: set<string>, out: SigSet)
    requires done <= proto.Keys
  {
    && ConvertedBack(f, t, proto, done, out)
    && forall s, u | s in done && u in proto.Keys - done :: Before(s, u)
  }

  method FromProto(f: P.ForeignCodec, t: DutyType, proto: ProtoSet) returns (r: Result<SigSet, SetError>)
    ensures r.Ok? ==> proto != map[] && ConvertedBack(f, t, proto, proto.Keys, r.value)
    ensures r.Err? ==> Failed(f, t, proto, r.error)
  {
    hide FromProtoOne, K.ParseKey, Before, ConvertedBack, Walked, Failed;
    if proto == map[] {
      EmptyFails(f, t);
      return Err(InvalidFields);
    }
    var out: SigSet, todo := map[], proto.Keys;
    ghost var done: set<string> := {};
    StartWalk(f, t, proto);
    while todo != {}
      invariant done <= proto.Keys && todo == proto.Keys - done && Walked(f, t, proto, done, out)
      decreases |todo|
    {
      FirstExists(todo);
      var text :| text in todo && forall u | u in todo :: u == text || Before(text, u);
      var refused := Refused(f, t, text, proto[text]);
      if refused.Some? {
        FirstRefused(f, t, proto, done, out, text);
        return Err(refused.value);
      }
      WalkOn(f, t, proto, done, out, text);
      out := out[K.ParseKey(text).value := FromProtoOne(f, t, proto[text]).value];
      done, todo := done + {text}, todo - {text};
    }
    assert done == proto.Keys;
    AllWalked(f, t, proto, out);
    return Ok(out);
  }

  lemma EmptyFails(f: P.ForeignCodec, t: DutyType)
    ensures Failed(f, t, map[], InvalidFields)
  {
  }

  lemma StartWalk(f: P.ForeignCodec, t: DutyType, proto: ProtoSet)
    ensures Walked(f, t, proto, {}, map[])
  {
  }

  lemma AllWalked(f: P.ForeignCodec, t: DutyType, proto: ProtoSet, out: SigSet)
    requires Walked(f, t, proto, proto.Keys, out)
    ensures ConvertedBack(f, t, proto, proto.Keys, out)
  {
  }

  lemma FirstRefused(f: P.ForeignCodec, t: DutyType, proto: ProtoSet, done: set<string>, out: SigSet, text: string)
    requires done <= proto.Keys && IsFirst(text, proto.Keys - done) && Walked(f, t, proto, done, out)
    requires Refused(f, t, text, proto[text]).Some?
    ensures Failed(f, t, proto, Refused(f, t, text, proto[text]).value)
  {
    hide FromProtoOne, K.ParseKey, Before, Wins;
    forall u | u in proto && Before(u, text) ensures Refused(f, t, u, proto[u]) == None {
      BeforeTotal(u, text);
      assert u in done;
    }
  }

  lemma WalkOn(f: P.ForeignCodec, t: DutyType, proto: ProtoSet, done: set<string>, out: SigSet, text: string)
    requires done <= proto.Keys && IsFirst(text, proto.Keys - done) && Walked(f, t, proto, done, out)
    requires Refused(f, t, text, proto[text]).None?
    ensures Walked(f, t, proto, done + {text},
                   out[K.ParseKey(text).value := FromProtoOne(f, t, proto[text]).value])
  {
    hide FromProtoOne, K.ParseKey, Before, ConvertedBack;
    AddConvertedBack(f, t, proto, done, out, text);
  }

  lemma StillWins(f: P.ForeignCodec, t: DutyType, proto: ProtoSet, texts: set<string>,
                  k: PubKey, x: ParSigned, u: string, text: string)
    requires texts <= proto.Keys && text in proto && Wins(f, t, proto, texts, k, x, u) && K.ParseKey(text) != Ok(k)
    ensures Wins(f, t, proto, texts + {text}, k, x, u)
  {
    hide FromProtoOne, K.ParseKey, Before;
  }

  lemma LastWins(f: P.ForeignCodec, t: DutyType, proto: ProtoSet, texts: set<string>, text: string)
    requires texts <= proto.Keys && text in proto && forall u | u in texts :: Before(u, text)
    requires K.ParseKey(text).Ok? && FromProtoOne(f, t, proto[text]).Ok?
    ensures Wins(f, t, proto, texts + {text}, K.ParseKey(text).value, FromProtoOne(f, t, proto[text]).value, text)
  {
    hide FromProtoOne, K.ParseKey, Before;
  }

  lemma AddConvertedBack(f: P.ForeignCodec, t: DutyType, proto: ProtoSet, texts: set<string>, out: SigSet, text: string)
    requires texts <= proto.Keys && text in proto && ConvertedBack(f, t, proto, texts, out)
    requires K.ParseKey(text).Ok? && FromProtoOne(f, t, proto[text]).Ok? && forall u | u in texts :: Before(u, text)
    ensures ConvertedBack(f, t, proto, texts + {text},
                          out[K.ParseKey(text).value := FromProtoOne(f, t, proto[text]).value])
  {
    hide K.ParseKey, FromProtoOne, Before, Wins;
    var key, x := K.ParseKey(text).value, FromProtoOne(f, t, proto[text]).value;
    var out' := out[key := x];
    forall k | k in out' ensures exists u :: Wins(f, t, proto, texts + {text}, k, out'[k], u) {
      if k == key {
        LastWins(f, t, proto, texts, text);
      } else {
        var u :| Wins(f, t, proto, texts, k, out[k], u);
        StillWins(f, t, proto, texts, k, out[k], u, text);
      }
    }
  }

  /** Whether one member makes it through, in terms a sender can check. */
  predicate Sendable(f: P.ForeignCodec, t: DutyType, x: ParSigned)
    requires x.data.Typed()
  {
    x.shareIdx <= I32_MAX && P.SignatureOf(f, x.data).Some? && P.RoundTrips(f, t, x.data)
  }

  /** For attester, aggregator and sync-message duties that is a matter of the share index and the
      data alone. */
  lemma SendableIff(f: P.ForeignCodec, t: DutyType, x: ParSigned)
    requires x.data.Typed()
    requires (t == Attester && (x.data.RawAttestation? || x.data.VersionedAtt?))
             || (t == Aggregator && (x.data.RawAggregate? || x.data.VersionedAgg?))
             || (t == SyncMessage && x.data.SyncMessageData?)
    ensures Sendable(f, t, x) <==> x.shareIdx <= 0x7FFF_FFFF && P.Recoverable(t, x.data)
  {
    hide P.RoundTrips;
    P.TypeAndValueRecovered(f, t, x.data);
  }

  lemma MemberSurvivesIff(f: P.ForeignCodec, t: DutyType, x: ParSigned)
    requires x.data.Typed()
    ensures Sendable(f, t, x) <==> ToProtoOne(f, x).Ok? && FromProtoOne(f, t, ToProtoOne(f, x).value) == Ok(x)
  {
    hide P.Serialize, P.Deserialize, P.SignatureOf;
  }

  lemma ConvertedMember(f: P.ForeignCodec, set_: SigSet, proto: ProtoSet, text: string) returns (k: PubKey)
    requires Typed(set_) && Converted(f, set_, set_.Keys, proto) && text in proto
    ensures k in set_ && K.KeyText(k) == text && K.ParseKey(text) == Ok(k) && ToProtoOne(f, set_[k]) == Ok(proto[text])
  {
    k :| k in set_.Keys && K.KeyText(k) == text;
    K.PrintedKeyParses(k);
  }

  lemma BackMember(f: P.ForeignCodec, t: DutyType, set_: SigSet, proto: ProtoSet, out: SigSet, k: PubKey)
    requires Typed(set_) && Converted(f, set_, set_.Keys, proto)
    requires ConvertedBack(f, t, proto, proto.Keys, out) && k in out
    ensures k in set_ && ToProtoOne(f, set_[k]).Ok? && FromProtoOne(f, t, ToProtoOne(f, set_[k]).value) == Ok(out[k])
  {
    hide ToProtoOne, FromProtoOne, K.KeyText, K.ParseKey, Converted;
    var text :| Wins(f, t, proto, proto.Keys, k, out[k], text);
    var j := ConvertedMember(f, set_, proto, text);
  }

  lemma NoneLost(f: P.ForeignCodec, t: DutyType, set_: SigSet, proto: ProtoSet, out: SigSet, k: PubKey)
    requires Typed(set_) && Converted(f, set_, set_.Keys, proto)
    requires ConvertedBack(f, t, proto, proto.Keys, out) && k in set_
    ensures k in out
  {
    hide ToProtoOne, FromProtoOne, K.KeyText, K.ParseKey;
    assert K.KeyText(k) in proto;
    K.PrintedKeyParses(k);
  }

  /** What comes back has the set's keys, and is the set exactly when every member is sendable. */
  lemma BackIff(f: P.ForeignCodec, t: DutyType, set_: SigSet, proto: ProtoSet, out: SigSet)
    requires Typed(set_) && Converted(f, set_, set_.Keys, proto) && ConvertedBack(f, t, proto, proto.Keys, out)
    ensures out.Keys == set_.Keys
    ensures set_ != map[] ==> (out == set_ <==> Deliverable(f, t, set_))
  {
    hide ToProtoOne, FromProtoOne, Sendable, Converted, ConvertedBack;
    forall k | k in set_ ensures k in out { NoneLost(f, t, set_, proto, out, k); }
    forall k | k in out ensures k in set_ && (out[k] == set_[k] <==> Sendable(f, t, set_[k])) {
      BackMember(f, t, set_, proto, out, k);
      MemberSurvivesIff(f, t, set_[k]);
    }
  }

  /** The whole set makes it through. */
  ghost predicate Deliverable(f: P.ForeignCodec, t: DutyType, set_: SigSet)
    requires Typed(set_)
  {
    set_ != map[] && forall k | k in set_ :: Sendable(f, t, set_[k])
  }

  lemma ToProtoFailed(f: P.ForeignCodec, t: DutyType, set_: SigSet, e: SetError)
    requires Typed(set_) && exists k :: k in set_ && ToProtoOne(f, set_[k]) == Err(e)
    ensures !Deliverable(f, t, set_)
  {
    hide ToProtoOne, FromProtoOne, Sendable;
    var k :| k in set_ && ToProtoOne(f, set_[k]) == Err(e);
    MemberSurvivesIff(f, t, set_[k]);
  }

  lemma FromProtoFailed(f: P.ForeignCodec, t: DutyType, set_: SigSet, proto: ProtoSet, e: SetError)
    requires Typed(set_) && Converted(f, set_, set_.Keys, proto) && Failed(f, t, proto, e)
    ensures !Deliverable(f, t, set_)
  {
    hide ToProtoOne, FromProtoOne, K.KeyText, K.ParseKey, Sendable, Converted;
    EmptyProto(f, set_, proto);
    if proto != map[] {
      var text :| text in proto && Refused(f, t, text, proto[text]) == Some(e);
      var k := ConvertedMember(f, set_, proto, text);
      MemberSurvivesIff(f, t, set_[k]);
    }
  }

  lemma EmptyProto(f: P.ForeignCodec, set_: SigSet, proto: ProtoSet)
    requires Typed(set_) && Converted(f, set_, set_.Keys, proto)
    ensures proto == map[] <==> set_ == map[]
  {
    hide ToProtoOne, K.KeyText;
    if set_ != map[] {
      var k :| k in set_;
      assert K.KeyText(k) in proto;
    }
  }

  lemma ReceivedIff(f: P.ForeignCodec, t: DutyType, set_: SigSet, proto: ProtoSet, r: Result<SigSet, SetError>)
    requires Typed(set_) && Converted(f, set_, set_.Keys, proto)
    requires r.Ok? ==> proto != map[] && ConvertedBack(f, t, proto, proto.Keys, r.value)
    requires r.Err? ==> Failed(f, t, proto, r.error)
    ensures r == Ok(set_) <==> Deliverable(f, t, set_)
  {
    hide FromProtoOne, Sendable, Typed, Deliverable, Converted, ConvertedBack, Failed, K.ParseKey;
    if r.Err? {
      FromProtoFailed(f, t, set_, proto, r.error);
    } else {
      EmptyProto(f, set_, proto);
      BackIff(f, t, set_, proto, r.value);
    }
  }

  /** A set sent and received: it arrives unchanged, keys, values and size, exactly when it is not
      empty and every member is sendable. */
  method SendAndReceive(f: P.ForeignCodec, t: DutyType, set_: SigSet) returns (received: Result<SigSet, SetError>)
    requires Typed(set_)
    ensures received == Ok(set_) <==> Deliverable(f, t, set_)
  {
    hide ToProtoOne, FromProtoOne, Sendable, Typed, Deliverable, Converted, ConvertedBack, Failed;
    hide K.KeyText, K.ParseKey;
    var proto := ToProto(f, set_);
    if proto.Err? {
      ToProtoFailed(f, t, set_, proto.error);
      return Err(proto.error);
    }
    received := FromProto(f, t, proto.value);
    ReceivedIff(f, t, set_, proto.value, received);
  }
}
