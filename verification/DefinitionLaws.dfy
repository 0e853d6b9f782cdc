/** What the two definition hashes depend on: exact conditions for equal hash inputs. */
module DefinitionLaws {
  import opened Common
  import opened H = DefinitionHash
  import K = PubKeyText

  // ---------------------------------------------------------------------------------------------
  // What it means to agree
  // ---------------------------------------------------------------------------------------------

  /** An address as the version hashes it: its text, its bytes, or its bytes padded to 20. */
  function Hashed(v: Version, address: Bytes): Bytes
    requires !v.Legacy() ==> IsAddress(address)
  {
    if v.Legacy() then address
    else if v.ThreeOrFour() then AddressBytes(address)
    else LeftPad(AddressBytes(address), ADDRESS_LEN)
  }

  /** A signature as the version hashes it. */
  function HashedSignature(v: Version, signature: Bytes): Bytes {
    if v.Legacy() then signature else LeftPad(signature, 65)
  }

  predicate SameAddresses(v: Version, a: Addresses, b: Addresses)
    requires !v.Legacy() ==> IsAddress(a.feeRecipient) && IsAddress(a.withdrawal)
    requires !v.Legacy() ==> IsAddress(b.feeRecipient) && IsAddress(b.withdrawal)
  {
    Hashed(v, a.feeRecipient) == Hashed(v, b.feeRecipient) && Hashed(v, a.withdrawal) == Hashed(v, b.withdrawal)
  }

  predicate SameSigned(v: Version, o: Operator, p: Operator) {
    && o.enr == p.enr
    && HashedSignature(v, o.configSignature) == HashedSignature(v, p.configSignature)
    && HashedSignature(v, o.enrSignature) == HashedSignature(v, p.enrSignature)
  }

  predicate SameOperator(v: Version, o: Operator, p: Operator, configOnly: bool)
    requires !v.Legacy() ==> OperatorFits(o, configOnly) && OperatorFits(p, configOnly)
  {
    Hashed(v, o.address) == Hashed(v, p.address) && (!configOnly ==> SameSigned(v, o, p))
  }

  predicate SameOperators(v: Version, a: seq<Operator>, b: seq<Operator>, configOnly: bool)
    requires !v.Legacy() ==> OperatorsFit(a, configOnly) && OperatorsFit(b, configOnly)
  {
    |a| == |b| && forall i | 0 <= i < |a| :: SameOperator(v, a[i], b[i], configOnly)
  }

  /** The fields every version hashes, and each in one form only. */
  predicate SameNames(a: Definition, b: Definition) {
    && a.uuid == b.uuid && a.name == b.name && a.numValidators == b.numValidators && a.threshold == b.threshold
    && a.dkgAlgorithm == b.dkgAlgorithm
  }

  predicate SameLists(a: Definition, b: Definition, v: Version)
    requires v.FiveOrLater() && AddressesFit(a.validatorAddresses) && AddressesFit(b.validatorAddresses)
  {
    var x, y := a.validatorAddresses, b.validatorAddresses;
    |x| == |y| && forall i | 0 <= i < |x| :: SameAddresses(v, x[i], y[i])
  }

  /** The fields later versions add. */
  predicate SameExtra(a: Definition, b: Definition, v: Version) {
    && (v.V1_8? || v.V1_9? || v.V1_10? ==> a.depositAmounts == b.depositAmounts)
    && (v.V1_9? || v.V1_10? ==> a.consensusProtocol == b.consensusProtocol)
    && (v.V1_10? ==> a.targetGasLimit == b.targetGasLimit && a.compounding == b.compounding)
  }

  predicate AgreeLegacy(a: Definition, b: Definition, configOnly: bool)
    requires LegacyPair(a, b)
  {
    && SameNames(a, b) && a.forkVersion == b.forkVersion
    && SameAddresses(a.version, LegacyAddresses(a), LegacyAddresses(b))
    && SameOperators(a.version, a.operators, b.operators, configOnly)
    && (configOnly || !a.version.V1_0? ==> a.timestamp == b.timestamp)
  }

  predicate AgreeV3(a: Definition, b: Definition, configOnly: bool)
    requires V3Pair(a, b, configOnly)
  {
    && SameNames(a, b) && a.timestamp == b.timestamp && a.forkVersion == b.forkVersion
    && SameAddresses(a.version, LegacyAddresses(a), LegacyAddresses(b))
    && SameOperators(a.version, a.operators, b.operators, configOnly)
    && (a.version.V1_4? ==>
          && Hashed(a.version, a.creator.address) == Hashed(b.version, b.creator.address)
          && (!configOnly ==> a.creator.configSignature == b.creator.configSignature))
    && (!configOnly ==> a.configHash == b.configHash)
  }

  predicate AgreeV5(a: Definition, b: Definition, configOnly: bool)
    requires V5Pair(a, b, configOnly)
  {
    && SameNames(a, b) && a.timestamp == b.timestamp && LeftPad(a.forkVersion, 4) == LeftPad(b.forkVersion, 4)
    && SameLists(a, b, a.version) && SameExtra(a, b, a.version)
    && SameOperators(a.version, a.operators, b.operators, configOnly)
    && Hashed(a.version, a.creator.address) == Hashed(b.version, b.creator.address)
    && (!configOnly ==>
          && HashedSignature(a.version, a.creator.configSignature)
             == HashedSignature(b.version, b.creator.configSignature)
          && LeftPad(a.configHash, 32) == LeftPad(b.configHash, 32))
  }

  /** Two definitions of one version agree on everything that version hashes: with `configOnly` on
      the configuration, without it on ENRs, signatures and the config hash as well. */
  predicate Agree(a: Definition, b: Definition, configOnly: bool)
    requires a.version == b.version && Hashable(a, configOnly) && Hashable(b, configOnly)
  {
    if a.version.Legacy() then AgreeLegacy(a, b, configOnly)
    else if a.version.ThreeOrFour() then AgreeV3(a, b, configOnly)
    else AgreeV5(a, b, configOnly)
  }

  predicate LegacyPair(a: Definition, b: Definition) {
    a.version == b.version && a.version.Legacy() && OneAddressPair(a) && OneAddressPair(b)
  }

  predicate V3Pair(a: Definition, b: Definition, configOnly: bool) {
    a.version == b.version && a.version.ThreeOrFour() && V3Fits(a, configOnly) && V3Fits(b, configOnly)
  }

  predicate V5Pair(a: Definition, b: Definition, configOnly: bool) {
    a.version == b.version && a.version.FiveOrLater() && V5Fits(a, configOnly) && V5Fits(b, configOnly)
  }

  // ---------------------------------------------------------------------------------------------
  // Part by part
  // ---------------------------------------------------------------------------------------------

  lemma SplitIff(p: seq<Node>, q: seq<Node>, p': seq<Node>, q': seq<Node>)
    requires |p| == |p'|
    ensures p + q == p' + q' <==> p == p' && q == q'
  {
    if p + q == p' + q' {
      assert (p + q)[..|p|] == p && (p' + q')[..|p|] == p';
      assert (p + q)[|p|..] == q && (p' + q')[|p|..] == q';
    }
  }

  lemma HexInjective(a: Bytes, b: Bytes)
    requires ToHex(a) == ToHex(b)
    ensures a == b
  {
    if a != [] && b != [] {
      var s, t := "0x" + K.HexText(a), "0x" + K.HexText(b);
      HexIsAscii(a);
      HexIsAscii(b);
      forall i | 0 <= i < |s| ensures s[i] == t[i] {
        assert Ascii(s)[i] == Ascii(t)[i];
      }
      assert s == t && s[2..] == K.HexText(a) && t[2..] == K.HexText(b);
      K.HexIsLower(a);
      K.DecodeHexIff(K.HexText(a), a);
      K.DecodeHexIff(K.HexText(a), b);
    }
  }

  lemma {:induction false} HexIsAscii(b: Bytes)
    ensures forall i | 0 <= i < |K.HexText(b)| :: K.HexText(b)[i] as int < 128
  {
    if b != [] { HexIsAscii(b[1..]); }
  }

  lemma ByteListIff(a: Bytes, b: Bytes, limit: nat)
    ensures ByteList(a, limit) == ByteList(b, limit) <==> a == b
  {
    if ByteList(a, limit) == ByteList(b, limit) {
      assert ByteList(a, limit).children[0] == ByteList(b, limit).children[0];
    }
  }

  lemma OneIff(x: Node, y: Node)
    ensures [x] == [y] <==> x == y
  {
    if [x] == [y] { assert [x][0] == [y][0]; }
  }

  lemma ListIff(x: seq<Node>, y: seq<Node>, limit: nat, limit': nat)
    requires |x| == |y| ==> limit == limit'
    ensures ListRoot(x, |x|, limit) == ListRoot(y, |y|, limit') <==>
              |x| == |y| && forall i | 0 <= i < |x| :: x[i] == y[i]
  {
    if |x| == |y| { assert x == y <==> forall i | 0 <= i < |x| :: x[i] == y[i]; }
  }

  lemma LegacyOperatorIff(a: Definition, b: Definition, o: Operator, p: Operator, configOnly: bool)
    requires a.version == b.version && a.version.Legacy()
    ensures LegacyOperator(a, o, configOnly) == LegacyOperator(b, p, configOnly) <==>
              SameOperator(a.version, o, p, configOnly)
  {
    if !configOnly {
      var x, y := LegacyOperator(a, o, false).children, LegacyOperator(b, p, false).children;
      if x == y {
        assert x[0] == y[0] && x[1] == y[1] && x[|x| - 2] == y[|y| - 2] && x[|x| - 1] == y[|y| - 1];
      }
    }
  }

  lemma LegacyOperatorsIff(a: Definition, b: Definition, configOnly: bool)
    requires a.version == b.version && a.version.Legacy()
    ensures LegacyOperators(a, configOnly) == LegacyOperators(b, configOnly) <==>
              SameOperators(a.version, a.operators, b.operators, configOnly)
  {
    hide LegacyOperator, SameOperator;
    var x, y := LegacyOperators(a, configOnly).children, LegacyOperators(b, configOnly).children;
    ListIff(x, y, |x|, |y|);
    forall i | 0 <= i < |x| && i < |y|
      ensures x[i] == y[i] <==> SameOperator(a.version, a.operators[i], b.operators[i], configOnly)
    {
      LegacyOperatorIff(a, b, a.operators[i], b.operators[i], configOnly);
    }
  }

  lemma LegacyFieldsIff(a: Definition, b: Definition)
    requires a.version == b.version && a.version.Legacy()
    ensures LegacyFields(a) == LegacyFields(b) <==>
              && SameNames(a, b) && a.forkVersion == b.forkVersion
              && SameAddresses(a.version, LegacyAddresses(a), LegacyAddresses(b))
  {
    hide Version.Text, ToHex;
    var x, y := LegacyFields(a), LegacyFields(b);
    if x == y {
      assert x[0] == y[0] && x[1] == y[1] && x[3] == y[3] && x[4] == y[4];
      assert x[5] == y[5] && x[6] == y[6] && x[7] == y[7] && x[8] == y[8];
      HexInjective(a.forkVersion, b.forkVersion);
    }
  }

  lemma LegacyTimestampIff(a: Definition, b: Definition, configOnly: bool)
    requires a.version == b.version
    ensures LegacyTimestamp(a, configOnly) == LegacyTimestamp(b, configOnly) <==>
              (configOnly || !a.version.V1_0? ==> a.timestamp == b.timestamp)
  {
    OneIff(PutBytes(a.timestamp), PutBytes(b.timestamp));
  }

  lemma LegacyIff(a: Definition, b: Definition, configOnly: bool)
    requires LegacyPair(a, b)
    ensures LegacyTree(a, configOnly) == LegacyTree(b, configOnly) <==> AgreeLegacy(a, b, configOnly)
  {
    hide LegacyOperators, LegacyTimestamp, SameOperators, OneAddressPair, SameNames, SameAddresses;
    var x, y := LegacyOperators(a, configOnly), LegacyOperators(b, configOnly);
    var s, t := LegacyTimestamp(a, configOnly), LegacyTimestamp(b, configOnly);
    SplitIff(LegacyFields(a), [x] + s, LegacyFields(b), [y] + t);
    SplitIff([x], s, [y], t);
    OneIff(x, y);
    LegacyFieldsIff(a, b);
    LegacyOperatorsIff(a, b, configOnly);
    LegacyTimestampIff(a, b, configOnly);
  }

  lemma OperatorIff(v: Version, o: Operator, p: Operator, configOnly: bool)
    requires !v.Legacy() && OperatorFits(o, configOnly) && OperatorFits(p, configOnly)
    ensures OperatorTree(o, configOnly, !v.ThreeOrFour()) == OperatorTree(p, configOnly, !v.ThreeOrFour()) <==>
              SameOperator(v, o, p, configOnly)
  {
    hide FromHex, LeftPad, ByteList;
    var x := OperatorTree(o, configOnly, !v.ThreeOrFour()).children;
    var y := OperatorTree(p, configOnly, !v.ThreeOrFour()).children;
    ByteListIff(o.enr, p.enr, 1024);
    assert x[0] == PutBytes(Hashed(v, o.address)) && y[0] == PutBytes(Hashed(v, p.address));
    assert x == y <==> x[0] == y[0] && (!configOnly ==> x[1] == y[1] && x[2] == y[2] && x[3] == y[3]);
  }

  lemma OperatorListIff(v: Version, a: seq<Operator>, b: seq<Operator>, configOnly: bool)
    requires !v.Legacy() && OperatorsFit(a, configOnly) && OperatorsFit(b, configOnly)
    ensures OperatorList(a, configOnly, !v.ThreeOrFour()) == OperatorList(b, configOnly, !v.ThreeOrFour()) <==>
              SameOperators(v, a, b, configOnly)
  {
    hide OperatorTree, OperatorFits, SameOperator;
    var x := OperatorList(a, configOnly, !v.ThreeOrFour()).children;
    var y := OperatorList(b, configOnly, !v.ThreeOrFour()).children;
    ListIff(x, y, 256, 256);
    forall i | 0 <= i < |a| && i < |b| ensures x[i] == y[i] <==> SameOperator(v, a[i], b[i], configOnly) {
      OperatorIff(v, a[i], b[i], configOnly);
    }
  }

  lemma CommonFieldsIff(a: Definition, b: Definition)
    requires a.version == b.version
    ensures CommonFields(a) == CommonFields(b) <==>
              && a.uuid == b.uuid && a.name == b.name && a.timestamp == b.timestamp
              && a.numValidators == b.numValidators && a.threshold == b.threshold
  {
    hide Version.Text, ByteList;
    ByteListIff(a.uuid, b.uuid, 64);
    ByteListIff(a.name, b.name, 256);
    ByteListIff(a.timestamp, b.timestamp, 32);
    var x, y := CommonFields(a), CommonFields(b);
    if x == y {
      assert x[0] == y[0] && x[1] == y[1] && x[3] == y[3] && x[4] == y[4] && x[5] == y[5];
    }
  }

  lemma V3FieldsIff(a: Definition, b: Definition, configOnly: bool)
    requires V3Pair(a, b, configOnly)
    ensures V3Fields(a) == V3Fields(b) <==>
              && a.dkgAlgorithm == b.dkgAlgorithm && a.forkVersion == b.forkVersion
              && SameAddresses(a.version, LegacyAddresses(a), LegacyAddresses(b))
  {
    hide FromHex, ByteList, OperatorsFit, OneAddressPair, CommonFits;
    ByteListIff(a.dkgAlgorithm, b.dkgAlgorithm, 32);
    var x, y := V3Fields(a), V3Fields(b);
    if x == y {
      assert x[0] == y[0] && x[1] == y[1] && x[2] == y[2] && x[3] == y[3];
    }
  }

  lemma V3CreatorIff(a: Definition, b: Definition, configOnly: bool)
    requires V3Pair(a, b, configOnly)
    ensures V3Creator(a, configOnly) == V3Creator(b, configOnly) <==>
              (a.version.V1_4? ==>
                 && Hashed(a.version, a.creator.address) == Hashed(b.version, b.creator.address)
                 && (!configOnly ==> a.creator.configSignature == b.creator.configSignature))
  {
    hide FromHex, OperatorsFit, OneAddressPair, CommonFits;
    if a.version.V1_4? {
      var x, y := V3Creator(a, configOnly)[0], V3Creator(b, configOnly)[0];
      OneIff(x, y);
      assert x.children == y.children <==>
             x.children[0] == y.children[0] && (!configOnly ==> x.children[1] == y.children[1]);
    }
  }

  lemma V3TailIff(a: Definition, b: Definition, configOnly: bool)
    requires V3Pair(a, b, configOnly)
    ensures V3Tail(a, configOnly) == V3Tail(b, configOnly) <==>
              && V3Creator(a, configOnly) == V3Creator(b, configOnly)
              && (!configOnly ==> a.configHash == b.configHash)
  {
    hide FromHex, OperatorsFit, OneAddressPair, CommonFits;
    SplitIff(V3Creator(a, configOnly), if configOnly then [] else [PutBytes(a.configHash)],
             V3Creator(b, configOnly), if configOnly then [] else [PutBytes(b.configHash)]);
    OneIff(PutBytes(a.configHash), PutBytes(b.configHash));
  }

  lemma V3Iff(a: Definition, b: Definition, configOnly: bool)
    requires V3Pair(a, b, configOnly)
    ensures V3Tree(a, configOnly) == V3Tree(b, configOnly) <==> AgreeV3(a, b, configOnly)
  {
    V3Parts(a, b, configOnly);
    V3PartsAgree(a, b, configOnly);
  }

  predicate V3SameParts(a: Definition, b: Definition, configOnly: bool)
    requires V3Pair(a, b, configOnly)
  {
    && CommonFields(a) == CommonFields(b) && V3Fields(a) == V3Fields(b)
    && OperatorList(a.operators, configOnly, false) == OperatorList(b.operators, configOnly, false)
    && V3Tail(a, configOnly) == V3Tail(b, configOnly)
  }

  lemma V3Parts(a: Definition, b: Definition, configOnly: bool)
    requires V3Pair(a, b, configOnly)
    ensures V3Tree(a, configOnly) == V3Tree(b, configOnly) <==> V3SameParts(a, b, configOnly)
  {
    hide OperatorList, V3Tail, ByteList, FromHex, Version.Text, OperatorsFit, CommonFits;
    var x := OperatorList(a.operators, configOnly, false);
    var y := OperatorList(b.operators, configOnly, false);
    var s, t := V3Tail(a, configOnly), V3Tail(b, configOnly);
    SplitIff(CommonFields(a), V3Fields(a) + ([x] + s), CommonFields(b), V3Fields(b) + ([y] + t));
    SplitIff(V3Fields(a), [x] + s, V3Fields(b), [y] + t);
    SplitIff([x], s, [y], t);
    OneIff(x, y);
  }

  lemma V3PartsAgree(a: Definition, b: Definition, configOnly: bool)
    requires V3Pair(a, b, configOnly)
    ensures V3SameParts(a, b, configOnly) <==> AgreeV3(a, b, configOnly)
  {
    hide OperatorList, V3Tail, V3Creator, V3Fields, CommonFields, FromHex, OperatorsFit, CommonFits;
    hide SameOperators, OneAddressPair;
    CommonFieldsIff(a, b);
    V3FieldsIff(a, b, configOnly);
    OperatorListIff(a.version, a.operators, b.operators, configOnly);
    V3TailIff(a, b, configOnly);
    V3CreatorIff(a, b, configOnly);
  }

  lemma AddressesListIff(a: Definition, b: Definition, v: Version)
    requires v.FiveOrLater() && AddressesFit(a.validatorAddresses) && AddressesFit(b.validatorAddresses)
    ensures AddressesList(a.validatorAddresses) == AddressesList(b.validatorAddresses) <==> SameLists(a, b, v)
  {
    hide FromHex, LeftPad;
    var p, q := a.validatorAddresses, b.validatorAddresses;
    var x, y := AddressesList(p).children, AddressesList(q).children;
    ListIff(x, y, 65536, 65536);
    forall i | 0 <= i < |p| && i < |q| ensures x[i] == y[i] <==> SameAddresses(v, p[i], q[i]) {
      var s, t := x[i].children, y[i].children;
      assert s == t <==> s[0] == t[0] && s[1] == t[1];
    }
  }

  lemma ExtraIff(a: Definition, b: Definition)
    requires a.version == b.version
    ensures V5Extra(a) == V5Extra(b) <==> SameExtra(a, b, a.version)
  {
    hide ByteList;
    ByteListIff(a.consensusProtocol, b.consensusProtocol, 256);
    var x, y := V5Extra(a), V5Extra(b);
    if x == y {
      assert |x| >= 1 ==> x[0] == y[0];
      assert |x| >= 2 ==> x[1] == y[1];
      assert |x| >= 4 ==> x[2] == y[2] && x[3] == y[3];
    }
  }

  lemma V5CreatorIff(a: Definition, b: Definition, configOnly: bool)
    requires V5Pair(a, b, configOnly)
    ensures V5Creator(a, configOnly) == V5Creator(b, configOnly) <==>
              && Hashed(a.version, a.creator.address) == Hashed(b.version, b.creator.address)
              && (!configOnly ==> HashedSignature(a.version, a.creator.configSignature)
                                  == HashedSignature(b.version, b.creator.configSignature))
  {
    hide FromHex, LeftPad, OperatorsFit, AddressesFit, CommonFits;
    var x, y := V5Creator(a, configOnly).children, V5Creator(b, configOnly).children;
    assert x == y <==> x[0] == y[0] && (!configOnly ==> x[1] == y[1]);
  }

  lemma V5FieldsIff(a: Definition, b: Definition)
    ensures V5Fields(a) == V5Fields(b) <==>
              a.dkgAlgorithm == b.dkgAlgorithm && LeftPad(a.forkVersion, 4) == LeftPad(b.forkVersion, 4)
  {
    hide ByteList, LeftPad;
    ByteListIff(a.dkgAlgorithm, b.dkgAlgorithm, 32);
    var x, y := V5Fields(a), V5Fields(b);
    assert x == y <==> x[0] == y[0] && x[1] == y[1];
  }

  lemma V5ListsIff(a: Definition, b: Definition, configOnly: bool)
    requires V5Pair(a, b, configOnly)
    ensures V5Lists(a, configOnly) == V5Lists(b, configOnly) <==>
              && SameOperators(a.version, a.operators, b.operators, configOnly)
              && V5Creator(a, configOnly) == V5Creator(b, configOnly) && SameLists(a, b, a.version)
  {
    hide OperatorList, V5Creator, AddressesList, OperatorsFit, AddressesFit, FromHex, CommonFits;
    hide SameOperators, SameLists;
    OperatorListIff(a.version, a.operators, b.operators, configOnly);
    AddressesListIff(a, b, a.version);
    var x, y := V5Lists(a, configOnly), V5Lists(b, configOnly);
    assert x == y <==> x[0] == y[0] && x[1] == y[1] && x[2] == y[2];
  }

  lemma V5TailIff(a: Definition, b: Definition, configOnly: bool)
    requires a.version == b.version
    ensures V5Tail(a, configOnly) == V5Tail(b, configOnly) <==>
              && SameExtra(a, b, a.version)
              && (!configOnly ==> LeftPad(a.configHash, 32) == LeftPad(b.configHash, 32))
  {
    hide LeftPad, ByteList;
    ExtraIff(a, b);
    SplitIff(V5Extra(a), if configOnly then [] else [PutBytes(LeftPad(a.configHash, 32))],
             V5Extra(b), if configOnly then [] else [PutBytes(LeftPad(b.configHash, 32))]);
    OneIff(PutBytes(LeftPad(a.configHash, 32)), PutBytes(LeftPad(b.configHash, 32)));
  }

  lemma V5Parts(a: Definition, b: Definition, configOnly: bool)
    requires V5Pair(a, b, configOnly)
    ensures V5Tree(a, configOnly) == V5Tree(b, configOnly) <==>
              && CommonFields(a) == CommonFields(b) && V5Fields(a) == V5Fields(b)
              && V5Lists(a, configOnly) == V5Lists(b, configOnly) && V5Tail(a, configOnly) == V5Tail(b, configOnly)
  {
    hide OperatorList, V5Creator, AddressesList, V5Tail, ByteList, LeftPad, Version.Text, V5Fits;
    var p, q, r := V5Fields(a), V5Lists(a, configOnly), V5Tail(a, configOnly);
    var x, y, z := V5Fields(b), V5Lists(b, configOnly), V5Tail(b, configOnly);
    SplitIff(CommonFields(a), p + (q + r), CommonFields(b), x + (y + z));
    SplitIff(p, q + r, x, y + z);
    SplitIff(q, r, y, z);
  }

  lemma V5Iff(a: Definition, b: Definition, configOnly: bool)
    requires V5Pair(a, b, configOnly)
    ensures V5Tree(a, configOnly) == V5Tree(b, configOnly) <==> AgreeV5(a, b, configOnly)
  {
    hide CommonFields, V5Fields, V5Lists, V5Tail, V5Tree, V5Creator, FromHex, LeftPad;
    hide SameOperators, SameLists, SameExtra, OperatorsFit, AddressesFit, CommonFits;
    V5Parts(a, b, configOnly);
    CommonFieldsIff(a, b);
    V5FieldsIff(a, b);
    V5ListsIff(a, b, configOnly);
    V5CreatorIff(a, b, configOnly);
    V5TailIff(a, b, configOnly);
  }

  // ---------------------------------------------------------------------------------------------
  // Whole definitions
  // ---------------------------------------------------------------------------------------------

  lemma TextsDiffer(v: Version, w: Version)
    requires !v.Other? && !w.Other? && v.Text() == w.Text()
    ensures v == w
  {
    hide Ascii;
    VersionDigits(v);
    VersionDigits(w);
  }

  /** A known version's text is told by its length and fourth byte. */
  lemma VersionDigits(v: Version)
    requires !v.Other?
    ensures |v.Text()| == (if v.V1_10? then 7 else 6)
    ensures var c: int := v.Text()[3];
            match v
            case V1_0 => c == 48
            case V1_1 => c == 49
            case V1_2 => c == 50
            case V1_3 => c == 51
            case V1_4 => c == 52
            case V1_5 => c == 53
            case V1_6 => c == 54
            case V1_7 => c == 55
            case V1_8 => c == 56
            case V1_9 => c == 57
            case V1_10 => c == 49
            case Other(_) => true
  {
  }

  /** The third node holds the version, in a form that differs between the families. */
  lemma VersionNode(d: Definition, configOnly: bool)
    requires Hashable(d, configOnly)
    ensures var t := Tree(d, configOnly);
            && !d.version.Other? && t.Root? && |t.children| > 2
            && t.children[2] ==
                 if d.version.Legacy() then PutBytes(d.version.Text()) else ByteList(d.version.Text(), 16)
  {
    hide Version.Text, ByteList, OperatorList, V3Fields, V3Tail, V5Fields, V5Lists, V5Tail, LegacyOperators, FromHex;
    hide LegacyTimestamp, V3Fits, V5Fits;
  }

  /** Hash inputs of different versions never coincide. */
  lemma VersionsDiffer(a: Definition, b: Definition, configOnly: bool)
    requires Hashable(a, configOnly) && Hashable(b, configOnly) && Tree(a, configOnly) == Tree(b, configOnly)
    ensures a.version == b.version
  {
    hide Version.Text, Tree, Hashable, ByteList;
    VersionNode(a, configOnly);
    VersionNode(b, configOnly);
    ByteListIff(a.version.Text(), b.version.Text(), 16);
    ByteListIsList(a.version.Text(), 16);
    ByteListIsList(b.version.Text(), 16);
    TextsDiffer(a.version, b.version);
  }

  lemma ByteListIsList(b: Bytes, limit: nat)
    ensures ByteList(b, limit).ListRoot?
  {
  }

  /** Two hash inputs are the same exactly when the definitions have one version and agree on
      everything it hashes. */
  lemma TreeIff(a: Definition, b: Definition, configOnly: bool)
    requires Hashable(a, configOnly) && Hashable(b, configOnly)
    ensures Tree(a, configOnly) == Tree(b, configOnly) <==> a.version == b.version && Agree(a, b, configOnly)
  {
    if Tree(a, configOnly) == Tree(b, configOnly) { VersionsDiffer(a, b, configOnly); }
    if a.version == b.version {
      hide LegacyTree, V3Tree, V5Tree, V3Fits, V5Fits, OneAddressPair, AgreeLegacy, AgreeV3, AgreeV5;
      if a.version.Legacy() {
        LegacyIff(a, b, configOnly);
      } else if a.version.ThreeOrFour() {
        V3Iff(a, b, configOnly);
      } else {
        V5Iff(a, b, configOnly);
      }
    }
  }

  /** The config hash input identifies the configuration. */
  lemma ConfigTreeIff(a: Definition, b: Definition)
    requires Hashable(a, true) && Hashable(b, true)
    ensures Tree(a, true) == Tree(b, true) <==> a.version == b.version && Agree(a, b, true)
  {
    TreeIff(a, b, true);
  }

  /** The full hash input identifies the definition, as far as its version hashes it. */
  lemma DefinitionTreeIff(a: Definition, b: Definition)
    requires Hashable(a, false) && Hashable(b, false)
    ensures Tree(a, false) == Tree(b, false) <==> a.version == b.version && Agree(a, b, false)
  {
    TreeIff(a, b, false);
  }

  /** Equal full hash inputs mean equal operator ENRs and signatures, operator by operator. */
  lemma DefinitionTreeBindsOperators(a: Definition, b: Definition, i: nat)
    requires Hashable(a, false) && Hashable(b, false) && Tree(a, false) == Tree(b, false) && i < |a.operators|
    ensures a.version == b.version && |a.operators| == |b.operators|
    ensures SameSigned(a.version, a.operators[i], b.operators[i])
  {
    hide Tree, SameSigned, SameNames, SameAddresses, SameLists, SameExtra;
    DefinitionTreeIff(a, b);
    assert SameOperator(a.version, a.operators[i], b.operators[i], false);
  }

  /** What the full hash of v1.0 leaves out although its config hash does not: the timestamp. */
  lemma TimestampFree(d: Definition, timestamp: Bytes)
    requires d.version.V1_0? && Hashable(d, false)
    ensures Hashable(d.(timestamp := timestamp), false) && Tree(d.(timestamp := timestamp), false) == Tree(d, false)
    ensures Tree(d.(timestamp := timestamp), true) == Tree(d, true) <==> timestamp == d.timestamp
  {
    var e := d.(timestamp := timestamp);
    assert e.operators == d.operators && e.validatorAddresses == d.validatorAddresses;
    TreeIff(e, d, false);
    TreeIff(e, d, true);
  }
}
