/** Where each field sits in the hash input, family by family, with the source's field numbers and
    limits written out. `DefinitionLaws` says which definitions share an input; this says which input
    other implementations must build. */
module DefinitionFields {
  import opened Common
  import opened H = DefinitionHash
  import K = PubKeyText

  // ---------------------------------------------------------------------------------------------
  // Pieces
  // ---------------------------------------------------------------------------------------------

  /** A byte list: its bytes in chunks of 32, its length, and a limit in chunks. */
  predicate IsByteList(node: Node, b: Bytes, chunks: nat) {
    node == ListRoot([AppendBytes32(b)], |b|, chunks)
  }

  /** Padding puts zeros in front, up to the length. */
  lemma PaddedIs(s: Bytes, n: nat)
    ensures var p := LeftPad(s, n);
            && |p| == (if |s| >= n then |s| else n) && p[|p| - |s|..] == s
            && forall i | 0 <= i < |p| - |s| :: p[i] == 0
  {
  }

  /** An address is empty text or 20 bytes in hex, in any case, with or without a leading 0x. */
  lemma AddressIff(s: Bytes, b: Bytes)
    ensures FromHex(s, 20) == Some(b) <==> if s == [] then b == [] else |b| == 20 && K.Spells(AsText(s), b)
  {
    hide K.Spells, K.DecodeHex;
    K.SpellsIff(AsText(s), b);
  }

  function Minor(v: Version): nat
    requires !v.Other?
  {
    match v
    case V1_0 => 0
    case V1_1 => 1
    case V1_2 => 2
    case V1_3 => 3
    case V1_4 => 4
    case V1_5 => 5
    case V1_6 => 6
    case V1_7 => 7
    case V1_8 => 8
    case V1_9 => 9
    case V1_10 => 10
  }

  lemma AsciiSix(s: string)
    requires |s| == 6 && forall i | 0 <= i < 6 :: s[i] as int < 128
    ensures Ascii(s) == [s[0] as int, s[1] as int, s[2] as int, s[3] as int, s[4] as int, s[5] as int]
  {
  }

  lemma AsciiSeven(s: string)
    requires |s| == 7 && forall i | 0 <= i < 7 :: s[i] as int < 128
    ensures Ascii(s) ==
              [s[0] as int, s[1] as int, s[2] as int, s[3] as int, s[4] as int, s[5] as int, s[6] as int]
  {
  }

  /** The version is hashed as its text, v1.minor.0. */
  lemma VersionText(v: Version)
    ensures !v.Other? && v != V1_10 ==> v.Text() == [118, 49, 46, 48 + Minor(v), 46, 48]
    ensures v == V1_10 ==> v.Text() == [118, 49, 46, 49, 48, 46, 48]
    ensures v.Other? ==> v.Text() == v.text
  {
    hide Ascii;
    match v
    case V1_0 => AsciiSix("v1.0.0");
    case V1_1 => AsciiSix("v1.1.0");
    case V1_2 => AsciiSix("v1.2.0");
    case V1_3 => AsciiSix("v1.3.0");
    case V1_4 => AsciiSix("v1.4.0");
    case V1_5 => AsciiSix("v1.5.0");
    case V1_6 => AsciiSix("v1.6.0");
    case V1_7 => AsciiSix("v1.7.0");
    case V1_8 => AsciiSix("v1.8.0");
    case V1_9 => AsciiSix("v1.9.0");
    case V1_10 => AsciiSeven("v1.10.0");
    case Other(_) =>
  }

  /** The legacy fork version is hex text with a leading 0x, or nothing. */
  lemma ForkText(b: Bytes, i: nat)
    ensures ToHex([]) == []
    ensures b != [] ==> |ToHex(b)| == 2 + 2 * |b| && ToHex(b)[0] == 48 && ToHex(b)[1] == 120
    ensures i < |b| ==>
              && ToHex(b)[2 + 2 * i] == "0123456789abcdef"[b[i] / 16] as int
              && ToHex(b)[3 + 2 * i] == "0123456789abcdef"[b[i] % 16] as int
  {
    hide ToHex, K.HexText;
    assert ToHex([]) == [] by { NoFork(); }
    K.HexLength(b);
    if b != [] { ForkBytes(b); }
    if i < |b| {
      K.HexPositions(b, i);
      HexChars(b[i] / 16);
      HexChars(b[i] % 16);
    }
  }

  lemma NoFork()
    ensures ToHex([]) == []
  {
  }

  lemma ForkBytes(b: Bytes)
    requires b != []
    ensures var s, h := ToHex(b), K.HexText(b);
            && |s| == 2 + |h| && s[0] == 48 && s[1] == 120 && forall k | 0 <= k < |h| :: s[2 + k] == h[k] as int % 256
  {
    hide K.HexText;
  }

  lemma HexChars(n: nat)
    requires n < 16
    ensures "0123456789abcdef"[n] as int < 256
  {
    K.DigitIs(n);
  }

  // ---------------------------------------------------------------------------------------------
  // v1.0 to v1.2
  // ---------------------------------------------------------------------------------------------

  lemma LegacyLayout(d: Definition, configOnly: bool)
    requires d.version in {V1_0, V1_1, V1_2} && Hashable(d, configOnly)
    ensures var t, first := Tree(d, configOnly), d.validatorAddresses;
            && t.Root? && var f := t.children;
            && |f| == (if (if configOnly then d.timestamp != [] else d.version != V1_0) then 11 else 10)
            && f[0] == PutBytes(d.uuid) && f[1] == PutBytes(d.name) && f[2] == PutBytes(d.version.Text())
            && f[3] == PutUint64(d.numValidators) && f[4] == PutUint64(d.threshold)
            && f[5] == PutBytes(if first == [] then [] else first[0].feeRecipient)
            && f[6] == PutBytes(if first == [] then [] else first[0].withdrawal)
            && f[7] == PutBytes(d.dkgAlgorithm) && f[8] == PutBytes(ToHex(d.forkVersion))
            && f[9].ListRoot? && |f[9].children| == f[9].count == f[9].limit == |d.operators|
            && (|f| == 11 ==> f[10] == PutBytes(d.timestamp))
  {
    hide Version.Text, ToHex, LegacyOperator, OneAddressPair;
  }

  lemma LegacyOperatorLayout(d: Definition, configOnly: bool, i: nat)
    requires d.version in {V1_0, V1_1, V1_2} && Hashable(d, configOnly) && i < |d.operators|
    ensures var f, o := Tree(d, configOnly).children, d.operators[i];
            && |f| > 9 && f[9].ListRoot? && i < |f[9].children|
            && f[9].children[i] ==
                 if configOnly then PutBytes(o.address)
                 else if d.version == V1_2
                 then Root([PutBytes(o.address), PutBytes(o.enr), PutBytes(o.configSignature),
                            PutBytes(o.enrSignature)])
                 else Root([PutBytes(o.address), PutBytes(o.enr), PutUint64(0), PutBytes(o.configSignature),
                            PutBytes(o.enrSignature)])
  {
    hide Version.Text, ToHex, LegacyOperator, OneAddressPair;
    LegacyLayout(d, configOnly);
    var o := d.operators[i];
    assert Tree(d, configOnly).children[9].children[i] == LegacyOperator(d, o, configOnly);
    LegacyOperatorIs(d, o, configOnly);
  }

  lemma LegacyOperatorIs(d: Definition, o: Operator, configOnly: bool)
    requires d.version in {V1_0, V1_1, V1_2}
    ensures LegacyOperator(d, o, configOnly) ==
              if configOnly then PutBytes(o.address)
              else if d.version == V1_2
              then Root([PutBytes(o.address), PutBytes(o.enr), PutBytes(o.configSignature), PutBytes(o.enrSignature)])
              else Root([PutBytes(o.address), PutBytes(o.enr), PutUint64(0), PutBytes(o.configSignature),
                         PutBytes(o.enrSignature)])
  {
  }

  // ---------------------------------------------------------------------------------------------
  // v1.3 and v1.4
  // ---------------------------------------------------------------------------------------------

  lemma V3Layout(d: Definition, configOnly: bool)
    requires d.version in {V1_3, V1_4} && Hashable(d, configOnly)
    ensures var t, first := Tree(d, configOnly), d.validatorAddresses;
            && t.Root? && var f := t.children;
            && |f| == 11 + (if d.version == V1_4 then 1 else 0) + (if configOnly then 0 else 1)
            && IsByteList(f[0], d.uuid, 2) && IsByteList(f[1], d.name, 8) && IsByteList(f[2], d.version.Text(), 1)
            && IsByteList(f[3], d.timestamp, 1)
            && f[4] == PutUint64(d.numValidators) && f[5] == PutUint64(d.threshold)
            && FromHex(if first == [] then [] else first[0].feeRecipient, 20).Some?
            && FromHex(if first == [] then [] else first[0].withdrawal, 20).Some?
            && f[6] == PutBytes(FromHex(if first == [] then [] else first[0].feeRecipient, 20).value)
            && f[7] == PutBytes(FromHex(if first == [] then [] else first[0].withdrawal, 20).value)
            && IsByteList(f[8], d.dkgAlgorithm, 1) && f[9] == PutBytes(d.forkVersion)
            && f[10].ListRoot? && |f[10].children| == f[10].count == |d.operators| && f[10].limit == 256
  {
    hide Version.Text, FromHex, OperatorTree, OperatorsFit, OneAddressPair, V3Tail;
    V3TailLength(d, configOnly);
  }

  lemma V3TailLength(d: Definition, configOnly: bool)
    requires d.version in {V1_3, V1_4} && Hashable(d, configOnly)
    ensures |V3Tail(d, configOnly)| == (if d.version == V1_4 then 1 else 0) + (if configOnly then 0 else 1)
  {
  }

  /** The creator from v1.4 on, then, in the full hash, the config hash. */
  lemma V3TailLayout(d: Definition, configOnly: bool)
    requires d.version in {V1_3, V1_4} && Hashable(d, configOnly)
    ensures var f := Tree(d, configOnly).children;
            && (d.version == V1_4 ==>
                  && FromHex(d.creator.address, 20).Some? && |f| > 11
                  && f[11] == if configOnly then Root([PutBytes(FromHex(d.creator.address, 20).value)])
                              else Root([PutBytes(FromHex(d.creator.address, 20).value),
                                         PutBytes(d.creator.configSignature)]))
            && (!configOnly ==> |f| > 11 && f[|f| - 1] == PutBytes(d.configHash))
  {
    hide Version.Text, FromHex, OperatorList, OperatorsFit, OneAddressPair, V3Fields, CommonFields, V3Tail;
    var f, tail := Tree(d, configOnly).children, V3Tail(d, configOnly);
    V3Layout(d, configOnly);
    V3TailLength(d, configOnly);
    V3TailIs(d, configOnly);
    V3Suffix(d, configOnly);
  }

  lemma V3Suffix(d: Definition, configOnly: bool)
    requires d.version in {V1_3, V1_4} && Hashable(d, configOnly)
    ensures var f := Tree(d, configOnly).children; |f| >= 11 && f[11..] == V3Tail(d, configOnly)
  {
    hide Version.Text, FromHex, OperatorList, OperatorsFit, OneAddressPair, V3Tail, ByteList;
  }

  lemma V3TailIs(d: Definition, configOnly: bool)
    requires d.version in {V1_3, V1_4} && Hashable(d, configOnly)
    ensures var tail := V3Tail(d, configOnly);
            && (d.version == V1_4 ==>
                  && FromHex(d.creator.address, 20).Some? && |tail| > 0
                  && tail[0] == if configOnly then Root([PutBytes(FromHex(d.creator.address, 20).value)])
                                else Root([PutBytes(FromHex(d.creator.address, 20).value),
                                           PutBytes(d.creator.configSignature)]))
            && (!configOnly ==> |tail| > 0 && tail[|tail| - 1] == PutBytes(d.configHash))
  {
    hide FromHex, OperatorsFit, OneAddressPair;
  }

  /** An operator from v1.3 on: the address, padded from v1.5 on, and in the full hash its ENR, its
      config signature and its ENR signature. */
  predicate OperatorLaidOut(node: Node, o: Operator, configOnly: bool, padded: bool) {
    && FromHex(o.address, 20).Some?
    && var address := FromHex(o.address, 20).value;
    && var first := PutBytes(if padded then LeftPad(address, 20) else address);
       node == if configOnly then Root([first])
               else Root([first, ListRoot([AppendBytes32(o.enr)], |o.enr|, 32),
                          PutBytes(LeftPad(o.configSignature, 65)), PutBytes(LeftPad(o.enrSignature, 65))])
  }

  lemma OperatorIs(o: Operator, configOnly: bool, padded: bool)
    requires OperatorFits(o, configOnly)
    ensures OperatorLaidOut(OperatorTree(o, configOnly, padded), o, configOnly, padded)
  {
    hide FromHex, LeftPad;
  }

  lemma V3OperatorLayout(d: Definition, configOnly: bool, i: nat)
    requires d.version in {V1_3, V1_4} && Hashable(d, configOnly) && i < |d.operators|
    ensures var f := Tree(d, configOnly).children;
            && |f| > 10 && f[10].ListRoot? && i < |f[10].children|
            && OperatorLaidOut(f[10].children[i], d.operators[i], configOnly, false)
  {
    hide Version.Text, FromHex, OperatorTree, OneAddressPair, V3Tail, ByteList, OperatorLaidOut, OperatorFits;
    OperatorIs(d.operators[i], configOnly, false);
  }

  // ---------------------------------------------------------------------------------------------
  // v1.5 to v1.10
  // ---------------------------------------------------------------------------------------------

  predicate FromFive(v: Version) {
    v in {V1_5, V1_6, V1_7, V1_8, V1_9, V1_10}
  }

  /** Fields from number 11 on. */
  function Extras(v: Version): nat {
    if v == V1_8 then 1 else if v == V1_9 then 2 else if v == V1_10 then 4 else 0
  }

  lemma V5Layout(d: Definition, configOnly: bool)
    requires FromFive(d.version) && Hashable(d, configOnly)
    ensures var t := Tree(d, configOnly);
            && t.Root? && var f := t.children;
            && |f| == 11 + Extras(d.version) + (if configOnly then 0 else 1)
            && IsByteList(f[0], d.uuid, 2) && IsByteList(f[1], d.name, 8) && IsByteList(f[2], d.version.Text(), 1)
            && IsByteList(f[3], d.timestamp, 1)
            && f[4] == PutUint64(d.numValidators) && f[5] == PutUint64(d.threshold)
            && IsByteList(f[6], d.dkgAlgorithm, 1) && f[7] == PutBytes(LeftPad(d.forkVersion, 4))
  {
    hide Version.Text, FromHex, LeftPad, OperatorList, AddressesList, OperatorsFit, AddressesFit, V5Creator, V5Tail;
    V5TailIs(d, configOnly);
  }

  /** Operators in field 8, at most 256; validators in field 10, at most 65536. */
  lemma V5ListLayout(d: Definition, configOnly: bool)
    requires FromFive(d.version) && Hashable(d, configOnly)
    ensures var f := Tree(d, configOnly).children;
            && |f| > 10
            && f[8].ListRoot? && |f[8].children| == f[8].count == |d.operators| && f[8].limit == 256
            && f[10].ListRoot? && |f[10].children| == f[10].count == |d.validatorAddresses| && f[10].limit == 65_536
  {
    hide Version.Text, FromHex, LeftPad, OperatorTree, AddressesTree, OperatorsFit, AddressesFit, V5Creator, V5Tail;
    hide ByteList;
  }

  lemma V5TailIs(d: Definition, configOnly: bool)
    requires FromFive(d.version)
    ensures var tail := V5Tail(d, configOnly);
            && |tail| == Extras(d.version) + (if configOnly then 0 else 1)
            && (d.version in {V1_8, V1_9, V1_10} ==> tail[0] == PutUint64Array(d.depositAmounts, 256))
            && (d.version in {V1_9, V1_10} ==> IsByteList(tail[1], d.consensusProtocol, 8))
            && (d.version == V1_10 ==> tail[2] == PutUint64(d.targetGasLimit) && tail[3] == PutBool(d.compounding))
            && (!configOnly ==> tail[|tail| - 1] == PutBytes(LeftPad(d.configHash, 32)))
  {
    hide LeftPad;
  }

  lemma V5Suffix(d: Definition, configOnly: bool)
    requires FromFive(d.version) && Hashable(d, configOnly)
    ensures Tree(d, configOnly).Root?
    ensures var f := Tree(d, configOnly).children; |f| >= 11 && f[11..] == V5Tail(d, configOnly)
  {
    hide Version.Text, FromHex, LeftPad, OperatorList, AddressesList, OperatorsFit, AddressesFit, V5Creator, V5Tail;
    hide ByteList;
  }

  /** Deposit amounts from v1.8, the consensus protocol from v1.9, gas limit and compounding from
      v1.10, and at the end of the full hash the config hash. */
  lemma V5ExtraLayout(d: Definition, configOnly: bool)
    requires FromFive(d.version) && Hashable(d, configOnly)
    ensures var f := Tree(d, configOnly).children;
            && |f| == 11 + Extras(d.version) + (if configOnly then 0 else 1)
            && (d.version in {V1_8, V1_9, V1_10} ==> f[11] == PutUint64Array(d.depositAmounts, 256))
            && (d.version in {V1_9, V1_10} ==> IsByteList(f[12], d.consensusProtocol, 8))
            && (d.version == V1_10 ==> f[13] == PutUint64(d.targetGasLimit) && f[14] == PutBool(d.compounding))
            && (!configOnly ==> f[|f| - 1] == PutBytes(LeftPad(d.configHash, 32)))
  {
    hide Tree, Hashable, LeftPad, V5Tail, IsByteList;
    V5TailIs(d, configOnly);
    V5Suffix(d, configOnly);
    var f, tail := Tree(d, configOnly).children, V5Tail(d, configOnly);
    assert forall i | 0 <= i < |tail| :: tail[i] == f[11 + i];
  }

  lemma V5OperatorLayout(d: Definition, configOnly: bool, i: nat)
    requires FromFive(d.version) && Hashable(d, configOnly) && i < |d.operators|
    ensures var f := Tree(d, configOnly).children;
            && |f| > 8 && f[8].ListRoot? && i < |f[8].children|
            && OperatorLaidOut(f[8].children[i], d.operators[i], configOnly, true)
  {
    hide Version.Text, FromHex, LeftPad, OperatorTree, AddressesList, AddressesFit, V5Creator, V5Tail, ByteList;
    hide OperatorLaidOut, OperatorFits;
    OperatorIs(d.operators[i], configOnly, true);
  }

  lemma V5CreatorLayout(d: Definition, configOnly: bool)
    requires FromFive(d.version) && Hashable(d, configOnly)
    ensures var f := Tree(d, configOnly).children;
            && |f| > 9 && FromHex(d.creator.address, 20).Some?
            && var address := PutBytes(LeftPad(FromHex(d.creator.address, 20).value, 20));
               f[9] == if configOnly then Root([address])
                       else Root([address, PutBytes(LeftPad(d.creator.configSignature, 65))])
  {
    hide Version.Text, FromHex, LeftPad, OperatorList, AddressesList, AddressesFit, OperatorsFit, V5Tail, ByteList;
  }

  /** Each validator's fee recipient, then its withdrawal address. */
  lemma V5ValidatorLayout(d: Definition, configOnly: bool, i: nat)
    requires FromFive(d.version) && Hashable(d, configOnly) && i < |d.validatorAddresses|
    ensures var f, v := Tree(d, configOnly).children, d.validatorAddresses[i];
            && |f| > 10 && f[10].ListRoot? && i < |f[10].children|
            && FromHex(v.feeRecipient, 20).Some? && FromHex(v.withdrawal, 20).Some?
            && f[10].children[i] == Root([PutBytes(LeftPad(FromHex(v.feeRecipient, 20).value, 20)),
                                          PutBytes(LeftPad(FromHex(v.withdrawal, 20).value, 20))])
  {
    hide Version.Text, FromHex, LeftPad, OperatorList, OperatorsFit, V5Creator, V5Tail, ByteList;
  }

  // ---------------------------------------------------------------------------------------------
  // Limits
  // ---------------------------------------------------------------------------------------------

  predicate IsHex20(s: Bytes) {
    FromHex(s, 20).Some?
  }

  predicate OperatorsWithin(ops: seq<Operator>, configOnly: bool) {
    forall i | 0 <= i < |ops| ::
      && IsHex20(ops[i].address)
      && (!configOnly ==> |ops[i].enr| <= 1024 && |ops[i].configSignature| <= 65 && |ops[i].enrSignature| <= 65)
  }

  predicate AllEqual(vs: seq<Addresses>) {
    forall i, j | 0 <= i < |vs| && 0 <= j < |vs| :: vs[i] == vs[j]
  }

  /** Which definitions can be hashed at all, in numbers. */
  lemma HashableIff(d: Definition, configOnly: bool)
    ensures Hashable(d, configOnly) <==>
              match d.version
              case Other(_) => false
              case V1_0 => AllEqual(d.validatorAddresses)
              case V1_1 => AllEqual(d.validatorAddresses)
              case V1_2 => AllEqual(d.validatorAddresses)
              case V1_3 => HashableV3(d, configOnly)
              case V1_4 => HashableV3(d, configOnly) && IsHex20(d.creator.address)
              case _ => HashableV5(d, configOnly)
  {
    hide OperatorsWithin, OperatorsFit, OneAddressPair, AllEqual, FromHex, Version.Text, V5Fits, HashableV5, V3Fits;
    hide HashableV3;
    PairIff(d);
    if d.version.ThreeOrFour() { HashableV3Iff(d, configOnly); }
    if d.version.FiveOrLater() { HashableV5Iff(d, configOnly); }
  }

  lemma PairIff(d: Definition)
    ensures OneAddressPair(d) <==> AllEqual(d.validatorAddresses)
  {
  }

  lemma OperatorsIff(ops: seq<Operator>, configOnly: bool)
    ensures OperatorsFit(ops, configOnly) <==> OperatorsWithin(ops, configOnly)
  {
    hide FromHex;
  }

  lemma NoAddress()
    ensures IsHex20([])
  {
  }

  lemma HashableV3Iff(d: Definition, configOnly: bool)
    requires d.version.ThreeOrFour()
    ensures V3Fits(d, configOnly) <==>
              HashableV3(d, configOnly) && (d.version == V1_4 ==> IsHex20(d.creator.address))
  {
    hide FromHex, Version.Text, OperatorsFit, OperatorsWithin, OneAddressPair, AllEqual;
    NoAddress();
    PairIff(d);
    OperatorsIff(d.operators, configOnly);
    ShortText(d.version);
  }

  lemma HashableV5Iff(d: Definition, configOnly: bool)
    requires d.version.FiveOrLater()
    ensures V5Fits(d, configOnly) <==> HashableV5(d, configOnly)
  {
    hide FromHex, Version.Text, OperatorsFit, OperatorsWithin;
    OperatorsIff(d.operators, configOnly);
    ShortText(d.version);
  }

  predicate NamesWithin(d: Definition) {
    |d.uuid| <= 64 && |d.name| <= 256 && |d.timestamp| <= 32 && |d.dkgAlgorithm| <= 32
  }

  predicate HashableV3(d: Definition, configOnly: bool) {
    && AllEqual(d.validatorAddresses) && NamesWithin(d) && OperatorsWithin(d.operators, configOnly)
    && (d.validatorAddresses != [] ==>
          IsHex20(d.validatorAddresses[0].feeRecipient) && IsHex20(d.validatorAddresses[0].withdrawal))
  }

  predicate HashableV5(d: Definition, configOnly: bool) {
    && NamesWithin(d) && |d.forkVersion| <= 4 && OperatorsWithin(d.operators, configOnly) && IsHex20(d.creator.address)
    && (!configOnly ==> |d.creator.configSignature| <= 65 && |d.configHash| <= 32)
    && (forall i | 0 <= i < |d.validatorAddresses| ::
          IsHex20(d.validatorAddresses[i].feeRecipient) && IsHex20(d.validatorAddresses[i].withdrawal))
    && (d.version in {V1_9, V1_10} ==> |d.consensusProtocol| <= 256)
  }

  lemma ShortText(v: Version)
    requires !v.Other?
    ensures |v.Text()| <= 16
  {
    VersionText(v);
  }
}
