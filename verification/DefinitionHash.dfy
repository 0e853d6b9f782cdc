/**
 * Cluster definition hashing (crates/cluster/src/ssz.rs). The hash walker is symbolic: its buffer
 * holds the calls made, and merkleizing replaces the calls since the matching index by one root
 * node. A hash is an arbitrary function of the final tree.
 */
module DefinitionHash {
  import opened Common
  import K = PubKeyText

  datatype Version = V1_0 | V1_1 | V1_2 | V1_3 | V1_4 | V1_5 | V1_6 | V1_7 | V1_8 | V1_9 | V1_10 | Other(text: Bytes) {
    function Text(): Bytes {
      match this
      case V1_0 => Ascii("v1.0.0")
      case V1_1 => Ascii("v1.1.0")
      case V1_2 => Ascii("v1.2.0")
      case V1_3 => Ascii("v1.3.0")
      case V1_4 => Ascii("v1.4.0")
      case V1_5 => Ascii("v1.5.0")
      case V1_6 => Ascii("v1.6.0")
      case V1_7 => Ascii("v1.7.0")
      case V1_8 => Ascii("v1.8.0")
      case V1_9 => Ascii("v1.9.0")
      case V1_10 => Ascii("v1.10.0")
      case Other(text) => text
    }

    predicate Legacy() {
      V1_0? || V1_1? || V1_2?
    }

    predicate ThreeOrFour() {
      V1_3? || V1_4?
    }

    predicate FiveOrLater() {
      V1_5? || V1_6? || V1_7? || V1_8? || V1_9? || V1_10?
    }
  }

  datatype Operator = Operator(address: Bytes, enr: Bytes, configSignature: Bytes, enrSignature: Bytes)

  datatype Creator = Creator(address: Bytes, configSignature: Bytes)

  datatype Addresses = Addresses(feeRecipient: Bytes, withdrawal: Bytes)

  datatype Definition = Definition(
    uuid: Bytes, name: Bytes, version: Version, timestamp: Bytes, numValidators: nat, threshold: nat,
    dkgAlgorithm: Bytes, forkVersion: Bytes, operators: seq<Operator>, creator: Creator,
    validatorAddresses: seq<Addresses>, depositAmounts: seq<nat>, consensusProtocol: Bytes,
    targetGasLimit: nat, compounding: bool, configHash: Bytes, definitionHash: Bytes)

  function Ascii(s: string): Bytes {
    seq(|s|, i requires 0 <= i < |s| => s[i] as int % 256)
  }

  // ---------------------------------------------------------------------------------------------
  // Hex helpers
  // ---------------------------------------------------------------------------------------------

  const ADDRESS_LEN: nat := 20

  function AsText(s: Bytes): string {
    seq(|s|, i requires 0 <= i < |s| => s[i] as char)
  }

  /** `from_0x_hex_str`: empty text is no bytes, anything else must have the exact length. */
  function FromHex(s: Bytes, n: nat): Option<Bytes> {
    if s == [] then Some([]) else
    match K.DecodeHex(K.Stripped(AsText(s)))
    case Some(bytes) => if |bytes| == n then Some(bytes) else None
    case None => None
  }

  predicate IsAddress(s: Bytes) {
    FromHex(s, ADDRESS_LEN).Some?
  }

  function AddressBytes(s: Bytes): Bytes
    requires IsAddress(s)
  {
    FromHex(s, ADDRESS_LEN).value
  }

  function LeftPad(s: Bytes, n: nat): Bytes {
    if |s| >= n then s else seq(n - |s|, _ => 0) + s
  }

  /** `to_0x_hex`. */
  function ToHex(s: Bytes): Bytes {
    if s == [] then [] else Ascii("0x" + K.HexText(s))
  }

  // ---------------------------------------------------------------------------------------------
  // The walker
  // ---------------------------------------------------------------------------------------------

  datatype Node =
    | PutBytes(bytes: Bytes)
    | PutUint64(value: nat)
    | PutUint64Array(values: seq<nat>, limit: nat)
    | PutBool(flag: bool)
    | AppendBytes32(bytes: Bytes)
    | Root(children: seq<Node>)
    | ListRoot(children: seq<Node>, count: nat, limit: nat)

  /** `open` holds the calls before each index still to be merkleized, `top` those since the last.
      The source merkleizes the most recent open index first, everywhere. */
  class HashWalker {
    var open: seq<seq<Node>>
    var top: seq<Node>

    constructor ()
      ensures open == [] && top == []
    {
      open, top := [], [];
    }

    method Put(node: Node)
      modifies this`top
      ensures top == old(top) + [node]
    {
      top := top + [node];
    }

    method Index()
      modifies this
      ensures open == old(open) + [old(top)] && top == []
    {
      open, top := open + [top], [];
    }

    method Merkleize()
      requires open != []
      modifies this
      ensures open == old(open)[..|old(open)| - 1] && top == old(open)[|old(open)| - 1] + [Root(old(top))]
    {
      top := open[|open| - 1] + [Root(top)];
      open := open[..|open| - 1];
    }

    method MerkleizeWithMixin(count: nat, limit: nat)
      requires open != []
      modifies this
      ensures open == old(open)[..|old(open)| - 1]
      ensures top == old(open)[|old(open)| - 1] + [ListRoot(old(top), count, limit)]
    {
      top := open[|open| - 1] + [ListRoot(top, count, limit)];
      open := open[..|open| - 1];
    }

    /** `put_byte_list`. */
    method PutByteList(b: Bytes, limit: nat) returns (ok: bool)
      modifies this
      ensures ok == (|b| <= limit)
      ensures ok ==> open == old(open) && top == old(top) + [ByteList(b, limit)]
    {
      if |b| > limit { return false; }
      Index();
      Put(AppendBytes32(b));
      MerkleizeWithMixin(|b|, (limit + 31) / 32);
      assert [] + [AppendBytes32(b)] == [AppendBytes32(b)];
      return true;
    }

    /** `put_bytes_n`. */
    method PutBytesN(b: Bytes, n: nat) returns (ok: bool)
      modifies this`top
      ensures ok == (|b| <= n)
      ensures ok ==> top == old(top) + [PutBytes(LeftPad(b, n))]
    {
      if |b| > n { return false; }
      Put(PutBytes(LeftPad(b, n)));
      return true;
    }

    /** `put_hex_bytes_n` for addresses. */
    method PutAddress(s: Bytes) returns (ok: bool)
      modifies this`top
      ensures ok == IsAddress(s)
      ensures ok ==> top == old(top) + [PaddedAddress(s)]
    {
      if FromHex(s, ADDRESS_LEN).None? { return false; }
      Put(PutBytes(LeftPad(AddressBytes(s), ADDRESS_LEN)));
      return true;
    }
  }

  function ByteList(b: Bytes, limit: nat): Node {
    ListRoot([AppendBytes32(b)], |b|, (limit + 31) / 32)
  }

  function PaddedAddress(s: Bytes): Node
    requires IsAddress(s)
  {
    PutBytes(LeftPad(AddressBytes(s), ADDRESS_LEN))
  }

  // ---------------------------------------------------------------------------------------------
  // What each version hashes
  // ---------------------------------------------------------------------------------------------

  predicate OneAddressPair(d: Definition) {
    forall i | 0 <= i < |d.validatorAddresses| :: d.validatorAddresses[i] == d.validatorAddresses[0]
  }

  /** `legacy_validator_addresses` when it succeeds. */
  function LegacyAddresses(d: Definition): Addresses {
    if d.validatorAddresses == [] then Addresses([], []) else d.validatorAddresses[0]
  }

  function LegacyOperator(d: Definition, o: Operator, configOnly: bool): Node {
    if configOnly then PutBytes(o.address)
    else Root([PutBytes(o.address), PutBytes(o.enr)]
              + (if d.version.V1_0? || d.version.V1_1? then [PutUint64(0)] else [])
              + [PutBytes(o.configSignature), PutBytes(o.enrSignature)])
  }

  function LegacyTimestamp(d: Definition, configOnly: bool): seq<Node> {
    if (if configOnly then d.timestamp != [] else !d.version.V1_0?) then [PutBytes(d.timestamp)] else []
  }

  function LegacyFields(d: Definition): seq<Node> {
    var a := LegacyAddresses(d);
    [PutBytes(d.uuid), PutBytes(d.name), PutBytes(d.version.Text()), PutUint64(d.numValidators),
     PutUint64(d.threshold), PutBytes(a.feeRecipient), PutBytes(a.withdrawal), PutBytes(d.dkgAlgorithm),
     PutBytes(ToHex(d.forkVersion))]
  }

  function LegacyOperators(d: Definition, configOnly: bool): Node {
    var ops := d.operators;
    ListRoot(seq(|ops|, i requires 0 <= i < |ops| => LegacyOperator(d, ops[i], configOnly)), |ops|, |ops|)
  }

  function LegacyTree(d: Definition, configOnly: bool): Node {
    Root(LegacyFields(d) + ([LegacyOperators(d, configOnly)] + LegacyTimestamp(d, configOnly)))
  }

  predicate CommonFits(d: Definition) {
    |d.uuid| <= 64 && |d.name| <= 256 && |d.version.Text()| <= 16 && |d.timestamp| <= 32 && |d.dkgAlgorithm| <= 32
  }

  predicate OperatorFits(o: Operator, configOnly: bool) {
    IsAddress(o.address) && (!configOnly ==> |o.enr| <= 1024 && |o.configSignature| <= 65 && |o.enrSignature| <= 65)
  }

  predicate OperatorsFit(ops: seq<Operator>, configOnly: bool) {
    forall i | 0 <= i < |ops| :: OperatorFits(ops[i], configOnly)
  }

  /** From v1.5 on addresses are padded, before that not. */
  function OperatorTree(o: Operator, configOnly: bool, padded: bool): Node
    requires OperatorFits(o, configOnly)
  {
    Root([if padded then PaddedAddress(o.address) else PutBytes(AddressBytes(o.address))]
         + (if configOnly then []
            else [ByteList(o.enr, 1024), PutBytes(LeftPad(o.configSignature, 65)),
                  PutBytes(LeftPad(o.enrSignature, 65))]))
  }

  function OperatorList(ops: seq<Operator>, configOnly: bool, padded: bool): Node
    requires OperatorsFit(ops, configOnly)
  {
    ListRoot(seq(|ops|, i requires 0 <= i < |ops| => OperatorTree(ops[i], configOnly, padded)), |ops|, 256)
  }

  predicate V3Fits(d: Definition, configOnly: bool) {
    && OneAddressPair(d) && IsAddress(LegacyAddresses(d).feeRecipient) && IsAddress(LegacyAddresses(d).withdrawal)
    && CommonFits(d) && OperatorsFit(d.operators, configOnly)
    && (d.version.V1_4? ==> IsAddress(d.creator.address))
  }

  function V3Creator(d: Definition, configOnly: bool): seq<Node>
    requires d.version.V1_4? ==> IsAddress(d.creator.address)
  {
    if !d.version.V1_4? then []
    else [Root([PutBytes(AddressBytes(d.creator.address))]
               + (if configOnly then [] else [PutBytes(d.creator.configSignature)]))]
  }

  /** The six fields v1.3 and later begin with. */
  function CommonFields(d: Definition): seq<Node> {
    [ByteList(d.uuid, 64), ByteList(d.name, 256), ByteList(d.version.Text(), 16), ByteList(d.timestamp, 32),
     PutUint64(d.numValidators), PutUint64(d.threshold)]
  }

  function V3Fields(d: Definition): seq<Node>
    requires IsAddress(LegacyAddresses(d).feeRecipient) && IsAddress(LegacyAddresses(d).withdrawal)
  {
    var a := LegacyAddresses(d);
    [PutBytes(AddressBytes(a.feeRecipient)), PutBytes(AddressBytes(a.withdrawal)),
     ByteList(d.dkgAlgorithm, 32), PutBytes(d.forkVersion)]
  }

  /** The full hash ends with the config hash. */
  function V3Tail(d: Definition, configOnly: bool): seq<Node>
    requires d.version.V1_4? ==> IsAddress(d.creator.address)
  {
    V3Creator(d, configOnly) + (if configOnly then [] else [PutBytes(d.configHash)])
  }

  function V3Tree(d: Definition, configOnly: bool): Node
    requires V3Fits(d, configOnly)
  {
    Root(CommonFields(d) +
         (V3Fields(d) + ([OperatorList(d.operators, configOnly, false)] + V3Tail(d, configOnly))))
  }

  predicate AddressesFit(vs: seq<Addresses>) {
    forall i | 0 <= i < |vs| :: IsAddress(vs[i].feeRecipient) && IsAddress(vs[i].withdrawal)
  }

  function AddressesTree(v: Addresses): Node
    requires IsAddress(v.feeRecipient) && IsAddress(v.withdrawal)
  {
    Root([PaddedAddress(v.feeRecipient), PaddedAddress(v.withdrawal)])
  }

  function AddressesList(vs: seq<Addresses>): Node
    requires AddressesFit(vs)
  {
    ListRoot(seq(|vs|, i requires 0 <= i < |vs| => AddressesTree(vs[i])), |vs|, 65536)
  }

  predicate V5Fits(d: Definition, configOnly: bool) {
    && CommonFits(d) && |d.forkVersion| <= 4 && OperatorsFit(d.operators, configOnly)
    && IsAddress(d.creator.address) && (!configOnly ==> |d.creator.configSignature| <= 65 && |d.configHash| <= 32)
    && AddressesFit(d.validatorAddresses)
    && (d.version.V1_9? || d.version.V1_10? ==> |d.consensusProtocol| <= 256)
  }

  function V5Creator(d: Definition, configOnly: bool): Node
    requires IsAddress(d.creator.address)
  {
    Root([PaddedAddress(d.creator.address)]
         + (if configOnly then [] else [PutBytes(LeftPad(d.creator.configSignature, 65))]))
  }

  /** The fields later versions add. */
  function V5Extra(d: Definition): seq<Node> {
    (if d.version.V1_8? || d.version.V1_9? || d.version.V1_10? then [PutUint64Array(d.depositAmounts, 256)] else [])
    + (if d.version.V1_9? || d.version.V1_10? then [ByteList(d.consensusProtocol, 256)] else [])
    + (if d.version.V1_10? then [PutUint64(d.targetGasLimit), PutBool(d.compounding)] else [])
  }

  function V5Fields(d: Definition): seq<Node> {
    [ByteList(d.dkgAlgorithm, 32), PutBytes(LeftPad(d.forkVersion, 4))]
  }

  function V5Lists(d: Definition, configOnly: bool): seq<Node>
    requires V5Fits(d, configOnly)
  {
    [OperatorList(d.operators, configOnly, true), V5Creator(d, configOnly), AddressesList(d.validatorAddresses)]
  }

  function V5Tail(d: Definition, configOnly: bool): seq<Node> {
    V5Extra(d) + (if configOnly then [] else [PutBytes(LeftPad(d.configHash, 32))])
  }

  function V5Tree(d: Definition, configOnly: bool): Node
    requires V5Fits(d, configOnly)
  {
    Root(CommonFields(d) + (V5Fields(d) + (V5Lists(d, configOnly) + V5Tail(d, configOnly))))
  }

  predicate Hashable(d: Definition, configOnly: bool) {
    if d.version.Legacy() then OneAddressPair(d)
    else if d.version.ThreeOrFour() then V3Fits(d, configOnly)
    else d.version.FiveOrLater() && V5Fits(d, configOnly)
  }

  function Tree(d: Definition, configOnly: bool): Node
    requires Hashable(d, configOnly)
  {
    if d.version.Legacy() then LegacyTree(d, configOnly)
    else if d.version.ThreeOrFour() then V3Tree(d, configOnly)
    else V5Tree(d, configOnly)
  }
}
