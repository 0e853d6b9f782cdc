/** The hash functions as they run, step by step on the walker. */
module DefinitionHasher {
  import opened Common
  import opened H = DefinitionHash

  /** `legacy_validator_addresses`. */
  method LegacyValidatorAddresses(d: Definition) returns (r: Option<Addresses>)
    ensures r == if OneAddressPair(d) then Some(LegacyAddresses(d)) else None
  {
    var pair := Addresses([], []);
    for i := 0 to |d.validatorAddresses|
      invariant i > 0 ==> pair == d.validatorAddresses[0]
      invariant i == 0 ==> pair == Addresses([], [])
      invariant forall j | 0 <= j < i :: d.validatorAddresses[j] == d.validatorAddresses[0]
    {
      if i == 0 {
        pair := d.validatorAddresses[0];
      } else if d.validatorAddresses[i] != pair {
        return None;
      }
    }
    return Some(pair);
  }

  const MAX_VALIDATORS: nat := 65536

  /** `repeat_v_addresses`. */
  method RepeatAddresses(pair: Addresses, count: nat) returns (r: Option<seq<Addresses>>)
    ensures r == if count > 65_536 then None else Some(seq(count, _ => pair))
  {
    if count > MAX_VALIDATORS { return None; }
    var all: seq<Addresses> := [];
    for i := 0 to count
      invariant all == seq(i, _ => pair)
    {
      all := all + [pair];
    }
    return Some(all);
  }

  method HashLegacyOperator(d: Definition, o: Operator, configOnly: bool, hh: HashWalker)
    modifies hh
    ensures hh.open == old(hh.open) && hh.top == old(hh.top) + [LegacyOperator(d, o, configOnly)]
  {
    if configOnly {
      hh.Put(PutBytes(o.address));
      return;
    }
    hh.Index();
    hh.Put(PutBytes(o.address));
    hh.Put(PutBytes(o.enr));
    if d.version.V1_0? || d.version.V1_1? {
      hh.Put(PutUint64(0));
    }
    hh.Put(PutBytes(o.configSignature));
    hh.Put(PutBytes(o.enrSignature));
    assert Root(hh.top) == LegacyOperator(d, o, configOnly);
    hh.Merkleize();
  }

  method HashLegacyOperators(d: Definition, configOnly: bool, hh: HashWalker)
    modifies hh
    ensures hh.open == old(hh.open)
    ensures hh.top == old(hh.top) + [LegacyOperators(d, configOnly)]
  {
    hh.Index();
    ghost var nodes := LegacyOperators(d, configOnly).children;
    for i := 0 to |d.operators|
      invariant hh.open == old(hh.open) + [old(hh.top)] && hh.top == nodes[..i]
    {
      HashLegacyOperator(d, d.operators[i], configOnly, hh);
    }
    assert nodes[..|d.operators|] == nodes;
    hh.MerkleizeWithMixin(|d.operators|, |d.operators|);
  }

  method HashDefinitionLegacy(d: Definition, configOnly: bool, hh: HashWalker) returns (ok: bool)
    requires d.version.Legacy()
    modifies hh
    ensures ok == OneAddressPair(d)
    ensures ok ==> hh.open == old(hh.open) && hh.top == old(hh.top) + [LegacyTree(d, configOnly)]
  {
    hide LegacyFields, LegacyOperators, LegacyTimestamp;
    var pair := LegacyValidatorAddresses(d);
    if pair.None? { return false; }
    hh.Index();
    HashLegacyFields(d, pair.value, hh);
    HashLegacyOperators(d, configOnly, hh);
    HashLegacyTimestamp(d, configOnly, hh);
    assert hh.top == LegacyTree(d, configOnly).children;
    hh.Merkleize();
    return true;
  }

  method HashLegacyFields(d: Definition, pair: Addresses, hh: HashWalker)
    requires pair == LegacyAddresses(d)
    modifies hh`top
    ensures hh.top == old(hh.top) + LegacyFields(d)
  {
    hide Version.Text, ToHex;
    hh.Put(PutBytes(d.uuid));
    hh.Put(PutBytes(d.name));
    hh.Put(PutBytes(d.version.Text()));
    hh.Put(PutUint64(d.numValidators));
    hh.Put(PutUint64(d.threshold));
    hh.Put(PutBytes(pair.feeRecipient));
    hh.Put(PutBytes(pair.withdrawal));
    hh.Put(PutBytes(d.dkgAlgorithm));
    hh.Put(PutBytes(ToHex(d.forkVersion)));
  }

  method HashLegacyTimestamp(d: Definition, configOnly: bool, hh: HashWalker)
    modifies hh`top
    ensures hh.top == old(hh.top) + LegacyTimestamp(d, configOnly)
  {
    if configOnly {
      if d.timestamp != [] {
        hh.Put(PutBytes(d.timestamp));
      }
    } else if !d.version.V1_0? {
      hh.Put(PutBytes(d.timestamp));
    }
  }

  method HashOperator(o: Operator, configOnly: bool, padded: bool, hh: HashWalker) returns (ok: bool)
    modifies hh
    ensures ok == OperatorFits(o, configOnly)
    ensures ok ==> hh.open == old(hh.open) && hh.top == old(hh.top) + [OperatorTree(o, configOnly, padded)]
  {
    hh.Index();
    if padded {
      ok := hh.PutAddress(o.address);
      if !ok { return; }
    } else {
      if FromHex(o.address, ADDRESS_LEN).None? { return false; }
      hh.Put(PutBytes(AddressBytes(o.address)));
    }
    if !configOnly {
      ok := hh.PutByteList(o.enr, 1024);
      if !ok { return; }
      ok := hh.PutBytesN(o.configSignature, 65);
      if !ok { return; }
      ok := hh.PutBytesN(o.enrSignature, 65);
      if !ok { return; }
    }
    assert Root(hh.top) == OperatorTree(o, configOnly, padded);
    hh.Merkleize();
    return true;
  }

  method HashOperators(ops: seq<Operator>, configOnly: bool, padded: bool, hh: HashWalker) returns (ok: bool)
    modifies hh
    ensures ok == OperatorsFit(ops, configOnly)
    ensures ok ==> hh.open == old(hh.open) && hh.top == old(hh.top) + [OperatorList(ops, configOnly, padded)]
  {
    hide OperatorTree, OperatorFits;
    hh.Index();
    for i := 0 to |ops|
      invariant OperatorsFit(ops[..i], configOnly)
      invariant hh.open == old(hh.open) + [old(hh.top)]
      invariant hh.top == seq(i, j requires 0 <= j < i => OperatorTree(ops[..i][j], configOnly, padded))
    {
      ok := HashOperator(ops[i], configOnly, padded, hh);
      if !ok { return; }
    }
    assert ops[..|ops|] == ops;
    hh.MerkleizeWithMixin(|ops|, 256);
    return true;
  }

  method HashAddresses(vs: seq<Addresses>, hh: HashWalker) returns (ok: bool)
    modifies hh
    ensures ok == AddressesFit(vs)
    ensures ok ==> hh.open == old(hh.open) && hh.top == old(hh.top) + [AddressesList(vs)]
  {
    hide IsAddress, PaddedAddress;
    hh.Index();
    for i := 0 to |vs|
      invariant AddressesFit(vs[..i])
      invariant hh.open == old(hh.open) + [old(hh.top)]
      invariant hh.top == seq(i, j requires 0 <= j < i => AddressesTree(vs[..i][j]))
    {
      hh.Index();
      ok := hh.PutAddress(vs[i].feeRecipient);
      if !ok { return; }
      ok := hh.PutAddress(vs[i].withdrawal);
      if !ok { return; }
      assert Root(hh.top) == AddressesTree(vs[i]);
      hh.Merkleize();
    }
    assert vs[..|vs|] == vs;
    hh.MerkleizeWithMixin(|vs|, 65536);
    return true;
  }

  /** The six fields v1.3 and later begin with. */
  method HashCommon(d: Definition, hh: HashWalker) returns (ok: bool)
    modifies hh
    ensures ok == (|d.uuid| <= 64 && |d.name| <= 256 && |d.version.Text()| <= 16 && |d.timestamp| <= 32)
    ensures ok ==> hh.open == old(hh.open)
    ensures ok ==> hh.top == old(hh.top) + CommonFields(d)
  {
    hide ByteList, Version.Text;
    ok := hh.PutByteList(d.uuid, 64);
    if !ok { return; }
    ok := hh.PutByteList(d.name, 256);
    if !ok { return; }
    ok := hh.PutByteList(d.version.Text(), 16);
    if !ok { return; }
    ok := hh.PutByteList(d.timestamp, 32);
    if !ok { return; }
    hh.Put(PutUint64(d.numValidators));
    hh.Put(PutUint64(d.threshold));
  }

  method HashDefinitionV3(d: Definition, configOnly: bool, hh: HashWalker) returns (ok: bool)
    requires d.version.ThreeOrFour()
    modifies hh
    ensures ok == V3Fits(d, configOnly)
    ensures ok ==> hh.open == old(hh.open) && hh.top == old(hh.top) + [V3Tree(d, configOnly)]
  {
    hide CommonFields, V3Fields, FromHex, OperatorsFit, OperatorList, V3Tail;
    var pair := LegacyValidatorAddresses(d);
    if pair.None? { return false; }
    if FromHex(pair.value.feeRecipient, ADDRESS_LEN).None? { return false; }
    if FromHex(pair.value.withdrawal, ADDRESS_LEN).None? { return false; }
    hh.Index();
    ok := HashV3Fields(d, pair.value, hh);
    if !ok { return; }
    ok := HashOperators(d.operators, configOnly, false, hh);
    if !ok { return; }
    ok := HashV3Tail(d, configOnly, hh);
    if !ok { return; }
    assert hh.top == V3Tree(d, configOnly).children;
    hh.Merkleize();
  }

  method HashV3Fields(d: Definition, pair: Addresses, hh: HashWalker) returns (ok: bool)
    requires pair == LegacyAddresses(d) && IsAddress(pair.feeRecipient) && IsAddress(pair.withdrawal)
    modifies hh
    ensures ok == CommonFits(d)
    ensures ok ==> hh.open == old(hh.open)
    ensures ok ==> hh.top == old(hh.top) + (CommonFields(d) + V3Fields(d))
  {
    hide ByteList, CommonFields, FromHex;
    ok := HashCommon(d, hh);
    if !ok { return; }
    hh.Put(PutBytes(AddressBytes(pair.feeRecipient)));
    hh.Put(PutBytes(AddressBytes(pair.withdrawal)));
    ok := hh.PutByteList(d.dkgAlgorithm, 32);
    if !ok { return; }
    hh.Put(PutBytes(d.forkVersion));
  }

  method HashV3Creator(d: Definition, configOnly: bool, hh: HashWalker) returns (ok: bool)
    modifies hh
    ensures ok == (d.version.V1_4? ==> IsAddress(d.creator.address))
    ensures ok ==> hh.open == old(hh.open) && hh.top == old(hh.top) + V3Creator(d, configOnly)
  {
    if d.version.V1_4? {
      hh.Index();
      if FromHex(d.creator.address, ADDRESS_LEN).None? { return false; }
      hh.Put(PutBytes(AddressBytes(d.creator.address)));
      if !configOnly {
        hh.Put(PutBytes(d.creator.configSignature));
      }
      assert Root(hh.top) == V3Creator(d, configOnly)[0];
      hh.Merkleize();
    }
    return true;
  }

  method HashV3Tail(d: Definition, configOnly: bool, hh: HashWalker) returns (ok: bool)
    modifies hh
    ensures ok == (d.version.V1_4? ==> IsAddress(d.creator.address))
    ensures ok ==> hh.open == old(hh.open)
    ensures ok ==> hh.top == old(hh.top) + V3Tail(d, configOnly)
  {
    hide V3Creator, FromHex;
    ok := HashV3Creator(d, configOnly, hh);
    if !ok { return; }
    if !configOnly {
      hh.Put(PutBytes(d.configHash));
    }
  }

  method HashV5Creator(d: Definition, configOnly: bool, hh: HashWalker) returns (ok: bool)
    modifies hh
    ensures ok == (IsAddress(d.creator.address) && (!configOnly ==> |d.creator.configSignature| <= 65))
    ensures ok ==> hh.open == old(hh.open) && hh.top == old(hh.top) + [V5Creator(d, configOnly)]
  {
    hh.Index();
    ok := hh.PutAddress(d.creator.address);
    if !ok { return; }
    if !configOnly {
      ok := hh.PutBytesN(d.creator.configSignature, 65);
      if !ok { return; }
    }
    assert Root(hh.top) == V5Creator(d, configOnly);
    hh.Merkleize();
  }

  method HashV5Extra(d: Definition, hh: HashWalker) returns (ok: bool)
    modifies hh
    ensures ok == (d.version.V1_9? || d.version.V1_10? ==> |d.consensusProtocol| <= 256)
    ensures ok ==> hh.open == old(hh.open) && hh.top == old(hh.top) + V5Extra(d)
  {
    if d.version.V1_8? || d.version.V1_9? || d.version.V1_10? {
      hh.Put(PutUint64Array(d.depositAmounts, 256));
    }
    if d.version.V1_9? || d.version.V1_10? {
      ok := hh.PutByteList(d.consensusProtocol, 256);
      if !ok { return; }
    }
    if d.version.V1_10? {
      hh.Put(PutUint64(d.targetGasLimit));
      hh.Put(PutBool(d.compounding));
    }
    return true;
  }

  method HashV5Fields(d: Definition, hh: HashWalker) returns (ok: bool)
    modifies hh
    ensures ok == (CommonFits(d) && |d.forkVersion| <= 4)
    ensures ok ==> hh.open == old(hh.open)
    ensures ok ==> hh.top == old(hh.top) + (CommonFields(d) + V5Fields(d))
  {
    hide ByteList, CommonFields, LeftPad;
    ok := HashCommon(d, hh);
    if !ok { return; }
    ok := hh.PutByteList(d.dkgAlgorithm, 32);
    if !ok { return; }
    ok := hh.PutBytesN(d.forkVersion, 4);
  }

  method HashDefinitionV5(d: Definition, configOnly: bool, hh: HashWalker) returns (ok: bool)
    requires d.version.FiveOrLater()
    modifies hh
    ensures ok == V5Fits(d, configOnly)
    ensures ok ==> hh.open == old(hh.open) && hh.top == old(hh.top) + [V5Tree(d, configOnly)]
  {
    hide CommonFields, V5Fields, IsAddress, OperatorsFit, OperatorList, AddressesFit, AddressesList, V5Creator, V5Extra;
    hh.Index();
    ok := HashV5Fields(d, hh);
    if !ok { return; }
    ok := HashOperators(d.operators, configOnly, true, hh);
    if !ok { return; }
    ok := HashV5Creator(d, configOnly, hh);
    if !ok { return; }
    ok := HashAddresses(d.validatorAddresses, hh);
    if !ok { return; }
    ok := HashV5Extra(d, hh);
    if !ok { return; }
    if !configOnly {
      ok := hh.PutBytesN(d.configHash, 32);
      if !ok { return; }
    }
    assert hh.top == V5Tree(d, configOnly).children;
    hh.Merkleize();
  }

  /** `hash_definition` up to the root: dispatch on the version, then the tree that is hashed. */
  method WalkDefinition(d: Definition, configOnly: bool) returns (tree: Option<Node>)
    ensures tree == if Hashable(d, configOnly) then Some(Tree(d, configOnly)) else None
  {
    hide LegacyTree, V3Tree, V5Tree, V3Fits, V5Fits, OneAddressPair;
    var hh := new HashWalker();
    var ok;
    if d.version.Legacy() {
      ok := HashDefinitionLegacy(d, configOnly, hh);
    } else if d.version.ThreeOrFour() {
      ok := HashDefinitionV3(d, configOnly, hh);
    } else if d.version.FiveOrLater() {
      ok := HashDefinitionV5(d, configOnly, hh);
    } else {
      return None;
    }
    if !ok { return None; }
    return Some(hh.top[0]);
  }
}
