/** Setting, verifying and signing the hashes of a definition (crates/cluster/src/definition.rs,
    crates/cluster/src/helpers.rs). */
module DefinitionSigning {
  import opened Common
  import opened H = DefinitionHash
  import D = DefinitionHasher
  import opened DefinitionLaws

  /** From the tree to the 32-byte root; fails where the real walker does. */
  type Walk = Node -> Option<Bytes>

  function HashOf(walk: Walk, d: Definition, configOnly: bool): Option<Bytes> {
    if Hashable(d, configOnly) then walk(Tree(d, configOnly)) else None
  }

  /** `b` is `a` with any operator ENRs and signatures, creator signature and stored hashes. */
  ghost predicate Resigned(a: Definition, b: Definition) {
    && |a.operators| == |b.operators|
    && (forall i | 0 <= i < |a.operators| :: a.operators[i].address == b.operators[i].address)
    && a.creator.address == b.creator.address
    && b == a.(operators := b.operators, creator := b.creator,
               configHash := b.configHash, definitionHash := b.definitionHash)
  }

  lemma ResignedHashable(a: Definition, b: Definition)
    requires Resigned(a, b)
    ensures Hashable(a, true) == Hashable(b, true)
  {
    hide FromHex;
    assert OperatorsFit(a.operators, true) == OperatorsFit(b.operators, true);
  }

  /** Nothing that is signed or stored later enters the config hash. */
  lemma ResignedKeepsConfigHash(walk: Walk, a: Definition, b: Definition)
    requires Resigned(a, b)
    ensures HashOf(walk, a, true) == HashOf(walk, b, true)
  {
    ResignedHashable(a, b);
    if Hashable(a, true) {
      assert Agree(a, b, true) by { hide FromHex, LeftPad; }
      ConfigTreeIff(a, b);
    }
  }

  /** The definition hash is not part of what it hashes. */
  lemma DefinitionHashFree(walk: Walk, d: Definition, h: Bytes)
    ensures HashOf(walk, d.(definitionHash := h), false) == HashOf(walk, d, false)
  {
    hide FromHex, LeftPad, Tree;
    var e := d.(definitionHash := h);
    assert Hashable(e, false) == Hashable(d, false);
    if Hashable(d, false) { DefinitionTreeIff(e, d); }
  }

  function VerifyHashes(walk: Walk, d: Definition): bool {
    HashOf(walk, d, true) == Some(d.configHash) && HashOf(walk, d, false) == Some(d.definitionHash)
  }

  /** `hash_definition`: the walk, then the root of its tree. */
  method HashDefinition(walk: Walk, d: Definition, configOnly: bool) returns (r: Option<Bytes>)
    ensures r == HashOf(walk, d, configOnly)
  {
    hide Hashable, Tree;
    var tree := D.WalkDefinition(d, configOnly);
    if tree.None? { return None; }
    return walk(tree.value);
  }

  /** A definition whose hash and signature fields are updated in place. `sign` stands for the
      EIP-712 signatures: any function of the definition and an operator. */
  class DefinitionCell {
    var d: Definition

    constructor (d: Definition)
      ensures this.d == d
    {
      this.d := d;
    }

    /** `set_definition_hashes`: the config hash first, since later versions hash it again. */
    method SetDefinitionHashes(walk: Walk) returns (ok: bool)
      modifies this
      ensures Resigned(old(d), d) && d.operators == old(d).operators && d.creator == old(d).creator
      ensures ok ==> VerifyHashes(walk, d)
      ensures ok <==> HashOf(walk, old(d), true).Some? &&
                      HashOf(walk, old(d).(configHash := HashOf(walk, old(d), true).value), false).Some?
    {
      hide HashOf;
      ghost var start := d;
      var config := HashDefinition(walk, d, true);
      if config.None? { return false; }
      d := d.(configHash := config.value);
      var full := HashDefinition(walk, d, false);
      if full.None? { return false; }
      DefinitionHashFree(walk, d, full.value);
      d := d.(definitionHash := full.value);
      ResignedKeepsConfigHash(walk, start, d);
      return true;
    }

    /** `verify_hashes`. */
    method Verify(walk: Walk) returns (ok: bool)
      ensures ok == VerifyHashes(walk, d)
    {
      hide HashOf;
      var config := HashDefinition(walk, d, true);
      if config != Some(d.configHash) { return false; }
      var full := HashDefinition(walk, d, false);
      return full == Some(d.definitionHash);
    }

    /** `sign_creator`. */
    method SignCreator(sign: Definition -> Option<Bytes>) returns (ok: bool)
      modifies this
      ensures Resigned(old(d), d) && d.operators == old(d).operators && d.configHash == old(d).configHash
      ensures ok <==> sign(old(d)).Some?
      ensures ok ==> d.creator.configSignature == sign(old(d)).value
      ensures !ok ==> d == old(d)
    {
      var signature := sign(d);
      if signature.None? { return false; }
      d := d.(creator := d.creator.(configSignature := signature.value));
      return true;
    }

    /** `sign_operator` on the operator at `i`: both signatures are made before either is stored. */
    method SignOperator(i: nat, sign: (Definition, Operator) -> Option<(Bytes, Bytes)>) returns (ok: bool)
      requires i < |d.operators|
      modifies this
      ensures Resigned(old(d), d) && d.creator == old(d).creator && d.configHash == old(d).configHash
      ensures forall j | 0 <= j < |d.operators| && j != i :: d.operators[j] == old(d).operators[j]
      ensures d.operators[i].enr == old(d).operators[i].enr
      ensures ok <==> sign(old(d), old(d).operators[i]).Some?
      ensures ok ==> (d.operators[i].configSignature, d.operators[i].enrSignature)
                     == sign(old(d), old(d).operators[i]).value
      ensures !ok ==> d == old(d)
    {
      var signatures := sign(d, d.operators[i]);
      if signatures.None? { return false; }
      var o := d.operators[i].(configSignature := signatures.value.0, enrSignature := signatures.value.1);
      d := d.(operators := d.operators[i := o]);
      return true;
    }
  }

  lemma ResignedTransitive(a: Definition, b: Definition, c: Definition)
    requires Resigned(a, b) && Resigned(b, c)
    ensures Resigned(a, c)
  {
  }

  ghost predicate SameEnrs(a: Definition, b: Definition) {
    |a.operators| == |b.operators| && forall i | 0 <= i < |a.operators| :: a.operators[i].enr == b.operators[i].enr
  }

  datatype Signer = TheCreator | TheOperator(index: nat)

  /** Set the hashes, then let any signers sign, in any order and as often as they like: the config
      hash that was signed stays correct. */
  method SignAll(cell: DefinitionCell, walk: Walk, signCreator: Definition -> Option<Bytes>,
                 signOperator: (Definition, Operator) -> Option<(Bytes, Bytes)>, order: seq<Signer>) returns (ok: bool)
    requires forall k | 0 <= k < |order| :: order[k].TheOperator? ==> order[k].index < |cell.d.operators|
    modifies cell
    ensures ok ==> HashOf(walk, cell.d, true) == Some(cell.d.configHash)
    ensures Resigned(old(cell.d), cell.d) && SameEnrs(old(cell.d), cell.d)
  {
    hide HashOf, VerifyHashes;
    ghost var unsigned := cell.d;
    ok := cell.SetDefinitionHashes(walk);
    if !ok { return; }
    ghost var start := cell.d;
    assert HashOf(walk, start, true) == Some(start.configHash) by { Verified(walk, start); }
    for k := 0 to |order|
      invariant Resigned(start, cell.d) && SameEnrs(start, cell.d) && cell.d.configHash == start.configHash
    {
      ghost var before := cell.d;
      match order[k]
      case TheCreator =>
        var _ := cell.SignCreator(signCreator);
        ResignedTransitive(start, before, cell.d);
      case TheOperator(i) =>
        var _ := cell.SignOperator(i, signOperator);
        ResignedTransitive(start, before, cell.d);
    }
    ResignedKeepsConfigHash(walk, start, cell.d);
    ResignedTransitive(unsigned, start, cell.d);
  }

  lemma Verified(walk: Walk, d: Definition)
    requires VerifyHashes(walk, d)
    ensures HashOf(walk, d, true) == Some(d.configHash)
  {
  }

  /** The legacy address collapse undoes the repetition, except that no repetition at all collapses
      to empty addresses. */
  lemma CollapseUndoesRepeat(d: Definition, pair: Addresses, count: nat)
    requires d.validatorAddresses == seq(count, _ => pair)
    ensures OneAddressPair(d) && LegacyAddresses(d) == if count == 0 then Addresses([], []) else pair
  {
  }
}
