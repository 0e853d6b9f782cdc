/** What ends up stored, said of the beacon node's raw answers, duty type by duty type; and which
    error a lookup gives. */
module SchedulerDuties {
  import opened Common
  import opened Slots
  import opened SchedulerModel
  import opened SchedulerInvariants
  import opened SchedulerRuns
  import opened SchedulerHistory

  // ---------------------------------------------------------------------------------------------
  // The first of a list
  // ---------------------------------------------------------------------------------------------

  /** `d` is the first definition of the list that satisfies `p`. */
  ghost predicate IsFirst(ds: seq<Definition>, p: Definition -> bool, d: Definition) {
    exists i: nat :: i < |ds| && ds[i] == d && p(d) && forall j | 0 <= j < i :: !p(ds[j])
  }

  function FirstWhere(ds: seq<Definition>, p: Definition -> bool): Option<Definition> {
    if ds == [] then None else
    var before, d := FirstWhere(ds[..|ds| - 1], p), ds[|ds| - 1];
    if before.Some? then before else if p(d) then Some(d) else None
  }

  lemma {:induction false} FirstWhereIff(ds: seq<Definition>, p: Definition -> bool)
    ensures FirstWhere(ds, p) == None <==> forall i | 0 <= i < |ds| :: !p(ds[i])
    ensures forall d :: FirstWhere(ds, p) == Some(d) <==> IsFirst(ds, p, d)
  {
    if ds != [] {
      var n := |ds| - 1;
      var init := ds[..n];
      FirstWhereIff(init, p);
      assert forall i | 0 <= i < n :: init[i] == ds[i];
      forall d ensures FirstWhere(ds, p) == Some(d) <==> IsFirst(ds, p, d) {
        if IsFirst(init, p, d) {
          var i: nat :| i < n && init[i] == d && p(d) && forall j | 0 <= j < i :: !p(init[j]);
          assert ds[i] == d && forall j | 0 <= j < i :: !p(ds[j]);
        }
        if IsFirst(ds, p, d) {
          var i: nat :| i < |ds| && ds[i] == d && p(d) && forall j | 0 <= j < i :: !p(ds[j]);
          if i < n { assert init[i] == d && forall j | 0 <= j < i :: !p(init[j]); }
        }
      }
    }
  }

  lemma {:induction false} FirstWhereFiltered(from: nat, vals: seq<Validator>, ds: seq<Definition>,
                                              p: Definition -> bool)
    requires Filter(from, vals, ds).Ok?
    ensures FirstWhere(Filter(from, vals, ds).value, p) == FirstWhere(ds, d => Kept(d, from, vals) && p(d))
  {
    if ds != [] {
      var init, d := ds[..|ds| - 1], ds[|ds| - 1];
      FirstWhereFiltered(from, vals, init, p);
      var before := Filter(from, vals, init).value;
      if Kept(d, from, vals) { assert (before + [d])[..|before|] == before; }
    }
  }

  lemma {:induction false} FirstAppend(xs: seq<Entry>, ys: seq<Entry>, duty: Duty, pubkey: PubKey)
    ensures First(xs + ys, duty, pubkey) ==
              if First(xs, duty, pubkey).Some? then First(xs, duty, pubkey) else First(ys, duty, pubkey)
  {
    if xs == [] {
      assert xs + ys == ys;
    } else {
      assert (xs + ys)[1..] == xs[1..] + ys;
      FirstAppend(xs[1..], ys, duty, pubkey);
    }
  }

  // ---------------------------------------------------------------------------------------------
  // The first entry of each kind
  // ---------------------------------------------------------------------------------------------

  /** A definition of the slot and key; sync-committee definitions are of every slot. */
  function Of(number: nat, pubkey: PubKey): Definition -> bool {
    (d: Definition) => (d.SyncCommitteeDef? || d.slot == number) && d.pubkey == pubkey
  }

  lemma {:induction false} FirstAttester(ds: seq<Definition>, duty: Duty, pubkey: PubKey)
    requires AllAttester(ds)
    ensures First(AttesterEntries(ds), duty, pubkey) ==
              if duty.dutyType == Attester || duty.dutyType == Aggregator
              then FirstWhere(ds, Of(duty.slot, pubkey)) else None
  {
    if ds != [] {
      var init, d := ds[..|ds| - 1], ds[|ds| - 1];
      var xs, x, y := AttesterEntries(init), AttesterEntry(d), AggregatorEntry(d);
      FirstAttester(init, duty, pubkey);
      assert AttesterEntries(ds) == xs + [x] + [y];
      FirstSnoc(xs, x, duty, pubkey);
      FirstSnoc(xs + [x], y, duty, pubkey);
    }
  }

  lemma {:induction false} FirstProposer(ds: seq<Definition>, duty: Duty, pubkey: PubKey)
    requires AllProposer(ds)
    ensures First(ProposerEntries(ds), duty, pubkey) ==
              if duty.dutyType == Proposer then FirstWhere(ds, Of(duty.slot, pubkey)) else None
  {
    if ds != [] {
      var init, d := ds[..|ds| - 1], ds[|ds| - 1];
      FirstProposer(init, duty, pubkey);
      assert ProposerEntries(ds) == ProposerEntries(init) + [ProposerEntry(d)];
      FirstSnoc(ProposerEntries(init), ProposerEntry(d), duty, pubkey);
    }
  }

  lemma FirstRow(slot: Slot, d: Definition, duty: Duty, pubkey: PubKey)
    requires slot.Valid()
    ensures First(SyncRow(slot, d), duty, pubkey) ==
              if duty.dutyType == SyncContribution && slot.number <= duty.slot < slot.EpochEnd() && d.pubkey == pubkey
              then Some(d) else None
  {
    var xs := SyncRow(slot, d);
    if duty.dutyType == SyncContribution && slot.number <= duty.slot < slot.EpochEnd() && d.pubkey == pubkey {
      assert xs[duty.slot - slot.number] == Entry(duty, pubkey, d);
    }
  }

  lemma {:induction false} FirstSync(slot: Slot, ds: seq<Definition>, duty: Duty, pubkey: PubKey)
    requires slot.Valid() && AllSyncCommittee(ds)
    ensures First(SyncEntries(slot, ds), duty, pubkey) ==
              if duty.dutyType == SyncContribution && slot.number <= duty.slot < slot.EpochEnd()
              then FirstWhere(ds, Of(duty.slot, pubkey)) else None
  {
    if ds != [] {
      var init, d := ds[..|ds| - 1], ds[|ds| - 1];
      FirstSync(slot, init, duty, pubkey);
      FirstAppend(SyncEntries(slot, init), SyncRow(slot, d), duty, pubkey);
      FirstRow(slot, d, duty, pubkey);
    }
  }

  // ---------------------------------------------------------------------------------------------
  // What a finished resolve stores
  // ---------------------------------------------------------------------------------------------

  /** A definition that serves the key at the slot: it names the key of a known validator, and is for
      that slot, not before the resolve's own, or for the whole sync committee period. */
  ghost predicate Serves(d: Definition, from: nat, vals: seq<Validator>, number: nat, pubkey: PubKey) {
    && d.pubkey == pubkey && Known(vals, d.validatorIndex, pubkey)
    && (d.SyncCommitteeDef? || (d.slot == number && number >= from))
  }

  /** The first of the answer that does. */
  ghost predicate ServesFirst(ds: seq<Definition>, from: nat, vals: seq<Validator>, number: nat, pubkey: PubKey,
                              d: Definition)
  {
    exists i: nat ::
      && i < |ds| && ds[i] == d && Serves(d, from, vals, number, pubkey)
      && forall j | 0 <= j < i :: !Serves(ds[j], from, vals, number, pubkey)
  }

  lemma ServesFirstIff(from: nat, vals: seq<Validator>, ds: seq<Definition>, number: nat, pubkey: PubKey, d: Definition)
    requires Filter(from, vals, ds).Ok?
    ensures FirstWhere(Filter(from, vals, ds).value, Of(number, pubkey)) == Some(d) <==>
              ServesFirst(ds, from, vals, number, pubkey, d)
  {
    var p: Definition -> bool := x => Kept(x, from, vals) && Of(number, pubkey)(x);
    FirstWhereFiltered(from, vals, ds, Of(number, pubkey));
    assert FirstWhere(Filter(from, vals, ds).value, Of(number, pubkey)) == FirstWhere(ds, p);
    FirstWhereIff(ds, p);
    forall x: Definition ensures p(x) <==> Serves(x, from, vals, number, pubkey) {
      PassesIff(x, from, vals);
    }
    if IsFirst(ds, p, d) {
      var i: nat :| i < |ds| && ds[i] == d && p(d) && forall j | 0 <= j < i :: !p(ds[j]);
      assert ServesFirst(ds, from, vals, number, pubkey, d);
    }
    if ServesFirst(ds, from, vals, number, pubkey, d) {
      var i: nat :| i < |ds| && ds[i] == d && Serves(d, from, vals, number, pubkey)
                    && forall j | 0 <= j < i :: !Serves(ds[j], from, vals, number, pubkey);
      assert IsFirst(ds, p, d);
    }
  }

  /** The definition the answers assign to a duty and validator: attester and aggregator duties come
      from the attester answer, proposer duties from the proposer answer, sync contributions, for
      every slot left in the epoch, from the sync-committee answer, and no other type is assigned. */
  ghost predicate Assigned(slot: Slot, a: Answer, n: nat, duty: Duty, pubkey: PubKey, d: Definition)
    requires n > 0 && slot.Valid() && Active(a) && a.attesters.Ok? && a.proposers.Ok? && a.syncCommittee.Ok?
  {
    var from, vals, number := slot.number, a.validators.value, duty.slot;
    match duty.dutyType
    case Attester => ServesFirst(a.attesters.value, from, vals, number, pubkey, d)
    case Aggregator => ServesFirst(a.attesters.value, from, vals, number, pubkey, d)
    case Proposer => ServesFirst(a.proposers.value, from, vals, number, pubkey, d)
    case SyncContribution =>
      && from <= number && number / n == from / n
      && ServesFirst(a.syncCommittee.value, from, vals, number, pubkey, d)
    case _ => false
  }

  lemma SyncFilterTyped(from: nat, vals: seq<Validator>, ds: seq<Definition>)
    requires AllSyncCommittee(ds) && Filter(from, vals, ds).Ok?
    ensures AllSyncCommittee(Filter(from, vals, ds).value)
  {
    FilterExact(from, vals, ds);
    var kept := Filter(from, vals, ds).value;
    forall i | 0 <= i < |kept| ensures kept[i].SyncCommitteeDef? {
      assert kept[i] in ds;
    }
  }

  /** The first entry a finished resolve offers for a duty and validator is the one assigned. */
  lemma OfferedAssigned(slot: Slot, a: Answer, n: nat, duty: Duty, pubkey: PubKey, d: Definition)
    requires n > 0 && slot.Valid() && slot.slotsPerEpoch == n && a.Typed() && Active(a)
    requires Offered(slot, a.validators.value, a).1
    ensures a.attesters.Ok? && a.proposers.Ok? && a.syncCommittee.Ok?
    ensures First(Offered(slot, a.validators.value, a).0, duty, pubkey) == Some(d) <==>
              Assigned(slot, a, n, duty, pubkey, d)
  {
    hide Filter, First, AttesterEntries, ProposerEntries, SyncEntries, FirstWhere, ServesFirst, Of;
    var from, vals, number := slot.number, a.validators.value, duty.slot;
    FetchTyped(from, vals, a);
    var att, pro, sync := Filter(from, vals, a.attesters.value).value, Filter(from, vals, a.proposers.value).value,
                          Filter(from, vals, a.syncCommittee.value).value;
    SyncFilterTyped(from, vals, a.syncCommittee.value);
    FirstAppend(AttesterEntries(att) + ProposerEntries(pro), SyncEntries(slot, sync), duty, pubkey);
    FirstAppend(AttesterEntries(att), ProposerEntries(pro), duty, pubkey);
    FirstAttester(att, duty, pubkey);
    FirstProposer(pro, duty, pubkey);
    FirstSync(slot, sync, duty, pubkey);
    ServesFirstIff(from, vals, a.attesters.value, number, pubkey, d);
    ServesFirstIff(from, vals, a.proposers.value, number, pubkey, d);
    ServesFirstIff(from, vals, a.syncCommittee.value, number, pubkey, d);
    EpochBounds(number, n, slot.Epoch());
    EpochBounds(from, n, slot.Epoch());
  }

  lemma AssignedNotEarlier(slot: Slot, a: Answer, n: nat, duty: Duty, pubkey: PubKey, d: Definition)
    requires n > 0 && slot.Valid() && a.Typed() && Active(a)
    requires a.attesters.Ok? && a.proposers.Ok? && a.syncCommittee.Ok? && Assigned(slot, a, n, duty, pubkey, d)
    ensures duty.slot >= slot.number
  {
  }

  /** For a duty and validator with nothing stored, a finished fitting resolve stores exactly the
      definition the answers assign. */
  lemma ResolveStores(s: State, slot: Slot, a: Answer, n: nat, duty: Duty, pubkey: PubKey, d: Definition)
    requires Good(s, n) && SlotInRange(slot, n) && a.Typed() && Active(a) && ResolveFits(s, slot, a, n)
    requires Resolve(s, slot, a).failure.None? && !Has(s, duty, pubkey)
    ensures a.attesters.Ok? && a.proposers.Ok? && a.syncCommittee.Ok?
    ensures Get(Resolve(s, slot, a).state, duty, pubkey) == Some(d) <==> Assigned(slot, a, n, duty, pubkey, d)
  {
    hide Assigned, Offered, Resolve, Filter;
    GoodPaired(s, n);
    FinishesIff(s, slot, a);
    OfferedAssigned(slot, a, n, duty, pubkey, d);
    ResolveGet(s, slot, a, n, duty, pubkey);
    if Assigned(slot, a, n, duty, pubkey, d) {
      AssignedNotEarlier(slot, a, n, duty, pubkey, d);
      EpochMonotone(slot.number, duty.slot, n);
    }
  }

  /** Types a resolve never stores. */
  lemma OnlyFourTypes(s: State, slot: Slot, a: Answer, n: nat, duty: Duty, pubkey: PubKey)
    requires Good(s, n) && SlotInRange(slot, n) && a.Typed() && Active(a) && ResolveFits(s, slot, a, n)
    requires Resolve(s, slot, a).failure.None? && !Has(s, duty, pubkey) && Has(Resolve(s, slot, a).state, duty, pubkey)
    ensures duty.dutyType in {Attester, Aggregator, Proposer, SyncContribution}
  {
    hide Resolve;
    var d := DefSet(Resolve(s, slot, a).state, duty)[pubkey];
    ResolveStores(s, slot, a, n, duty, pubkey, d);
  }

  /** Whatever passes is served: after a finished fitting resolve every validator of a passing
      attester, proposer or sync-committee definition has its duties. */
  lemma EveryPassingServed(s: State, slot: Slot, a: Answer, n: nat, d: Definition)
    requires Good(s, n) && SlotInRange(slot, n) && a.Typed() && Active(a) && ResolveFits(s, slot, a, n)
    requires Resolve(s, slot, a).failure.None? && Passes(d, slot.number, a.validators.value)
    ensures a.attesters.Ok? && a.proposers.Ok? && a.syncCommittee.Ok?
    ensures var s' := Resolve(s, slot, a).state;
            && (d in a.attesters.value ==>
                  Has(s', Duty(d.slot, Attester), d.pubkey) && Has(s', Duty(d.slot, Aggregator), d.pubkey))
            && (d in a.proposers.value ==> Has(s', Duty(d.slot, Proposer), d.pubkey))
            && (d in a.syncCommittee.value ==> forall number | slot.number <= number && number / n == slot.number / n ::
                  Has(s', Duty(number, SyncContribution), d.pubkey))
  {
    hide Resolve, Offered, Filter;
    GoodPaired(s, n);
    FinishesIff(s, slot, a);
    OfferedExactly(slot, a.validators.value, a, Entry(Duty(0, Attester), d.pubkey, d));
    PassesIff(d, slot.number, a.validators.value);
    if d in a.attesters.value {
      ServedEntry(s, slot, a, n, Entry(Duty(d.slot, Attester), d.pubkey, d));
      ServedEntry(s, slot, a, n, Entry(Duty(d.slot, Aggregator), d.pubkey, d));
    }
    if d in a.proposers.value {
      ServedEntry(s, slot, a, n, Entry(Duty(d.slot, Proposer), d.pubkey, d));
    }
    if d in a.syncCommittee.value {
      forall number: nat | slot.number <= number && number / n == slot.number / n
        ensures Has(Resolve(s, slot, a).state, Duty(number, SyncContribution), d.pubkey)
      {
        EpochBounds(number, n, slot.Epoch());
        ServedEntry(s, slot, a, n, Entry(Duty(number, SyncContribution), d.pubkey, d));
      }
    }
  }

  lemma ServedEntry(s: State, slot: Slot, a: Answer, n: nat, x: Entry)
    requires Good(s, n) && SlotInRange(slot, n) && a.Typed() && Active(a) && ResolveFits(s, slot, a, n)
    requires Resolve(s, slot, a).failure.None? && a.attesters.Ok? && a.proposers.Ok? && a.syncCommittee.Ok?
    requires Expected(slot, a.validators.value, a, x)
    ensures Has(Resolve(s, slot, a).state, x.duty, x.pubkey)
  {
    hide Resolve, Expected;
    ResolveCovers(s, slot, a, n, x.duty, x.pubkey);
    assert Expected(slot, a.validators.value, a, Entry(x.duty, x.pubkey, x.definition));
  }

  // ---------------------------------------------------------------------------------------------
  // Lookup errors
  // ---------------------------------------------------------------------------------------------

  /** Which error a lookup gives, in any state: the deprecated type first, then an epoch past the
      last resolved one, then one at least three epochs before it, then a duty that is not stored. */
  lemma LookupErrors(s: State, n: nat, duty: Duty, epoch: nat)
    requires n > 0 && s.resolvedEpoch <= 0xFFFF_FFFF_FFFF_FFFF && epoch == duty.slot / n
    ensures var r := GetDutyDefinition(s, n, duty);
            var resolved := s.resolvedEpoch != 0xFFFF_FFFF_FFFF_FFFF && epoch <= s.resolvedEpoch;
            var trimmed := epoch + 3 <= s.resolvedEpoch;
            && (r == Err(DeprecatedDutyBuilderProposer) <==> duty.dutyType == BuilderProposer)
            && (r == Err(EpochNotResolved(epoch, duty)) <==> duty.dutyType != BuilderProposer && !resolved)
            && (r == Err(EpochAlreadyTrimmed(epoch, duty)) <==>
                  duty.dutyType != BuilderProposer && resolved && trimmed)
            && (r == Err(DutyNotFound(epoch, duty)) <==>
                  duty.dutyType != BuilderProposer && resolved && !trimmed && duty !in s.duties)
            && (r.Ok? <==> duty.dutyType != BuilderProposer && resolved && !trimmed && duty in s.duties)
  {
    assert IsEpochResolved(s, epoch) <==> s.resolvedEpoch != 0xFFFF_FFFF_FFFF_FFFF && epoch <= s.resolvedEpoch;
  }
}
