/** The scheduler actor with its mutable fields, each method proved against `SchedulerModel`. */
module SchedulerActor {
  import opened Common
  import opened Slots
  import opened M = SchedulerModel

  /** `Filter` never recovers from an error in a prefix. */
  lemma {:induction false} FilterErrorStays(from: nat, vals: seq<Validator>, ds: seq<Definition>, n: nat)
    requires n <= |ds| && Filter(from, vals, ds[..n]).Err?
    ensures Filter(from, vals, ds) == Filter(from, vals, ds[..n])
    decreases |ds|
  {
    if n == |ds| {
      assert ds[..n] == ds;
    } else {
      assert ds[..|ds| - 1][..n] == ds[..n];
      FilterErrorStays(from, vals, ds[..|ds| - 1], n);
    }
  }

  /** `fetch_attester_duties`, `fetch_proposer_duties` and `fetch_sync_committee_duties`. */
  method FetchDuties(slot: Slot, vals: seq<Validator>, reply: Result<seq<Definition>, Error>)
    returns (r: Result<seq<Definition>, Error>)
    ensures r == Fetch(slot.number, vals, reply)
  {
    if reply.Err? { return reply; }
    var ds := reply.value;
    var kept: seq<Definition> := [];
    for i := 0 to |ds|
      invariant Filter(slot.number, vals, ds[..i]) == Ok(kept)
    {
      assert ds[..i + 1][..i] == ds[..i];
      var d := ds[i];
      if Earlier(d, slot.number) { continue; }
      match FindPubkey(vals, d.validatorIndex)
      case None =>
      case Some(pubkey) =>
        if pubkey != d.pubkey {
          FilterErrorStays(slot.number, vals, ds, i + 1);
          return Err(InvalidDutyPubkey(pubkey, d.pubkey));
        }
        kept := kept + [d];
    }
    assert ds[..|ds|] == ds;
    return Ok(kept);
  }

  class Actor {
    const slotsPerEpoch: nat
    var resolvedEpoch: nat
    var duties: map<Duty, map<PubKey, Definition>>
    var dutiesByEpoch: map<nat, seq<Duty>>

    ghost function View(): M.State
      reads this
    {
      M.State(resolvedEpoch, duties, dutiesByEpoch)
    }

    constructor (slotsPerEpoch: nat)
      ensures View() == M.INITIAL && this.slotsPerEpoch == slotsPerEpoch
    {
      this.slotsPerEpoch := slotsPerEpoch;
      resolvedEpoch, duties, dutiesByEpoch := UNRESOLVED, map[], map[];
    }

    method SetDutyDefinition(duty: Duty, epoch: nat, pubkey: PubKey, definition: Definition) returns (set_: bool)
      modifies this
      ensures View() == M.SetDuty(old(View()), epoch, Entry(duty, pubkey, definition))
      ensures set_ == !M.Has(old(View()), duty, pubkey)
    {
      var defSet := if duty in duties then duties[duty] else map[];
      if pubkey in defSet { return false; }
      duties := duties[duty := defSet[pubkey := definition]];
      var listed := if epoch in dutiesByEpoch then dutiesByEpoch[epoch] else [];
      dutiesByEpoch := dutiesByEpoch[epoch := listed + [duty]];
      return true;
    }

    method TrimDuties(epoch: nat)
      modifies this
      ensures View() == M.Trim(old(View()), epoch)
    {
      if epoch !in dutiesByEpoch { return; }
      var listed := dutiesByEpoch[epoch];
      dutiesByEpoch := dutiesByEpoch - {epoch};
      for i := 0 to |listed|
        invariant resolvedEpoch == old(resolvedEpoch)
        invariant dutiesByEpoch == old(dutiesByEpoch) - {epoch}
        invariant duties == old(duties) - (set d | d in listed[..i])
      {
        assert listed[..i + 1] == listed[..i] + [listed[i]];
        duties := duties - {listed[i]};
      }
      assert listed[..|listed|] == listed;
    }

    method HandleChainReorg(epoch: nat)
      modifies this
      ensures View() == M.HandleChainReorg(old(View()), epoch)
    {
      if epoch < resolvedEpoch {
        TrimDuties(resolvedEpoch);
        resolvedEpoch := UNRESOLVED;
      }
    }

    method GetDutyDefinition(duty: Duty) returns (r: Result<map<PubKey, Definition>, Error>)
      requires slotsPerEpoch > 0
      ensures r == M.GetDutyDefinition(View(), slotsPerEpoch, duty)
    {
      if duty.dutyType == BuilderProposer { return Err(DeprecatedDutyBuilderProposer); }
      var epoch := duty.slot / slotsPerEpoch;
      if resolvedEpoch == UNRESOLVED || resolvedEpoch < epoch { return Err(EpochNotResolved(epoch, duty)); }
      var horizon := if epoch + TRIM_EPOCH_OFFSET <= U64_MAX then epoch + TRIM_EPOCH_OFFSET else U64_MAX;
      if resolvedEpoch >= horizon { return Err(EpochAlreadyTrimmed(epoch, duty)); }
      if duty !in duties { return Err(DutyNotFound(epoch, duty)); }
      return Ok(duties[duty]);
    }

    method StoreAttesters(epoch: nat, ds: seq<Definition>)
      requires AllAttester(ds)
      modifies this
      ensures View() == M.StoreAttesters(old(View()), epoch, ds)
    {
      for i := 0 to |ds|
        invariant View() == M.StoreAttesters(old(View()), epoch, ds[..i])
      {
        assert ds[..i + 1][..i] == ds[..i];
        var d := ds[i];
        var fresh_ := SetDutyDefinition(Duty(d.slot, Attester), epoch, d.pubkey, d);
        if !fresh_ { continue; }
        var _ := SetDutyDefinition(Duty(d.slot, Aggregator), epoch, d.pubkey, d);
      }
      assert ds[..|ds|] == ds;
    }

    method StoreProposers(epoch: nat, ds: seq<Definition>)
      requires AllProposer(ds)
      modifies this
      ensures View() == M.StoreAll(old(View()), epoch, ProposerEntries(ds))
    {
      ghost var xs := ProposerEntries(ds);
      for i := 0 to |ds|
        invariant View() == M.StoreAll(old(View()), epoch, xs[..i])
      {
        assert xs[..i + 1][..i] == xs[..i];
        var d := ds[i];
        var _ := SetDutyDefinition(Duty(d.slot, Proposer), epoch, d.pubkey, d);
      }
      assert xs[..|ds|] == xs;
    }

    /** The inner sync-committee loop walks `slot.iter()` while the epoch stays the same. */
    method StoreSyncRow(slot: Slot, d: Definition)
      requires SlotInRange(slot, slotsPerEpoch)
      modifies this
      ensures View() == M.StoreAll(old(View()), slot.Epoch(), SyncRow(slot, d))
    {
      ghost var xs := SyncRow(slot, d);
      var sl, e := slot, slot.Epoch();
      EpochBounds(slot.number, slot.slotsPerEpoch, e);
      ghost var i := 0;
      while sl.Epoch() == e
        invariant sl.slotsPerEpoch == slot.slotsPerEpoch && sl.number == slot.number + i <= slot.EpochEnd()
        invariant 0 <= i <= |xs|
        invariant View() == M.StoreAll(old(View()), e, xs[..i])
        decreases slot.EpochEnd() - sl.number
      {
        EpochBounds(sl.number, sl.slotsPerEpoch, e);
        assert xs[..i + 1][..i] == xs[..i];
        var _ := SetDutyDefinition(Duty(sl.number, SyncContribution), sl.Epoch(), d.pubkey, d);
        sl, i := sl.Next(), i + 1;
      }
      EpochBounds(sl.number, sl.slotsPerEpoch, e);
      assert xs[..i] == xs;
    }

    method StoreSyncCommittee(slot: Slot, ds: seq<Definition>)
      requires SlotInRange(slot, slotsPerEpoch)
      modifies this
      ensures View() == M.StoreAll(old(View()), slot.Epoch(), SyncEntries(slot, ds))
    {
      for i := 0 to |ds|
        invariant View() == M.StoreAll(old(View()), slot.Epoch(), SyncEntries(slot, ds[..i]))
      {
        assert ds[..i + 1][..i] == ds[..i];
        StoreSyncRow(slot, ds[i]);
        StoreAllAppend(old(View()), slot.Epoch(), SyncEntries(slot, ds[..i]), SyncRow(slot, ds[i]));
      }
      assert ds[..|ds|] == ds;
    }

    /** `a` holds the beacon node's answers to the requests this call makes, in order. */
    method ResolveDuties(slot: Slot, a: Answer) returns (failure: Option<Error>)
      requires SlotInRange(slot, slotsPerEpoch) && a.Typed()
      modifies this
      ensures View() == M.Resolve(old(View()), slot, a).state
      ensures failure == M.Resolve(old(View()), slot, a).failure
    {
      if a.validators.Err? { return Some(a.validators.error); }
      if a.validators.value == [] {
        resolvedEpoch := slot.Epoch();
        return None;
      }
      failure := ResolveActive(slot, a.validators.value, a);
    }

    method ResolveActive(slot: Slot, vals: seq<Validator>, a: Answer) returns (failure: Option<Error>)
      requires SlotInRange(slot, slotsPerEpoch) && a.Typed()
      modifies this
      ensures View() == M.ResolveActive(old(View()), slot, vals, a).state
      ensures failure == M.ResolveActive(old(View()), slot, vals, a).failure
    {
      var e := slot.Epoch();
      FetchTyped(slot.number, vals, a);
      var att := FetchDuties(slot, vals, a.attesters);
      if att.Err? { return Some(att.error); }
      StoreAttesters(e, att.value);
      var pro := FetchDuties(slot, vals, a.proposers);
      if pro.Err? { return Some(pro.error); }
      StoreProposers(e, pro.value);
      var sync := FetchDuties(slot, vals, a.syncCommittee);
      if sync.Err? { return Some(sync.error); }
      StoreSyncCommittee(slot, sync.value);
      Finish(e);
      return None;
    }

    method Finish(epoch: nat)
      modifies this
      ensures View() == M.Finish(old(View()), epoch)
    {
      resolvedEpoch := epoch;
      if epoch >= TRIM_EPOCH_OFFSET {
        TrimDuties(epoch - TRIM_EPOCH_OFFSET);
      }
    }

    /** Returns the duties broadcast for the slot with their definition sets, in the order in which
        their tasks are spawned. */
    method ScheduleSlot(slot: Slot, current: Answer, next: Answer)
      returns (broadcast: seq<(Duty, map<PubKey, Definition>)>)
      requires SlotInRange(slot, slotsPerEpoch) && SlotInRange(slot.Next(), slotsPerEpoch)
      requires current.Typed() && next.Typed()
      modifies this
      ensures View() == M.ScheduleSlot(old(View()), slot, current, next)
      ensures broadcast ==
                M.Broadcasts(M.BeforeBroadcast(old(View()), slot, current), slot.number, ALL_DUTY_TYPES)
    {
      if resolvedEpoch != slot.Epoch() {
        var _ := ResolveDuties(slot, current);
      }
      broadcast := [];
      for i := 0 to |ALL_DUTY_TYPES|
        invariant View() == M.BeforeBroadcast(old(View()), slot, current)
        invariant broadcast == M.Broadcasts(View(), slot.number, ALL_DUTY_TYPES[..i])
      {
        assert ALL_DUTY_TYPES[..i + 1][..i] == ALL_DUTY_TYPES[..i];
        var duty := Duty(slot.number, ALL_DUTY_TYPES[i]);
        if duty in duties {
          broadcast := broadcast + [(duty, duties[duty])];
        }
      }
      assert ALL_DUTY_TYPES[..|ALL_DUTY_TYPES|] == ALL_DUTY_TYPES;
      if slot.LastInEpoch() {
        var _ := ResolveDuties(slot.Next(), next);
      }
    }
  }
}
