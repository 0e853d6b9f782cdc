/** What every scheduler operation keeps: the index agrees with the duties, and attester and
    aggregator definitions come in equal pairs. */
module SchedulerInvariants {
  import opened Common
  import opened Slots
  import opened SchedulerModel

  // ---------------------------------------------------------------------------------------------
  // Attester/aggregator pairing: needs nothing of the beacon node
  // ---------------------------------------------------------------------------------------------

  /** Attester and aggregator definition sets of a slot are equal, and so is their presence in
      every index list. */
  ghost predicate Paired(s: State) {
    && (forall slot: nat :: DefSet(s, Duty(slot, Attester)) == DefSet(s, Duty(slot, Aggregator)))
    && (forall slot: nat, epoch: nat ::
          Duty(slot, Attester) in IndexList(s, epoch) <==> Duty(slot, Aggregator) in IndexList(s, epoch))
  }

  function AttesterEntries(ds: seq<Definition>): seq<Entry>
    requires AllAttester(ds)
  {
    if ds == [] then []
    else AttesterEntries(ds[..|ds| - 1]) + [AttesterEntry(ds[|ds| - 1]), AggregatorEntry(ds[|ds| - 1])]
  }

  lemma StorePair(s: State, epoch: nat, d: Definition)
    requires Paired(s) && d.AttesterDef?
    ensures Paired(SetDuty(SetDuty(s, epoch, AttesterEntry(d)), epoch, AggregatorEntry(d)))
    ensures Has(s, Duty(d.slot, Attester), d.pubkey) ==>
              SetDuty(SetDuty(s, epoch, AttesterEntry(d)), epoch, AggregatorEntry(d)) == s
  {
    var att, agg := Duty(d.slot, Attester), Duty(d.slot, Aggregator);
    assert DefSet(s, att) == DefSet(s, agg);
    var s1 := SetDuty(s, epoch, AttesterEntry(d));
    var s2 := SetDuty(s1, epoch, AggregatorEntry(d));
    if !Has(s, att, d.pubkey) {
      assert !Has(s1, agg, d.pubkey);
      assert IndexList(s2, epoch) == IndexList(s, epoch) + [att] + [agg];
      forall slot: nat ensures DefSet(s2, Duty(slot, Attester)) == DefSet(s2, Duty(slot, Aggregator)) {
        assert DefSet(s, Duty(slot, Attester)) == DefSet(s, Duty(slot, Aggregator));
      }
      forall slot: nat, e: nat
        ensures Duty(slot, Attester) in IndexList(s2, e) <==> Duty(slot, Aggregator) in IndexList(s2, e)
      {
        assert Duty(slot, Attester) in IndexList(s, e) <==> Duty(slot, Aggregator) in IndexList(s, e);
      }
    }
  }

  /** On paired states the conditional attester loop is a plain fold over both kinds of entry. */
  lemma {:induction false} StoreAttestersPairs(s: State, epoch: nat, ds: seq<Definition>)
    requires Paired(s) && AllAttester(ds)
    ensures Paired(StoreAttesters(s, epoch, ds))
    ensures StoreAttesters(s, epoch, ds) == StoreAll(s, epoch, AttesterEntries(ds))
  {
    if ds != [] {
      var init, d := ds[..|ds| - 1], ds[|ds| - 1];
      StoreAttestersPairs(s, epoch, init);
      var before := StoreAttesters(s, epoch, init);
      StorePair(before, epoch, d);
      var pair := [AttesterEntry(d), AggregatorEntry(d)];
      StoreAllAppend(s, epoch, AttesterEntries(init), pair);
      assert pair[..1] == [AttesterEntry(d)] && pair[..1][..0] == [];
      assert StoreAll(before, epoch, pair[..1]) == SetDuty(before, epoch, AttesterEntry(d));
    }
  }

  lemma SetOtherKeepsPaired(s: State, epoch: nat, x: Entry)
    requires Paired(s) && x.duty.dutyType !in {Attester, Aggregator}
    ensures Paired(SetDuty(s, epoch, x))
  {
    var s' := SetDuty(s, epoch, x);
    forall slot: nat ensures DefSet(s', Duty(slot, Attester)) == DefSet(s', Duty(slot, Aggregator)) {
      assert DefSet(s, Duty(slot, Attester)) == DefSet(s, Duty(slot, Aggregator));
    }
    forall slot: nat, e: nat
      ensures Duty(slot, Attester) in IndexList(s', e) <==> Duty(slot, Aggregator) in IndexList(s', e)
    {
      assert Duty(slot, Attester) in IndexList(s, e) <==> Duty(slot, Aggregator) in IndexList(s, e);
    }
  }

  lemma {:induction false} StoreOthersKeepsPaired(s: State, epoch: nat, xs: seq<Entry>)
    requires Paired(s) && forall i | 0 <= i < |xs| :: xs[i].duty.dutyType !in {Attester, Aggregator}
    ensures Paired(StoreAll(s, epoch, xs))
  {
    if xs != [] {
      StoreOthersKeepsPaired(s, epoch, xs[..|xs| - 1]);
      SetOtherKeepsPaired(StoreAll(s, epoch, xs[..|xs| - 1]), epoch, xs[|xs| - 1]);
    }
  }

  lemma TrimKeepsPaired(s: State, epoch: nat)
    requires Paired(s)
    ensures Paired(Trim(s, epoch))
  {
    var s' := Trim(s, epoch);
    forall slot: nat ensures DefSet(s', Duty(slot, Attester)) == DefSet(s', Duty(slot, Aggregator)) {
      assert DefSet(s, Duty(slot, Attester)) == DefSet(s, Duty(slot, Aggregator));
      assert Duty(slot, Attester) in IndexList(s, epoch) <==> Duty(slot, Aggregator) in IndexList(s, epoch);
    }
    forall slot: nat, e: nat
      ensures Duty(slot, Attester) in IndexList(s', e) <==> Duty(slot, Aggregator) in IndexList(s', e)
    {
      assert Duty(slot, Attester) in IndexList(s, e) <==> Duty(slot, Aggregator) in IndexList(s, e);
    }
  }

  lemma ResolvedEpochKeepsPaired(s: State, epoch: nat)
    requires Paired(s)
    ensures Paired(s.(resolvedEpoch := epoch))
  {
    var s' := s.(resolvedEpoch := epoch);
    assert forall duty :: DefSet(s', duty) == DefSet(s, duty);
    assert forall e :: IndexList(s', e) == IndexList(s, e);
  }

  // ---------------------------------------------------------------------------------------------
  // Index agreement
  // ---------------------------------------------------------------------------------------------

  function EpochOf(duty: Duty, slotsPerEpoch: nat): nat
    requires slotsPerEpoch > 0
  {
    duty.slot / slotsPerEpoch
  }

  /** A stored duty has validators, and its own epoch lists it once per validator. */
  ghost predicate DutyIndexed(s: State, duty: Duty, n: nat)
    requires n > 0
  {
    duty in s.duties ==>
      |s.duties[duty]| > 0 && multiset(IndexList(s, EpochOf(duty, n)))[duty] == |s.duties[duty]|
  }

  /** Every list holds stored duties of its own epoch only. */
  ghost predicate ListIndexed(s: State, epoch: nat, n: nat)
    requires n > 0
  {
    forall duty | duty in IndexList(s, epoch) :: duty in s.duties && EpochOf(duty, n) == epoch
  }

  ghost predicate Indexed(s: State, n: nat)
    requires n > 0
  {
    (forall duty :: DutyIndexed(s, duty, n)) && (forall epoch :: ListIndexed(s, epoch, n))
  }

  lemma DefSetGrows(s: State, epoch: nat, x: Entry, duty: Duty)
    requires !Has(s, x.duty, x.pubkey)
    ensures |DefSet(SetDuty(s, epoch, x), duty)| == |DefSet(s, duty)| + (if duty == x.duty then 1 else 0)
  {
    if duty == x.duty {
      var old_, new_ := DefSet(s, duty), DefSet(SetDuty(s, epoch, x), duty);
      assert new_.Keys == old_.Keys + {x.pubkey};
      assert |new_.Keys| == |old_.Keys| + 1;
    }
  }

  lemma ListGrows(s: State, epoch: nat, x: Entry, duty: Duty)
    requires !Has(s, x.duty, x.pubkey)
    ensures multiset(IndexList(SetDuty(s, epoch, x), epoch))[duty] ==
              multiset(IndexList(s, epoch))[duty] + (if duty == x.duty then 1 else 0)
  {
    assert IndexList(SetDuty(s, epoch, x), epoch) == IndexList(s, epoch) + [x.duty];
  }

  lemma SetDutyIndexes(s: State, epoch: nat, x: Entry, duty: Duty, n: nat)
    requires n > 0 && EpochOf(x.duty, n) == epoch && !Has(s, x.duty, x.pubkey)
    requires DutyIndexed(s, duty, n) && ListIndexed(s, epoch, n)
    ensures DutyIndexed(SetDuty(s, epoch, x), duty, n)
  {
    hide EpochOf;
    DefSetGrows(s, epoch, x, duty);
    ListGrows(s, epoch, x, duty);
    assert duty !in s.duties ==> multiset(IndexList(s, epoch))[duty] == 0;
  }

  lemma SetDutyKeepsIndexed(s: State, epoch: nat, x: Entry, n: nat)
    requires n > 0 && Indexed(s, n) && EpochOf(x.duty, n) == epoch
    ensures Indexed(SetDuty(s, epoch, x), n)
  {
    if !Has(s, x.duty, x.pubkey) {
      forall duty ensures DutyIndexed(SetDuty(s, epoch, x), duty, n) {
        assert DutyIndexed(s, duty, n) && ListIndexed(s, epoch, n);
        SetDutyIndexes(s, epoch, x, duty, n);
      }
      forall e ensures ListIndexed(SetDuty(s, epoch, x), e, n) {
        assert ListIndexed(s, e, n);
      }
    }
  }

  ghost predicate EntriesIn(xs: seq<Entry>, epoch: nat, n: nat)
    requires n > 0
  {
    forall i | 0 <= i < |xs| :: EpochOf(xs[i].duty, n) == epoch
  }

  /** Every entry lies in the epoch or is stored already. */
  ghost predicate Settled(s: State, xs: seq<Entry>, epoch: nat, n: nat)
    requires n > 0
  {
    forall i | 0 <= i < |xs| :: EpochOf(xs[i].duty, n) == epoch || Has(s, xs[i].duty, xs[i].pubkey)
  }

  lemma {:induction false} StoreAllKeeps(s: State, epoch: nat, xs: seq<Entry>, duty: Duty, pubkey: PubKey)
    requires Has(s, duty, pubkey)
    ensures Has(StoreAll(s, epoch, xs), duty, pubkey)
  {
    if xs != [] { StoreAllKeeps(s, epoch, xs[..|xs| - 1], duty, pubkey); }
  }

  lemma {:induction false} StoreAllKeepsIndexed(s: State, epoch: nat, xs: seq<Entry>, n: nat)
    requires n > 0 && Indexed(s, n) && Settled(s, xs, epoch, n)
    ensures Indexed(StoreAll(s, epoch, xs), n)
  {
    if xs != [] {
      var init, x := xs[..|xs| - 1], xs[|xs| - 1];
      StoreAllKeepsIndexed(s, epoch, init, n);
      if EpochOf(x.duty, n) == epoch {
        SetDutyKeepsIndexed(StoreAll(s, epoch, init), epoch, x, n);
      } else {
        StoreAllKeeps(s, epoch, init, x.duty, x.pubkey);
      }
    }
  }

  /** What storing does to the lists: it only extends its own epoch's, and there it lists every
      entry that was not stored before. */
  lemma {:induction false} StoreAllLists(s: State, epoch: nat, xs: seq<Entry>)
    ensures var s' := StoreAll(s, epoch, xs);
            && (forall e | e != epoch :: IndexList(s', e) == IndexList(s, e))
            && IndexList(s, epoch) <= IndexList(s', epoch)
            && (forall duty, pubkey | Has(s', duty, pubkey) && !Has(s, duty, pubkey) :: duty in IndexList(s', epoch))
  {
    if xs != [] { StoreAllLists(s, epoch, xs[..|xs| - 1]); }
  }

  /** Trimming removes exactly the stored duties of the epoch. */
  lemma TrimExact(s: State, epoch: nat, n: nat)
    requires n > 0 && Indexed(s, n)
    ensures Trim(s, epoch).duties == map duty | duty in s.duties && EpochOf(duty, n) != epoch :: s.duties[duty]
  {
    forall duty | duty in s.duties ensures duty in IndexList(s, epoch) <==> EpochOf(duty, n) == epoch {
      assert DutyIndexed(s, duty, n) && ListIndexed(s, epoch, n);
    }
  }

  lemma TrimKeepsIndexed(s: State, epoch: nat, n: nat)
    requires n > 0 && Indexed(s, n)
    ensures Indexed(Trim(s, epoch), n)
  {
    var s' := Trim(s, epoch);
    TrimExact(s, epoch, n);
    forall duty ensures DutyIndexed(s', duty, n) {
      assert DutyIndexed(s, duty, n);
    }
    forall e ensures ListIndexed(s', e, n) {
      assert ListIndexed(s, e, n);
    }
  }

  lemma ResolvedEpochKeepsIndexed(s: State, epoch: nat, n: nat)
    requires n > 0 && Indexed(s, n)
    ensures Indexed(s.(resolvedEpoch := epoch), n)
  {
    var s' := s.(resolvedEpoch := epoch);
    forall duty ensures DutyIndexed(s', duty, n) { assert DutyIndexed(s, duty, n); }
    forall e ensures ListIndexed(s', e, n) { assert ListIndexed(s, e, n); }
  }
}
