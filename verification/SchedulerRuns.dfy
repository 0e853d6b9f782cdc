/** Properties of whole scheduler runs, over any order of ticks, failures, reorgs and lookups. */
module SchedulerRuns {
  import opened Common
  import opened Slots
  import opened SchedulerModel
  import opened SchedulerInvariants

  // ---------------------------------------------------------------------------------------------
  // What one resolve stores
  // ---------------------------------------------------------------------------------------------

  /** The entries a resolve offers to the store before it finishes or fails, and whether it
      finishes. */
  function Offered(slot: Slot, vals: seq<Validator>, a: Answer): (seq<Entry>, bool)
    requires slot.Valid() && a.Typed()
  {
    FetchTyped(slot.number, vals, a);
    var att := Fetch(slot.number, vals, a.attesters);
    if att.Err? then ([], false) else
    var pro := Fetch(slot.number, vals, a.proposers);
    if pro.Err? then (AttesterEntries(att.value), false) else
    var sync := Fetch(slot.number, vals, a.syncCommittee);
    if sync.Err? then (AttesterEntries(att.value) + ProposerEntries(pro.value), false) else
    (AttesterEntries(att.value) + ProposerEntries(pro.value) + SyncEntries(slot, sync.value), true)
  }

  /** On paired states a resolve with active validators is one fold, finished or not. */
  lemma ResolveShape(s: State, slot: Slot, a: Answer)
    requires slot.Valid() && a.Typed() && Paired(s) && a.validators.Ok? && a.validators.value != []
    ensures var o, (xs, complete), e := Resolve(s, slot, a), Offered(slot, a.validators.value, a), slot.Epoch();
            && (o.failure.None? <==> complete)
            && o.state == (if complete then Finish(StoreAll(s, e, xs), e) else StoreAll(s, e, xs))
  {
    var vals, e := a.validators.value, slot.Epoch();
    FetchTyped(slot.number, vals, a);
    var att := Fetch(slot.number, vals, a.attesters);
    if att.Ok? {
      StoreAttestersPairs(s, e, att.value);
      var pro := Fetch(slot.number, vals, a.proposers);
      if pro.Ok? {
        StoreAllAppend(s, e, AttesterEntries(att.value), ProposerEntries(pro.value));
        var sync := Fetch(slot.number, vals, a.syncCommittee);
        if sync.Ok? {
          StoreAllAppend(s, e, AttesterEntries(att.value) + ProposerEntries(pro.value), SyncEntries(slot, sync.value));
        }
      }
    }
  }

  lemma {:induction false} AttesterEntriesHold(ds: seq<Definition>, x: Entry)
    requires AllAttester(ds)
    ensures x in AttesterEntries(ds) <==>
              x.definition in ds && x in {AttesterEntry(x.definition), AggregatorEntry(x.definition)}
  {
    if ds != [] {
      AttesterEntriesHold(ds[..|ds| - 1], x);
      assert ds == ds[..|ds| - 1] + [ds[|ds| - 1]];
    }
  }

  lemma ProposerEntriesHold(ds: seq<Definition>, x: Entry)
    requires AllProposer(ds)
    ensures x in ProposerEntries(ds) <==> x.definition in ds && x == ProposerEntry(x.definition)
  {
    if x.definition in ds && x == ProposerEntry(x.definition) {
      var i :| 0 <= i < |ds| && ds[i] == x.definition;
      assert ProposerEntries(ds)[i] == x;
    }
  }

  ghost predicate IsSyncEntry(slot: Slot, x: Entry)
    requires slot.Valid()
  {
    && x.duty.dutyType == SyncContribution && x.pubkey == x.definition.pubkey
    && slot.number <= x.duty.slot < slot.EpochEnd()
  }

  lemma {:induction false} SyncEntriesHold(slot: Slot, ds: seq<Definition>, x: Entry)
    requires slot.Valid()
    ensures x in SyncEntries(slot, ds) <==> x.definition in ds && IsSyncEntry(slot, x)
  {
    if ds != [] {
      var d := ds[|ds| - 1];
      SyncEntriesHold(slot, ds[..|ds| - 1], x);
      assert ds == ds[..|ds| - 1] + [d];
      if x.definition == d && IsSyncEntry(slot, x) {
        assert SyncRow(slot, d)[x.duty.slot - slot.number] == x;
      }
    }
  }

  /** What a finished resolve offers, said of the raw answers: for each kept attester duty an
      attester and an aggregator entry, for each kept proposer duty one entry, and for each kept
      sync-committee duty one entry per slot left in the epoch. Nothing else. */
  ghost predicate Expected(slot: Slot, vals: seq<Validator>, a: Answer, x: Entry)
    requires slot.Valid() && a.attesters.Ok? && a.proposers.Ok? && a.syncCommittee.Ok? && a.Typed()
  {
    var d := x.definition;
    Kept(d, slot.number, vals) &&
    (|| (d in a.attesters.value && d.AttesterDef? && x in {AttesterEntry(d), AggregatorEntry(d)})
     || (d in a.proposers.value && d.ProposerDef? && x == ProposerEntry(d))
     || (d in a.syncCommittee.value && IsSyncEntry(slot, x)))
  }

  lemma OfferedExactly(slot: Slot, vals: seq<Validator>, a: Answer, x: Entry)
    requires slot.Valid() && a.Typed() && Offered(slot, vals, a).1
    ensures a.attesters.Ok? && a.proposers.Ok? && a.syncCommittee.Ok?
    ensures x in Offered(slot, vals, a).0 <==> Expected(slot, vals, a, x)
  {
    FetchTyped(slot.number, vals, a);
    FilterExact(slot.number, vals, a.attesters.value);
    FilterExact(slot.number, vals, a.proposers.value);
    FilterExact(slot.number, vals, a.syncCommittee.value);
    AttesterEntriesHold(Fetch(slot.number, vals, a.attesters).value, x);
    ProposerEntriesHold(Fetch(slot.number, vals, a.proposers).value, x);
    SyncEntriesHold(slot, Fetch(slot.number, vals, a.syncCommittee).value, x);
  }

  lemma OfferedIn(slot: Slot, vals: seq<Validator>, a: Answer, n: nat)
    requires n > 0 && slot.Valid() && slot.slotsPerEpoch == n && a.Typed() && a.InEpoch(slot.Epoch(), n)
    ensures EntriesIn(Offered(slot, vals, a).0, slot.Epoch(), n)
  {
    hide Filter, AttesterEntries, ProposerEntries, SyncEntries;
    FetchTyped(slot.number, vals, a);
    var xs := Offered(slot, vals, a).0;
    forall i | 0 <= i < |xs| ensures EpochOf(xs[i].duty, n) == slot.Epoch() {
      if a.attesters.Ok? && Fetch(slot.number, vals, a.attesters).Ok? {
        FilterExact(slot.number, vals, a.attesters.value);
        AttesterEntriesHold(Fetch(slot.number, vals, a.attesters).value, xs[i]);
      }
      if a.proposers.Ok? && Fetch(slot.number, vals, a.proposers).Ok? {
        FilterExact(slot.number, vals, a.proposers.value);
        ProposerEntriesHold(Fetch(slot.number, vals, a.proposers).value, xs[i]);
      }
      if Fetch(slot.number, vals, a.syncCommittee).Ok? {
        SyncEntriesHold(slot, Fetch(slot.number, vals, a.syncCommittee).value, xs[i]);
      }
      EpochBounds(slot.number, n, slot.Epoch());
      EpochBounds(xs[i].duty.slot, n, slot.Epoch());
    }
  }

  // ---------------------------------------------------------------------------------------------
  // Pairing and index agreement in every reachable state
  // ---------------------------------------------------------------------------------------------

  lemma ResolveKeepsPaired(s: State, slot: Slot, a: Answer)
    requires slot.Valid() && a.Typed() && Paired(s)
    ensures Paired(Resolve(s, slot, a).state)
  {
    if a.validators.Ok? {
      var vals, e := a.validators.value, slot.Epoch();
      ResolvedEpochKeepsPaired(s, e);
      FetchTyped(slot.number, vals, a);
      var att := Fetch(slot.number, vals, a.attesters);
      if vals != [] && att.Ok? {
        StoreAttestersPairs(s, e, att.value);
        var s1 := StoreAttesters(s, e, att.value);
        var pro := Fetch(slot.number, vals, a.proposers);
        if pro.Ok? {
          StoreOthersKeepsPaired(s1, e, ProposerEntries(pro.value));
          var s2 := StoreAll(s1, e, ProposerEntries(pro.value));
          var sync := Fetch(slot.number, vals, a.syncCommittee);
          if sync.Ok? {
            var xs := SyncEntries(slot, sync.value);
            forall i | 0 <= i < |xs| ensures xs[i].duty.dutyType !in {Attester, Aggregator} {
              SyncEntriesHold(slot, sync.value, xs[i]);
            }
            StoreOthersKeepsPaired(s2, e, xs);
            FinishKeepsPaired(StoreAll(s2, e, xs), e);
          }
        }
      }
    }
  }

  lemma FinishKeepsPaired(s: State, e: nat)
    requires Paired(s)
    ensures Paired(Finish(s, e))
  {
    ResolvedEpochKeepsPaired(s, e);
    if e >= TRIM_EPOCH_OFFSET { TrimKeepsPaired(s.(resolvedEpoch := e), e - TRIM_EPOCH_OFFSET); }
  }

  lemma StepKeepsPaired(s: State, ev: Event, n: nat)
    requires ValidEvent(ev, n) && Paired(s)
    ensures Paired(Step(s, ev, n))
  {
    match ev
    case Tick(slot, current, next) =>
      ResolveKeepsPaired(s, slot, current);
      ResolveKeepsPaired(BeforeBroadcast(s, slot, current), slot.Next(), next);
    case Reorg(epoch) =>
      TrimKeepsPaired(s, s.resolvedEpoch);
      ResolvedEpochKeepsPaired(Trim(s, s.resolvedEpoch), UNRESOLVED);
    case Lookup(_) =>
  }

  lemma {:induction false} RunKeepsPaired(s: State, events: seq<Event>, n: nat)
    requires ValidRun(events, n) && Paired(s)
    ensures Paired(Run(s, events, n))
  {
    if events != [] {
      RunKeepsPaired(s, events[..|events| - 1], n);
      StepKeepsPaired(Run(s, events[..|events| - 1], n), events[|events| - 1], n);
    }
  }

  /** Whatever the beacon node answers, in every reachable state a validator has an attester
      definition for a slot exactly when it has an equal aggregator definition. */
  lemma AttesterAggregatorPairing(events: seq<Event>, n: nat)
    requires ValidRun(events, n)
    ensures Paired(Run(INITIAL, events, n))
  {
    RunKeepsPaired(INITIAL, events, n);
  }

  /** What a resolve must be answered for the index to stay in agreement: each entry it offers lies
      in the requested epoch or is stored already. */
  ghost predicate ResolveFits(s: State, slot: Slot, a: Answer, n: nat)
    requires n > 0 && slot.Valid() && a.Typed()
  {
    a.validators.Ok? && a.validators.value != [] ==>
      Settled(s, Offered(slot, a.validators.value, a).0, slot.Epoch(), n)
  }

  lemma InEpochFits(s: State, slot: Slot, a: Answer, n: nat)
    requires n > 0 && slot.Valid() && slot.slotsPerEpoch == n && a.Typed() && a.InEpoch(slot.Epoch(), n)
    ensures ResolveFits(s, slot, a, n)
  {
    if a.validators.Ok? { OfferedIn(slot, a.validators.value, a, n); }
  }

  lemma ResolveKeepsIndexed(s: State, slot: Slot, a: Answer, n: nat)
    requires n > 0 && slot.Valid() && a.Typed() && Paired(s) && Indexed(s, n) && ResolveFits(s, slot, a, n)
    ensures Indexed(Resolve(s, slot, a).state, n)
  {
    var e := slot.Epoch();
    ResolvedEpochKeepsIndexed(s, e, n);
    if a.validators.Ok? && a.validators.value != [] {
      var xs := Offered(slot, a.validators.value, a).0;
      ResolveShape(s, slot, a);
      StoreAllKeepsIndexed(s, e, xs, n);
      FinishKeepsIndexed(StoreAll(s, e, xs), e, n);
    }
  }

  /** Some list holds a duty of another epoch. */
  ghost predicate Misfiled(s: State, epoch: nat, n: nat)
    requires n > 0
  {
    exists duty :: duty in IndexList(s, epoch) && EpochOf(duty, n) != epoch
  }

  lemma MisfiledBreaksIndex(s: State, epoch: nat, n: nat)
    requires n > 0 && Misfiled(s, epoch, n)
    ensures !Indexed(s, n)
  {
    assert Indexed(s, n) ==> ListIndexed(s, epoch, n);
  }

  /** A resolve that is answered otherwise files a duty under the wrong epoch. */
  lemma UnfitMisfiles(s: State, slot: Slot, a: Answer, n: nat)
    requires n > 0 && slot.Valid() && a.Typed() && Paired(s) && !ResolveFits(s, slot, a, n)
    ensures Misfiled(Resolve(s, slot, a).state, slot.Epoch(), n)
  {
    var e, xs := slot.Epoch(), Offered(slot, a.validators.value, a).0;
    var i :| 0 <= i < |xs| && EpochOf(xs[i].duty, n) != e && !Has(s, xs[i].duty, xs[i].pubkey);
    var stored := StoreAll(s, e, xs);
    ResolveShape(s, slot, a);
    StoreAllGet(s, e, xs, xs[i].duty, xs[i].pubkey);
    StoreAllLists(s, e, xs);
    assert Has(stored, xs[i].duty, xs[i].pubkey);
    assert xs[i].duty in IndexList(Resolve(s, slot, a).state, e);
  }

  /** A resolve leaves the index in agreement exactly when it is answered so. */
  lemma ResolveIndexedIff(s: State, slot: Slot, a: Answer, n: nat)
    requires n > 0 && slot.Valid() && a.Typed() && Paired(s) && Indexed(s, n)
    ensures Indexed(Resolve(s, slot, a).state, n) <==> ResolveFits(s, slot, a, n)
  {
    if ResolveFits(s, slot, a, n) {
      ResolveKeepsIndexed(s, slot, a, n);
    } else {
      UnfitMisfiles(s, slot, a, n);
      MisfiledBreaksIndex(Resolve(s, slot, a).state, slot.Epoch(), n);
    }
  }

  lemma FinishKeepsIndexed(s: State, e: nat, n: nat)
    requires n > 0 && Indexed(s, n)
    ensures Indexed(Finish(s, e), n)
  {
    hide Indexed, Trim;
    ResolvedEpochKeepsIndexed(s, e, n);
    if e >= TRIM_EPOCH_OFFSET { TrimKeepsIndexed(s.(resolvedEpoch := e), e - TRIM_EPOCH_OFFSET, n); }
  }

  /** The resolve of the next epoch leaves the lists of this one alone. */
  lemma ResolveKeepsList(s: State, slot: Slot, a: Answer, epoch: nat)
    requires slot.Valid() && a.Typed() && Paired(s) && slot.Epoch() == epoch + 1
    ensures IndexList(Resolve(s, slot, a).state, epoch) == IndexList(s, epoch)
  {
    if a.validators.Ok? && a.validators.value != [] {
      ResolveShape(s, slot, a);
      StoreAllLists(s, slot.Epoch(), Offered(slot, a.validators.value, a).0);
    }
  }

  /** Both resolves a tick makes are answered so that the index stays in agreement. */
  ghost predicate EventFits(s: State, ev: Event, n: nat)
    requires n > 0 && ValidEvent(ev, n)
  {
    ev.Tick? ==>
      && (s.resolvedEpoch != ev.slot.Epoch() ==> ResolveFits(s, ev.slot, ev.current, n))
      && (ev.slot.LastInEpoch() ==> ResolveFits(BeforeBroadcast(s, ev.slot, ev.current), ev.slot.Next(), ev.next, n))
  }

  lemma TickIndexedIff(s: State, ev: Event, n: nat)
    requires n > 0 && ValidEvent(ev, n) && ev.Tick? && Paired(s) && Indexed(s, n)
    ensures Indexed(Step(s, ev, n), n) <==> EventFits(s, ev, n)
  {
    hide Resolve, ResolveFits, Indexed, Paired, Misfiled;
    var slot, s1 := ev.slot, BeforeBroadcast(s, ev.slot, ev.current);
    ResolveKeepsPaired(s, slot, ev.current);
    ResolveIndexedIff(s, slot, ev.current, n);
    if slot.LastInEpoch() {
      if Indexed(s1, n) {
        ResolveIndexedIff(s1, slot.Next(), ev.next, n);
      } else {
        UnfitMisfiles(s, slot, ev.current, n);
        MisfiledStays(s1, slot, ev.next, n);
      }
    }
  }

  lemma MisfiledStays(s: State, slot: Slot, a: Answer, n: nat)
    requires n > 0 && SlotInRange(slot, n) && SlotInRange(slot.Next(), n) && slot.LastInEpoch() && a.Typed()
    requires Paired(s) && Misfiled(s, slot.Epoch(), n)
    ensures !Indexed(Resolve(s, slot.Next(), a).state, n)
  {
    EpochBounds(slot.number, n, slot.Epoch());
    NextEpoch(slot);
    ResolveKeepsList(s, slot.Next(), a, slot.Epoch());
    MisfiledBreaksIndex(Resolve(s, slot.Next(), a).state, slot.Epoch(), n);
  }

  /** A step keeps the index in agreement exactly when the resolves it makes fit. */
  lemma StepIndexedIff(s: State, ev: Event, n: nat)
    requires n > 0 && ValidEvent(ev, n) && Paired(s) && Indexed(s, n)
    ensures Indexed(Step(s, ev, n), n) <==> EventFits(s, ev, n)
  {
    match ev
    case Tick(slot, current, next) =>
      TickIndexedIff(s, ev, n);
    case Reorg(epoch) =>
      TrimKeepsIndexed(s, s.resolvedEpoch, n);
      ResolvedEpochKeepsIndexed(Trim(s, s.resolvedEpoch), UNRESOLVED, n);
    case Lookup(_) =>
  }

  ghost predicate RunFits(s: State, events: seq<Event>, n: nat)
    requires n > 0 && ValidRun(events, n)
  {
    forall k | 0 <= k < |events| :: EventFits(Run(s, events[..k], n), events[k], n)
  }

  lemma RunFitsInit(s: State, events: seq<Event>, n: nat)
    requires n > 0 && ValidRun(events, n) && events != []
    ensures var init := events[..|events| - 1];
            RunFits(s, events, n) <==> RunFits(s, init, n) && EventFits(Run(s, init, n), events[|events| - 1], n)
  {
    var init := events[..|events| - 1];
    assert forall k | 0 <= k < |init| :: init[..k] == events[..k] && init[k] == events[k];
    if RunFits(s, init, n) && EventFits(Run(s, init, n), events[|events| - 1], n) {
      forall k | 0 <= k < |events| ensures EventFits(Run(s, events[..k], n), events[k], n) {
        if k < |init| { assert EventFits(Run(s, init[..k], n), init[k], n); }
      }
    }
  }

  /** In every state of a fitting run the per-epoch index agrees with the stored duties. */
  lemma {:induction false} IndexAgreement(s: State, events: seq<Event>, n: nat)
    requires n > 0 && ValidRun(events, n) && Paired(s) && Indexed(s, n) && RunFits(s, events, n)
    ensures Indexed(Run(s, events, n), n)
  {
    hide Step, EventFits, ValidEvent, Indexed, Paired;
    if events != [] {
      var init := events[..|events| - 1];
      RunFitsInit(s, events, n);
      IndexAgreement(s, init, n);
      RunKeepsPaired(s, init, n);
      StepIndexedIff(Run(s, init, n), events[|events| - 1], n);
    }
  }

  /** Over whole runs, whatever the beacon node answers: the index agrees at every point exactly
      when every resolve that is made fits. */
  lemma {:induction false} IndexAgreementIff(events: seq<Event>, n: nat)
    requires n > 0 && ValidRun(events, n)
    ensures RunFits(INITIAL, events, n) <==> forall k | 0 <= k <= |events| :: Indexed(Run(INITIAL, events[..k], n), n)
  {
    hide Step, EventFits, ValidEvent, Indexed, Paired;
    if forall k | 0 <= k <= |events| :: Indexed(Run(INITIAL, events[..k], n), n) {
      forall k | 0 <= k < |events| ensures EventFits(Run(INITIAL, events[..k], n), events[k], n) {
        AttesterAggregatorPairing(events[..k], n);
        assert events[..k + 1][..k] == events[..k];
        StepIndexedIff(Run(INITIAL, events[..k], n), events[k], n);
      }
    }
    if RunFits(INITIAL, events, n) {
      InitialIndexed(n);
      forall k | 0 <= k <= |events| ensures Indexed(Run(INITIAL, events[..k], n), n) {
        assert forall j | 0 <= j < k :: events[..k][..j] == events[..j];
        IndexAgreement(INITIAL, events[..k], n);
      }
    }
  }

  lemma InitialIndexed(n: nat)
    requires n > 0
    ensures Paired(INITIAL) && Indexed(INITIAL, n)
  {
  }

  /** Answers that keep the beacon node's promise always fit. */
  lemma HonestRunFits(s: State, events: seq<Event>, n: nat)
    requires n > 0 && ValidRun(events, n) && HonestRun(events, n)
    ensures RunFits(s, events, n)
  {
    forall k | 0 <= k < |events| ensures EventFits(Run(s, events[..k], n), events[k], n) {
      var t, ev := Run(s, events[..k], n), events[k];
      if ev.Tick? {
        InEpochFits(t, ev.slot, ev.current, n);
        InEpochFits(BeforeBroadcast(t, ev.slot, ev.current), ev.slot.Next(), ev.next, n);
      }
    }
  }

  // ---------------------------------------------------------------------------------------------
  // Which definition is stored
  // ---------------------------------------------------------------------------------------------

  function Get(s: State, duty: Duty, pubkey: PubKey): Option<Definition> {
    if Has(s, duty, pubkey) then Some(DefSet(s, duty)[pubkey]) else None
  }

  /** The definition of the first entry for a duty and validator. */
  function First(xs: seq<Entry>, duty: Duty, pubkey: PubKey): (r: Option<Definition>)
    ensures r.None? <==> forall i | 0 <= i < |xs| :: xs[i].duty != duty || xs[i].pubkey != pubkey
    ensures r.Some? ==> Entry(duty, pubkey, r.value) in xs
  {
    if xs == [] then None
    else if xs[0].duty == duty && xs[0].pubkey == pubkey then Some(xs[0].definition)
    else First(xs[1..], duty, pubkey)
  }

  lemma {:induction false} FirstSnoc(xs: seq<Entry>, y: Entry, duty: Duty, pubkey: PubKey)
    ensures First(xs + [y], duty, pubkey) ==
              (if First(xs, duty, pubkey).Some? then First(xs, duty, pubkey)
               else if y.duty == duty && y.pubkey == pubkey then Some(y.definition) else None)
  {
    if xs == [] {
      assert xs + [y] == [y];
    } else {
      assert (xs + [y])[1..] == xs[1..] + [y];
      FirstSnoc(xs[1..], y, duty, pubkey);
    }
  }

  /** Storing keeps what is there and otherwise takes the first entry offered. */
  lemma {:induction false} StoreAllGet(s: State, epoch: nat, xs: seq<Entry>, duty: Duty, pubkey: PubKey)
    ensures Get(StoreAll(s, epoch, xs), duty, pubkey) ==
              (if Has(s, duty, pubkey) then Get(s, duty, pubkey) else First(xs, duty, pubkey))
  {
    if xs != [] {
      var init, y := xs[..|xs| - 1], xs[|xs| - 1];
      assert xs == init + [y];
      StoreAllGet(s, epoch, init, duty, pubkey);
      FirstSnoc(init, y, duty, pubkey);
    }
  }

  /** A finished resolve drops the epoch three back and otherwise adds, for what was missing, the
      first definition offered. */
  lemma ResolveGet(s: State, slot: Slot, a: Answer, n: nat, duty: Duty, pubkey: PubKey)
    requires n > 0 && slot.Valid() && a.Typed() && Paired(s) && Indexed(s, n) && ResolveFits(s, slot, a, n)
    requires a.validators.Ok? && a.validators.value != []
    ensures var o, (xs, complete) := Resolve(s, slot, a), Offered(slot, a.validators.value, a);
            Get(o.state, duty, pubkey) ==
              (if complete && EpochOf(duty, n) + TRIM_EPOCH_OFFSET == slot.Epoch() then None
               else if Has(s, duty, pubkey) then Get(s, duty, pubkey) else First(xs, duty, pubkey))
  {
    var e := slot.Epoch();
    var (xs, complete) := Offered(slot, a.validators.value, a);
    ResolveShape(s, slot, a);
    StoreAllGet(s, e, xs, duty, pubkey);
    if complete {
      StoreAllKeepsIndexed(s, e, xs, n);
      FinishGet(StoreAll(s, e, xs), e, n, duty, pubkey);
    }
  }

  lemma FinishGet(s: State, e: nat, n: nat, duty: Duty, pubkey: PubKey)
    requires n > 0 && Indexed(s, n)
    ensures Get(Finish(s, e), duty, pubkey) ==
              if EpochOf(duty, n) + TRIM_EPOCH_OFFSET == e then None else Get(s, duty, pubkey)
  {
    if e >= TRIM_EPOCH_OFFSET {
      ResolvedEpochKeepsIndexed(s, e, n);
      TrimExact(s.(resolvedEpoch := e), e - TRIM_EPOCH_OFFSET, n);
    }
  }
}
