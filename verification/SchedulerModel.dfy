/**
 * The duty scheduler on values (crates/core/src/scheduler.rs): its two maps, the effect of every
 * actor operation on them, and the steps an environment can make it take. `SchedulerActor` is the
 * stateful form, proved equal to these functions.
 */
module SchedulerModel {
  import opened Common
  import opened Slots

  const TRIM_EPOCH_OFFSET: nat := 3

  /** `resolvedEpoch` value meaning "nothing resolved". */
  const UNRESOLVED: nat := U64_MAX

  datatype Definition =
    | AttesterDef(pubkey: PubKey, validatorIndex: nat, slot: nat,
                  committeeIndex: nat, committeeLength: nat, committeesAtSlot: nat, validatorCommitteeIndex: nat)
    | ProposerDef(pubkey: PubKey, validatorIndex: nat, slot: nat)
    | SyncCommitteeDef(pubkey: PubKey, validatorIndex: nat, committeeIndices: seq<nat>)

  datatype Error =
    | BeaconNode
    | InvalidDutyPubkey(expected: PubKey, actual: PubKey)
    | DeprecatedDutyBuilderProposer
    | EpochNotResolved(epoch: nat, duty: Duty)
    | EpochAlreadyTrimmed(epoch: nat, duty: Duty)
    | DutyNotFound(epoch: nat, duty: Duty)

  datatype State = State(
    resolvedEpoch: nat,
    duties: map<Duty, map<PubKey, Definition>>,
    dutiesByEpoch: map<nat, seq<Duty>>)

  const INITIAL := State(UNRESOLVED, map[], map[])

  function DefSet(s: State, duty: Duty): map<PubKey, Definition> {
    if duty in s.duties then s.duties[duty] else map[]
  }

  function IndexList(s: State, epoch: nat): seq<Duty> {
    if epoch in s.dutiesByEpoch then s.dutiesByEpoch[epoch] else []
  }

  predicate Has(s: State, duty: Duty, pubkey: PubKey) {
    pubkey in DefSet(s, duty)
  }

  // ---------------------------------------------------------------------------------------------
  // Storing and trimming
  // ---------------------------------------------------------------------------------------------

  datatype Entry = Entry(duty: Duty, pubkey: PubKey, definition: Definition)

  function SetDuty(s: State, epoch: nat, x: Entry): State {
    if Has(s, x.duty, x.pubkey) then s
    else s.(duties := s.duties[x.duty := DefSet(s, x.duty)[x.pubkey := x.definition]],
            dutiesByEpoch := s.dutiesByEpoch[epoch := IndexList(s, epoch) + [x.duty]])
  }

  function StoreAll(s: State, epoch: nat, xs: seq<Entry>): State {
    if xs == [] then s else SetDuty(StoreAll(s, epoch, xs[..|xs| - 1]), epoch, xs[|xs| - 1])
  }

  lemma {:induction false} StoreAllAppend(s: State, epoch: nat, xs: seq<Entry>, ys: seq<Entry>)
    ensures StoreAll(s, epoch, xs + ys) == StoreAll(StoreAll(s, epoch, xs), epoch, ys)
  {
    if ys == [] {
      assert xs + ys == xs;
    } else {
      assert (xs + ys)[..|xs + ys| - 1] == xs + ys[..|ys| - 1];
      StoreAllAppend(s, epoch, xs, ys[..|ys| - 1]);
    }
  }

  function AttesterEntry(d: Definition): Entry
    requires d.AttesterDef?
  {
    Entry(Duty(d.slot, Attester), d.pubkey, d)
  }

  function AggregatorEntry(d: Definition): Entry
    requires d.AttesterDef?
  {
    Entry(Duty(d.slot, Aggregator), d.pubkey, d)
  }

  function ProposerEntry(d: Definition): Entry
    requires d.ProposerDef?
  {
    Entry(Duty(d.slot, Proposer), d.pubkey, d)
  }

  predicate AllAttester(ds: seq<Definition>) {
    forall i | 0 <= i < |ds| :: ds[i].AttesterDef?
  }

  predicate AllProposer(ds: seq<Definition>) {
    forall i | 0 <= i < |ds| :: ds[i].ProposerDef?
  }

  predicate AllSyncCommittee(ds: seq<Definition>) {
    forall i | 0 <= i < |ds| :: ds[i].SyncCommitteeDef?
  }

  /** The attester loop: an aggregator duty is set only when the attester duty was new. */
  function StoreAttesters(s: State, epoch: nat, ds: seq<Definition>): State
    requires AllAttester(ds)
  {
    if ds == [] then s else
    var before := StoreAttesters(s, epoch, ds[..|ds| - 1]);
    var d := ds[|ds| - 1];
    if Has(before, Duty(d.slot, Attester), d.pubkey) then before
    else SetDuty(SetDuty(before, epoch, AttesterEntry(d)), epoch, AggregatorEntry(d))
  }

  function ProposerEntries(ds: seq<Definition>): seq<Entry>
    requires AllProposer(ds)
  {
    seq(|ds|, i requires 0 <= i < |ds| => ProposerEntry(ds[i]))
  }

  /** One sync-committee validator's duties, from `slot` to the end of its epoch. */
  function SyncRow(slot: Slot, d: Definition): (xs: seq<Entry>)
    requires slot.Valid()
  {
    EpochBounds(slot.number, slot.slotsPerEpoch, slot.Epoch());
    seq(slot.EpochEnd() - slot.number, (i: nat) => Entry(Duty(slot.number + i, SyncContribution), d.pubkey, d))
  }

  function SyncEntries(slot: Slot, ds: seq<Definition>): seq<Entry>
    requires slot.Valid()
  {
    if ds == [] then [] else SyncEntries(slot, ds[..|ds| - 1]) + SyncRow(slot, ds[|ds| - 1])
  }

  function Trim(s: State, epoch: nat): State {
    s.(duties := s.duties - (set d | d in IndexList(s, epoch)), dutiesByEpoch := s.dutiesByEpoch - {epoch})
  }

  // ---------------------------------------------------------------------------------------------
  // Beacon-node answers and the filters on them
  // ---------------------------------------------------------------------------------------------

  datatype Validator = Validator(pubkey: PubKey, index: nat)

  /** What the beacon node returns to one `resolve_duties`, each request failing independently. */
  datatype Answer = Answer(
    validators: Result<seq<Validator>, Error>,
    attesters: Result<seq<Definition>, Error>,
    proposers: Result<seq<Definition>, Error>,
    syncCommittee: Result<seq<Definition>, Error>)
  {
    /** Each endpoint returns its own kind of definition. */
    predicate Typed() {
      && (attesters.Ok? ==> AllAttester(attesters.value))
      && (proposers.Ok? ==> AllProposer(proposers.value))
      && (syncCommittee.Ok? ==> AllSyncCommittee(syncCommittee.value))
    }

    /** The beacon node's promise: attester and proposer duties lie in the requested epoch. */
    predicate InEpoch(epoch: nat, slotsPerEpoch: nat)
      requires slotsPerEpoch > 0
    {
      && (attesters.Ok? ==> SlotsInEpoch(attesters.value, epoch, slotsPerEpoch))
      && (proposers.Ok? ==> SlotsInEpoch(proposers.value, epoch, slotsPerEpoch))
    }
  }

  predicate SlotsInEpoch(ds: seq<Definition>, epoch: nat, slotsPerEpoch: nat)
    requires slotsPerEpoch > 0
  {
    forall i | 0 <= i < |ds| && !ds[i].SyncCommitteeDef? :: ds[i].slot / slotsPerEpoch == epoch
  }

  /** The key of the first validator with the given index. */
  function FindPubkey(vals: seq<Validator>, index: nat): Option<PubKey> {
    if vals == [] then None
    else if vals[0].index == index then Some(vals[0].pubkey)
    else FindPubkey(vals[1..], index)
  }

  /** The first validator with the index stands at `j`. */
  ghost predicate FirstAt(vals: seq<Validator>, index: nat, j: nat) {
    j < |vals| && vals[j].index == index && forall i | 0 <= i < j :: vals[i].index != index
  }

  /** The first validator with the index has the key. */
  ghost predicate Known(vals: seq<Validator>, index: nat, pubkey: PubKey) {
    exists j: nat :: FirstAt(vals, index, j) && vals[j].pubkey == pubkey
  }

  /** A key is found exactly when the first validator with the index has it, and none is exactly when
      no validator has the index. */
  lemma {:induction false} FindPubkeyIff(vals: seq<Validator>, index: nat)
    ensures forall p :: FindPubkey(vals, index) == Some(p) <==> Known(vals, index, p)
    ensures FindPubkey(vals, index) == None <==> forall j | 0 <= j < |vals| :: vals[j].index != index
  {
    if vals != [] {
      if vals[0].index == index {
        assert FirstAt(vals, index, 0);
      } else {
        FindPubkeyIff(vals[1..], index);
        forall p ensures FindPubkey(vals, index) == Some(p) <==> Known(vals, index, p) {
          if Known(vals[1..], index, p) {
            var j: nat :| FirstAt(vals[1..], index, j) && vals[1..][j].pubkey == p;
            assert FirstAt(vals, index, j + 1);
          }
          if Known(vals, index, p) {
            var j: nat :| FirstAt(vals, index, j) && vals[j].pubkey == p;
            assert FirstAt(vals[1..], index, j - 1) by {
              assert forall i | 0 <= i < j - 1 :: vals[1..][i] == vals[i + 1];
            }
          }
        }
        assert forall j | 0 < j < |vals| :: vals[j] == vals[1..][j - 1];
      }
    }
  }

  /** Definitions for slots before `from` are skipped; sync-committee ones carry no slot. */
  predicate Earlier(d: Definition, from: nat) {
    !d.SyncCommitteeDef? && d.slot < from
  }

  predicate Mismatched(d: Definition, from: nat, vals: seq<Validator>) {
    !Earlier(d, from) && FindPubkey(vals, d.validatorIndex) !in {None, Some(d.pubkey)}
  }

  predicate Kept(d: Definition, from: nat, vals: seq<Validator>) {
    !Earlier(d, from) && FindPubkey(vals, d.validatorIndex) == Some(d.pubkey)
  }

  /** The three fetch filters: the first mismatched key aborts, the rest is kept in order. */
  function Filter(from: nat, vals: seq<Validator>, ds: seq<Definition>): Result<seq<Definition>, Error> {
    if ds == [] then Ok([]) else
    var before := Filter(from, vals, ds[..|ds| - 1]);
    var d := ds[|ds| - 1];
    if before.Err? then before
    else if Mismatched(d, from, vals) then
      Err(InvalidDutyPubkey(FindPubkey(vals, d.validatorIndex).value, d.pubkey))
    else if Kept(d, from, vals) then Ok(before.value + [d])
    else before
  }

  function Fetch(from: nat, vals: seq<Validator>, reply: Result<seq<Definition>, Error>)
    : Result<seq<Definition>, Error>
  {
    if reply.Err? then reply else Filter(from, vals, reply.value)
  }

  /** A filtered answer holds exactly the kept definitions, and fails exactly on a mismatch. */
  lemma {:induction false} FilterExact(from: nat, vals: seq<Validator>, ds: seq<Definition>)
    ensures var r := Filter(from, vals, ds);
            && (r.Err? <==> exists i :: 0 <= i < |ds| && Mismatched(ds[i], from, vals))
            && (r.Ok? ==> forall d :: d in r.value <==> d in ds && Kept(d, from, vals))
            && (r.Ok? && AllAttester(ds) ==> AllAttester(r.value))
            && (r.Ok? && AllProposer(ds) ==> AllProposer(r.value))
  {
    if ds != [] {
      var n := |ds| - 1;
      FilterExact(from, vals, ds[..n]);
      assert ds == ds[..n] + [ds[n]];
      assert forall i :: 0 <= i < n ==> ds[..n][i] == ds[i];
    }
  }

  /** A definition the filters let through: not for an earlier slot, and of the validator whose key
      it names. */
  ghost predicate Passes(d: Definition, from: nat, vals: seq<Validator>) {
    (d.SyncCommitteeDef? || d.slot >= from) && Known(vals, d.validatorIndex, d.pubkey)
  }

  /** One they refuse: not for an earlier slot, and of a validator with another key. */
  ghost predicate Refused(d: Definition, from: nat, vals: seq<Validator>, expected: PubKey) {
    (d.SyncCommitteeDef? || d.slot >= from) && Known(vals, d.validatorIndex, expected) && expected != d.pubkey
  }

  lemma PassesIff(d: Definition, from: nat, vals: seq<Validator>)
    ensures Kept(d, from, vals) <==> Passes(d, from, vals)
    ensures Mismatched(d, from, vals) <==> exists p :: Refused(d, from, vals, p)
    ensures forall p | Refused(d, from, vals, p) :: FindPubkey(vals, d.validatorIndex) == Some(p)
  {
    FindPubkeyIff(vals, d.validatorIndex);
    if Mismatched(d, from, vals) {
      assert Refused(d, from, vals, FindPubkey(vals, d.validatorIndex).value);
    }
  }

  ghost predicate Increasing(at: seq<nat>) {
    forall k, l | 0 <= k < l < |at| :: at[k] < at[l]
  }

  /** The filters keep what passes, in the order of the answer, each occurrence once. */
  lemma {:induction false} FilterPositions(from: nat, vals: seq<Validator>, ds: seq<Definition>) returns (at: seq<nat>)
    requires Filter(from, vals, ds).Ok?
    ensures var kept := Filter(from, vals, ds).value;
            && |at| == |kept| && Increasing(at)
            && (forall k | 0 <= k < |at| :: at[k] < |ds| && ds[at[k]] == kept[k])
            && (forall i: nat :: i in at <==> i < |ds| && Passes(ds[i], from, vals))
  {
    if ds == [] {
      at := [];
    } else {
      var n := |ds| - 1;
      at := FilterPositions(from, vals, ds[..n]);
      PassesIff(ds[n], from, vals);
      if Kept(ds[n], from, vals) { at := at + [n]; }
    }
  }

  /** They fail exactly when something is refused, with the error of the first that is. */
  lemma {:induction false} FilterFails(from: nat, vals: seq<Validator>, ds: seq<Definition>)
    ensures var r := Filter(from, vals, ds);
            && (r.Err? <==> exists i, p :: 0 <= i < |ds| && Refused(ds[i], from, vals, p))
            && (r.Err? ==> exists i, p ::
                  && 0 <= i < |ds| && Refused(ds[i], from, vals, p) && r.error == InvalidDutyPubkey(p, ds[i].pubkey)
                  && forall j, q | 0 <= j < i :: !Refused(ds[j], from, vals, q))
  {
    hide Passes, Kept, Mismatched, Refused;
    if ds != [] {
      var n := |ds| - 1;
      var init := ds[..n];
      FilterFails(from, vals, init);
      PassesIff(ds[n], from, vals);
      assert forall i | 0 <= i < n :: init[i] == ds[i];
      if Filter(from, vals, init).Err? {
        var i, p :| 0 <= i < |init| && Refused(init[i], from, vals, p)
                    && Filter(from, vals, init).error == InvalidDutyPubkey(p, init[i].pubkey)
                    && forall j, q | 0 <= j < i :: !Refused(init[j], from, vals, q);
        assert Refused(ds[i], from, vals, p);
      } else if Mismatched(ds[n], from, vals) {
        var p :| Refused(ds[n], from, vals, p);
        assert forall j, q | 0 <= j < n :: !Refused(ds[j], from, vals, q);
      }
    }
  }

  // ---------------------------------------------------------------------------------------------
  // Actor operations
  // ---------------------------------------------------------------------------------------------

  datatype Outcome = Outcome(state: State, failure: Option<Error>)

  function Finish(s: State, epoch: nat): State {
    var done := s.(resolvedEpoch := epoch);
    if epoch >= TRIM_EPOCH_OFFSET then Trim(done, epoch - TRIM_EPOCH_OFFSET) else done
  }

  function Resolve(s: State, slot: Slot, a: Answer): Outcome
    requires slot.Valid() && a.Typed()
  {
    if a.validators.Err? then Outcome(s, Some(a.validators.error))
    else var vals := a.validators.value;
         if vals == [] then Outcome(s.(resolvedEpoch := slot.Epoch()), None)
         else ResolveActive(s, slot, vals, a)
  }

  function ResolveActive(s: State, slot: Slot, vals: seq<Validator>, a: Answer): Outcome
    requires slot.Valid() && a.Typed()
  {
    var e := slot.Epoch();
    var att := Fetch(slot.number, vals, a.attesters);
    if att.Err? then Outcome(s, Some(att.error)) else
    FetchTyped(slot.number, vals, a);
    var s1 := StoreAttesters(s, e, att.value);
    var pro := Fetch(slot.number, vals, a.proposers);
    if pro.Err? then Outcome(s1, Some(pro.error)) else
    var s2 := StoreAll(s1, e, ProposerEntries(pro.value));
    var sync := Fetch(slot.number, vals, a.syncCommittee);
    if sync.Err? then Outcome(s2, Some(sync.error)) else
    Outcome(Finish(StoreAll(s2, e, SyncEntries(slot, sync.value)), e), None)
  }

  lemma FetchTyped(from: nat, vals: seq<Validator>, a: Answer)
    requires a.Typed()
    ensures var att := Fetch(from, vals, a.attesters); att.Ok? ==> AllAttester(att.value)
    ensures var pro := Fetch(from, vals, a.proposers); pro.Ok? ==> AllProposer(pro.value)
  {
    if a.attesters.Ok? { FilterExact(from, vals, a.attesters.value); }
    if a.proposers.Ok? { FilterExact(from, vals, a.proposers.value); }
  }

  function HandleChainReorg(s: State, epoch: nat): State {
    if epoch < s.resolvedEpoch then Trim(s, s.resolvedEpoch).(resolvedEpoch := UNRESOLVED) else s
  }

  predicate IsEpochResolved(s: State, epoch: nat) {
    s.resolvedEpoch != UNRESOLVED && s.resolvedEpoch >= epoch
  }

  predicate IsEpochTrimmed(s: State, epoch: nat) {
    && s.resolvedEpoch != UNRESOLVED
    && s.resolvedEpoch >= (if epoch + TRIM_EPOCH_OFFSET <= U64_MAX then epoch + TRIM_EPOCH_OFFSET else U64_MAX)
  }

  function GetDutyDefinition(s: State, slotsPerEpoch: nat, duty: Duty): Result<map<PubKey, Definition>, Error>
    requires slotsPerEpoch > 0
  {
    var epoch := duty.slot / slotsPerEpoch;
    if duty.dutyType == BuilderProposer then Err(DeprecatedDutyBuilderProposer)
    else if !IsEpochResolved(s, epoch) then Err(EpochNotResolved(epoch, duty))
    else if IsEpochTrimmed(s, epoch) then Err(EpochAlreadyTrimmed(epoch, duty))
    else if duty !in s.duties then Err(DutyNotFound(epoch, duty))
    else Ok(s.duties[duty])
  }

  /** The state in which a slot's duties are broadcast. */
  function BeforeBroadcast(s: State, slot: Slot, a: Answer): State
    requires slot.Valid() && a.Typed()
  {
    if s.resolvedEpoch != slot.Epoch() then Resolve(s, slot, a).state else s
  }

  /** What is broadcast for a slot: its stored duties, type by type. */
  function Broadcasts(s: State, number: nat, types: seq<DutyType>): seq<(Duty, map<PubKey, Definition>)> {
    if types == [] then [] else
    var before, duty := Broadcasts(s, number, types[..|types| - 1]), Duty(number, types[|types| - 1]);
    if duty in s.duties then before + [(duty, s.duties[duty])] else before
  }

  /** Exactly the stored duties of the slot and types are broadcast, each once and in the order of
      the types. */
  lemma {:induction false} BroadcastsExact(s: State, number: nat, types: seq<DutyType>)
    requires forall i, j | 0 <= i < j < |types| :: types[i] != types[j]
    ensures var bs := Broadcasts(s, number, types);
            && (forall duty, defs :: (duty, defs) in bs <==>
                  duty.slot == number && duty.dutyType in types && duty in s.duties && s.duties[duty] == defs)
            && (forall k | 0 <= k < |bs| :: bs[k].0.dutyType in types)
            && (forall k, l | 0 <= k < l < |bs| :: Precedes(types, bs[k].0.dutyType, bs[l].0.dutyType))
  {
    if types != [] {
      var init, last := types[..|types| - 1], types[|types| - 1];
      BroadcastsExact(s, number, init);
      assert types == init + [last];
      var before, bs := Broadcasts(s, number, init), Broadcasts(s, number, types);
      forall k, l | 0 <= k < l < |bs| ensures Precedes(types, bs[k].0.dutyType, bs[l].0.dutyType) {
        if l < |before| {
          assert Precedes(init, before[k].0.dutyType, before[l].0.dutyType);
        } else {
          assert before[k].0.dutyType in init && types[|init|] == last;
        }
      }
    }
  }

  ghost predicate Precedes(types: seq<DutyType>, t: DutyType, u: DutyType) {
    exists i, j :: 0 <= i < j < |types| && types[i] == t && types[j] == u
  }

  function ScheduleSlot(s: State, slot: Slot, current: Answer, next: Answer): State
    requires slot.Valid() && current.Typed() && next.Typed()
  {
    var s1 := BeforeBroadcast(s, slot, current);
    if slot.LastInEpoch() then Resolve(s1, slot.Next(), next).state else s1
  }

  // ---------------------------------------------------------------------------------------------
  // Steps and runs
  // ---------------------------------------------------------------------------------------------

  /** What reaches the actor: a ticked slot with the answers to its two possible resolves, a reorg
      notice, or a lookup. Their order and contents are the environment's. */
  datatype Event =
    | Tick(slot: Slot, current: Answer, next: Answer)
    | Reorg(epoch: nat)
    | Lookup(duty: Duty)

  /** The u64 range in which slot arithmetic neither saturates nor reaches the sentinel epoch. */
  predicate SlotInRange(slot: Slot, slotsPerEpoch: nat) {
    slot.slotsPerEpoch == slotsPerEpoch && slot.Valid() && slot.EpochEnd() <= U64_MAX
  }

  predicate ValidEvent(ev: Event, slotsPerEpoch: nat) {
    ev.Tick? ==>
      && SlotInRange(ev.slot, slotsPerEpoch) && SlotInRange(ev.slot.Next(), slotsPerEpoch)
      && ev.current.Typed() && ev.next.Typed()
  }

  /** Both answers keep the beacon node's promise. */
  predicate HonestEvent(ev: Event, slotsPerEpoch: nat)
    requires ValidEvent(ev, slotsPerEpoch)
  {
    ev.Tick? ==>
      && ev.current.InEpoch(ev.slot.Epoch(), slotsPerEpoch)
      && ev.next.InEpoch(ev.slot.Next().Epoch(), slotsPerEpoch)
  }

  function Step(s: State, ev: Event, slotsPerEpoch: nat): State
    requires ValidEvent(ev, slotsPerEpoch)
  {
    match ev
    case Tick(slot, current, next) => ScheduleSlot(s, slot, current, next)
    case Reorg(epoch) => HandleChainReorg(s, epoch)
    case Lookup(_) => s
  }

  predicate ValidRun(events: seq<Event>, slotsPerEpoch: nat) {
    forall i | 0 <= i < |events| :: ValidEvent(events[i], slotsPerEpoch)
  }

  predicate HonestRun(events: seq<Event>, slotsPerEpoch: nat)
    requires ValidRun(events, slotsPerEpoch)
  {
    forall i | 0 <= i < |events| :: HonestEvent(events[i], slotsPerEpoch)
  }

  function Run(s: State, events: seq<Event>, slotsPerEpoch: nat): State
    requires ValidRun(events, slotsPerEpoch)
  {
    if events == [] then s
    else Step(Run(s, events[..|events| - 1], slotsPerEpoch), events[|events| - 1], slotsPerEpoch)
  }
}
