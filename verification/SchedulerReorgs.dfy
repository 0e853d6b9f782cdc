/** What a reorg leaves behind, and concrete runs that show where documented or expected bounds on
    the scheduler's memory end. */
module SchedulerReorgs {
  import opened Common
  import opened Slots
  import opened SchedulerModel
  import opened SchedulerInvariants
  import opened SchedulerRuns
  import opened SchedulerHistory

  // ---------------------------------------------------------------------------------------------
  // Reorgs
  // ---------------------------------------------------------------------------------------------

  /** A reorg below the resolved epoch drops all duties exactly when none belongs to another epoch. */
  lemma ReorgTrimsAllIff(s: State, reorged: nat, n: nat)
    requires Good(s, n) && reorged < s.resolvedEpoch
    ensures HandleChainReorg(s, reorged).duties == map[] <==>
              forall duty | duty in s.duties :: EpochOf(duty, n) == s.resolvedEpoch
  {
    var left := HandleChainReorg(s, reorged).duties;
    TrimExact(s, s.resolvedEpoch, n);
    if forall duty | duty in s.duties :: EpochOf(duty, n) == s.resolvedEpoch {
      assert left.Keys == {};
    }
    forall duty | duty in s.duties && EpochOf(duty, n) != s.resolvedEpoch ensures left != map[] {
      assert duty in left;
    }
  }

  /** A definition of any epoch but the resolved one survives a reorg and then every resolve,
      whatever its answers, that does not trim its epoch. */
  lemma StaleSurvivesReorg(s: State, reorged: nat, events: seq<Event>, n: nat, duty: Duty, pubkey: PubKey)
    requires Good(s, n) && Has(s, duty, pubkey) && EpochOf(duty, n) != s.resolvedEpoch
    requires GoodRun(HandleChainReorg(s, reorged), events, n)
    requires NeverTrimmed(HandleChainReorg(s, reorged), events, EpochOf(duty, n), n)
    ensures Get(Run(HandleChainReorg(s, reorged), events, n), duty, pubkey) == Get(s, duty, pubkey)
  {
    StepFate(s, Reorg(reorged), n, duty, pubkey);
    StepKeepsGood(s, Reorg(reorged), n);
    DefinitionsStable(HandleChainReorg(s, reorged), events, n, duty, pubkey);
  }

  // ---------------------------------------------------------------------------------------------
  // Concrete runs, one slot per epoch and one validator
  // ---------------------------------------------------------------------------------------------

  const VALIDATOR := Validator(PubKey([]), 7)

  const IDLE := Answer(Ok([]), Ok([]), Ok([]), Ok([]))

  const NO_DUTIES := Answer(Ok([VALIDATOR]), Ok([]), Ok([]), Ok([]))

  function SlotOf(number: nat): Slot {
    Slot(number, number as int, 1, 1)
  }

  function AttesterAt(slot: nat, committee: nat): Definition {
    AttesterDef(VALIDATOR.pubkey, VALIDATOR.index, slot, committee, 0, 0, 0)
  }

  function OneDuty(d: Definition): Answer {
    Answer(Ok([VALIDATOR]), Ok([d]), Ok([]), Ok([]))
  }

  /** The attester request is answered, the proposer request fails. */
  function OneDutyThenFailure(d: Definition): Answer {
    Answer(Ok([VALIDATOR]), Ok([d]), Err(BeaconNode), Ok([]))
  }

  lemma SlotFacts(number: nat)
    requires number < U64_MAX - 1
    ensures var slot := SlotOf(number);
            && slot.Valid() && slot.Epoch() == number && slot.LastInEpoch()
            && slot.Next().Valid() && slot.Next().Epoch() == number + 1
            && SlotInRange(slot, 1) && SlotInRange(slot.Next(), 1)
  {
  }

  lemma FilterOne(from: nat, vals: seq<Validator>, d: Definition)
    requires Kept(d, from, vals)
    ensures Filter(from, vals, [d]) == Ok([d])
  {
    var ds := [d];
    assert ds[..|ds| - 1] == [] && ds[|ds| - 1] == d;
    assert Filter(from, vals, []) == Ok([]) && [] + [d] == [d];
  }

  lemma EntriesOne(d: Definition)
    requires d.AttesterDef?
    ensures AttesterEntries([d]) == [AttesterEntry(d), AggregatorEntry(d)]
  {
    var ds := [d];
    assert ds[..|ds| - 1] == [] && AttesterEntries([]) == [];
  }

  lemma NoEntries(slot: Slot)
    requires slot.Valid()
    ensures AttesterEntries([]) == [] && ProposerEntries([]) == [] && SyncEntries(slot, []) == []
    ensures Fetch(slot.number, [VALIDATOR], Ok([])) == Ok([])
  {
  }

  lemma OfferedOne(number: nat, committee: nat)
    ensures var d, slot := AttesterAt(number, committee), SlotOf(number);
            && Offered(slot, [VALIDATOR], OneDuty(d)) == ([AttesterEntry(d), AggregatorEntry(d)], true)
            && Offered(slot, [VALIDATOR], OneDutyThenFailure(d)) == ([AttesterEntry(d), AggregatorEntry(d)], false)
  {
    hide Filter, AttesterEntries, SyncEntries;
    var d, slot := AttesterAt(number, committee), SlotOf(number);
    assert FindPubkey([VALIDATOR], VALIDATOR.index) == Some(VALIDATOR.pubkey);
    FilterOne(number, [VALIDATOR], d);
    EntriesOne(d);
    NoEntries(slot);
    var pair := [AttesterEntry(d), AggregatorEntry(d)];
    assert pair + [] + [] == pair;
  }

  lemma OfferedNone(number: nat)
    ensures Offered(SlotOf(number), [VALIDATOR], NO_DUTIES) == ([], true)
  {
    hide Filter, AttesterEntries, SyncEntries;
    NoEntries(SlotOf(number));
    var none: seq<Entry> := [];
    assert none + [] + [] == [];
  }

  /** A resolve answered with one attester duty of its epoch stores it, unless it has one, and
      marks the epoch as resolved unless a later request fails. */
  lemma ResolveOne(s: State, number: nat, committee: nat, a: Answer)
    requires Good(s, 1) && number < U64_MAX - 1
    requires a == OneDuty(AttesterAt(number, committee)) || a == OneDutyThenFailure(AttesterAt(number, committee))
    ensures a.Typed() && a.InEpoch(number, 1)
    ensures var s', duty, key := Resolve(s, SlotOf(number), a).state, Duty(number, Attester), VALIDATOR.pubkey;
            && Good(s', 1)
            && s'.resolvedEpoch == (if a.proposers.Ok? then number else s.resolvedEpoch)
            && Get(s', duty, key) ==
                 if Has(s, duty, key) then Get(s, duty, key) else Some(AttesterAt(number, committee))
  {
    var slot, duty, key := SlotOf(number), Duty(number, Attester), VALIDATOR.pubkey;
    SlotFacts(number);
    OfferedOne(number, committee);
    InEpochFits(s, slot, a, 1);
    ResolveGet(s, slot, a, 1, duty, key);
    ResolveResolved(s, slot, a);
    ResolveShape(s, slot, a);
    ResolveKeepsPaired(s, slot, a);
    ResolveKeepsIndexed(s, slot, a, 1);
  }

  /** A resolve of any slot without duties keeps what is not trimmed and finishes. */
  lemma ResolveNone(s: State, number: nat, a: Answer, duty: Duty, pubkey: PubKey)
    requires Good(s, 1) && number < U64_MAX - 1 && (a == NO_DUTIES || a == IDLE)
    ensures a.Typed() && a.InEpoch(number, 1)
    ensures var o := Resolve(s, SlotOf(number), a);
            && Good(o.state, 1) && o.state.resolvedEpoch == number && o.failure.None?
            && Get(o.state, duty, pubkey) ==
                 if a == NO_DUTIES && EpochOf(duty, 1) + TRIM_EPOCH_OFFSET == number then None else Get(s, duty, pubkey)
  {
    var slot := SlotOf(number);
    SlotFacts(number);
    InEpochFits(s, slot, a, 1);
    ResolveKeepsPaired(s, slot, a);
    ResolveKeepsIndexed(s, slot, a, 1);
    if a == NO_DUTIES {
      OfferedNone(number);
      ResolveGet(s, slot, a, 1, duty, pubkey);
      ResolveShape(s, slot, a);
    }
    ResolveResolved(s, slot, a);
  }

  // ---------------------------------------------------------------------------------------------
  // Where the documentation and the four-epoch bound end
  // ---------------------------------------------------------------------------------------------

  lemma TickSteps(s: State, number: nat, current: Answer, next: Answer)
    requires number < U64_MAX - 2 && current.Typed() && next.Typed()
    requires current.InEpoch(number, 1) && next.InEpoch(number + 1, 1)
    ensures var ev := Tick(SlotOf(number), current, next);
            var s1 := if s.resolvedEpoch != number then Resolve(s, SlotOf(number), current).state else s;
            ValidEvent(ev, 1) && HonestEvent(ev, 1) && Step(s, ev, 1) == Resolve(s1, SlotOf(number + 1), next).state
  {
    SlotFacts(number);
    SlotFacts(number + 1);
    assert SlotOf(number).Next() == SlotOf(number + 1);
  }

  lemma RunSnoc(s: State, events: seq<Event>, ev: Event, n: nat)
    requires ValidRun(events, n) && ValidEvent(ev, n)
    ensures ValidRun(events + [ev], n) && Run(s, events + [ev], n) == Step(Run(s, events, n), ev, n)
  {
    var all := events + [ev];
    assert all[..|all| - 1] == events;
  }

  /** A reorg of an already resolved epoch leaves that epoch's own duties stored. */
  lemma ReorgedEpochKept() returns (events: seq<Event>)
    ensures ValidRun(events, 1) && HonestRun(events, 1) && Run(INITIAL, events, 1).resolvedEpoch == 1
    ensures Duty(0, Attester) in HandleChainReorg(Run(INITIAL, events, 1), 0).duties
  {
    hide Resolve, Get, Good, Step;
    var d, duty, key := AttesterAt(0, 0), Duty(0, Attester), VALIDATOR.pubkey;
    var ev := Tick(SlotOf(0), OneDuty(d), NO_DUTIES);
    InitialGood(1);
    ResolveOne(INITIAL, 0, 0, OneDuty(d));
    var s1 := Resolve(INITIAL, SlotOf(0), OneDuty(d)).state;
    ResolveNone(s1, 1, NO_DUTIES, duty, key);
    TickSteps(INITIAL, 0, OneDuty(d), NO_DUTIES);
    events := [] + [ev];
    RunSnoc(INITIAL, [], ev, 1);
    var s2 := Run(INITIAL, events, 1);
    KeptByReorg(s2, duty, key);
  }

  lemma KeptByReorg(s: State, duty: Duty, pubkey: PubKey)
    requires Good(s, 1) && s.resolvedEpoch == 1 && Get(s, duty, pubkey).Some? && duty.slot != 1
    ensures duty in HandleChainReorg(s, 0).duties && Good(HandleChainReorg(s, 0), 1)
    ensures HandleChainReorg(s, 0).resolvedEpoch == UNRESOLVED
    ensures Get(HandleChainReorg(s, 0), duty, pubkey) == Get(s, duty, pubkey)
  {
    StepFate(s, Reorg(0), 1, duty, pubkey);
    StepKeepsGood(s, Reorg(0), 1);
  }

  /** Slots 1 and 2 with a reorg in between. The first resolve of epoch 2 fails half-way, the reorg
      spares what it stored, and the second one is answered differently: lookups go on returning
      the definition from before the reorg. */
  lemma StaleAfterReorg() returns (events: seq<Event>, stale: Definition, newer: Definition)
    ensures ValidRun(events, 1) && HonestRun(events, 1) && |events| == 3 && events[1] == Reorg(0) && stale != newer
    ensures Run(INITIAL, events[..1], 1).resolvedEpoch == 1
    ensures events[2].Tick? && events[2].current == OneDuty(newer)
    ensures var r := GetDutyDefinition(Run(INITIAL, events, 1), 1, Duty(2, Attester));
            r.Ok? && VALIDATOR.pubkey in r.value && r.value[VALIDATOR.pubkey] == stale
  {
    hide Resolve, Good, Step, HandleChainReorg;
    var duty, key := Duty(2, Attester), VALIDATOR.pubkey;
    stale, newer := AttesterAt(2, 0), AttesterAt(2, 1);
    var first := Tick(SlotOf(1), NO_DUTIES, OneDutyThenFailure(stale));
    var last := Tick(SlotOf(2), OneDuty(newer), NO_DUTIES);
    events := [first, Reorg(0), last];
    var s1 := BeforeReorg(stale);
    KeptByReorg(s1, duty, key);
    var s2 := HandleChainReorg(s1, 0);
    ResolveOne(s2, 2, 1, OneDuty(newer));
    var s3 := Resolve(s2, SlotOf(2), OneDuty(newer)).state;
    ResolveNone(s3, 3, NO_DUTIES, duty, key);
    TickSteps(s2, 2, OneDuty(newer), NO_DUTIES);
    RunSnoc(INITIAL, [first], Reorg(0), 1);
    RunSnoc(INITIAL, [first, Reorg(0)], last, 1);
    assert [first] + [Reorg(0)] == [first, Reorg(0)] && [first, Reorg(0)] + [last] == events;
    assert Run(INITIAL, [first, Reorg(0)], 1) == s2 by { ReorgSteps(s1); }
    assert events[..1] == [first];
    Found(Run(INITIAL, events, 1), duty, key);
  }

  lemma ReorgSteps(s: State)
    ensures Step(s, Reorg(0), 1) == HandleChainReorg(s, 0)
  {
  }

  lemma BeforeReorg(stale: Definition) returns (s: State)
    requires stale == AttesterAt(2, 0)
    ensures var first := Tick(SlotOf(1), NO_DUTIES, OneDutyThenFailure(stale));
            ValidEvent(first, 1) && HonestEvent(first, 1) && s == Run(INITIAL, [first], 1)
    ensures Good(s, 1) && s.resolvedEpoch == 1 && Get(s, Duty(2, Attester), VALIDATOR.pubkey) == Some(stale)
  {
    hide Resolve, Good, Step;
    var duty, key := Duty(2, Attester), VALIDATOR.pubkey;
    var first := Tick(SlotOf(1), NO_DUTIES, OneDutyThenFailure(stale));
    InitialGood(1);
    ResolveNone(INITIAL, 1, NO_DUTIES, duty, key);
    var s1 := Resolve(INITIAL, SlotOf(1), NO_DUTIES).state;
    assert !Has(INITIAL, duty, key) && !Has(s1, duty, key);
    ResolveOne(s1, 2, 0, OneDutyThenFailure(stale));
    TickSteps(INITIAL, 1, NO_DUTIES, OneDutyThenFailure(stale));
    RunSnoc(INITIAL, [], first, 1);
    assert [] + [first] == [first];
    s := Run(INITIAL, [first], 1);
  }

  lemma Found(s: State, duty: Duty, pubkey: PubKey)
    requires s.resolvedEpoch == 3 && duty == Duty(2, Attester) && Get(s, duty, pubkey).Some?
    ensures var r := GetDutyDefinition(s, 1, duty);
            r.Ok? && pubkey in r.value && Some(r.value[pubkey]) == Get(s, duty, pubkey)
  {
  }

  lemma TickProgress(s: State, p: Progress, number: nat, current: Answer, next: Answer)
    requires number < U64_MAX - 2 && current.Typed() && (next == NO_DUTIES || next == IDLE)
    requires current.InEpoch(number, 1) && Good(BeforeBroadcast(s, SlotOf(number), current), 1)
    ensures var ev := Tick(SlotOf(number), current, next);
            ValidEvent(ev, 1) && AfterEvent(s, p, ev, 1).last == Some(number + 1)
  {
    hide Resolve;
    SlotFacts(number);
    SlotFacts(number + 1);
    assert SlotOf(number).Next() == SlotOf(number + 1);
    ResolveNone(BeforeBroadcast(s, SlotOf(number), current), number + 1, next, Duty(0, Attester), VALIDATOR.pubkey);
  }

  /** The last epoch resolved is past the window of a duty that is still stored. */
  lemma SpanExceeded(s: State, p: Progress, l: nat)
    requires Get(s, Duty(0, Attester), VALIDATOR.pubkey).Some? && p.last == Some(l) && l > 2
    ensures !Span(s, p, 1)
  {
    assert Duty(0, Attester) in s.duties && !p.InSpan(EpochOf(Duty(0, Attester), 1));
  }

  /** One tick stores a duty of epoch 0 and resolves epoch 1. */
  lemma FirstTick(next: Answer) returns (ev: Event, s: State)
    requires next == NO_DUTIES || next == IDLE
    ensures ev == Tick(SlotOf(0), OneDuty(AttesterAt(0, 0)), next) && ValidEvent(ev, 1) && HonestEvent(ev, 1)
    ensures s == Run(INITIAL, [ev], 1) && Good(s, 1) && s.resolvedEpoch == 1
    ensures Get(s, Duty(0, Attester), VALIDATOR.pubkey).Some?
  {
    hide Resolve, Get, Good, Step;
    var d := AttesterAt(0, 0);
    ev := Tick(SlotOf(0), OneDuty(d), next);
    InitialGood(1);
    ResolveOne(INITIAL, 0, 0, OneDuty(d));
    ResolveNone(Resolve(INITIAL, SlotOf(0), OneDuty(d)).state, 1, next, Duty(0, Attester), VALIDATOR.pubkey);
    TickSteps(INITIAL, 0, OneDuty(d), next);
    RunSnoc(INITIAL, [], ev, 1);
    assert [] + [ev] == [ev];
    s := Run(INITIAL, [ev], 1);
  }

  /** A later tick without duties to store, from a state in which its own epoch may be resolved. */
  lemma LaterTick(s: State, number: nat, a: Answer)
    requires Good(s, 1) && 1 <= number < U64_MAX - 2 && (a == IDLE || (a == NO_DUTIES && number !in {2, 3}))
    requires Get(s, Duty(0, Attester), VALIDATOR.pubkey).Some?
    ensures var ev := Tick(SlotOf(number), a, a);
            && ValidEvent(ev, 1) && HonestEvent(ev, 1) && Good(Step(s, ev, 1), 1)
            && Good(BeforeBroadcast(s, SlotOf(number), a), 1)
            && Get(Step(s, ev, 1), Duty(0, Attester), VALIDATOR.pubkey).Some?
            && Step(s, ev, 1).resolvedEpoch == number + 1
  {
    hide Resolve, Get, Good, Step;
    var duty, key := Duty(0, Attester), VALIDATOR.pubkey;
    SlotFacts(number);
    ResolveNone(s, number, a, duty, key);
    var s1 := BeforeBroadcast(s, SlotOf(number), a);
    ResolveNone(s1, number + 1, a, duty, key);
    TickSteps(s, number, a, a);
  }

  /** Active validators, but epochs skipped: the bound fails. */
  lemma SkippedEpochsExceedSpan() returns (events: seq<Event>)
    ensures ValidRun(events, 1) && HonestRun(events, 1)
    ensures forall k | 0 <= k < |events| ::
              events[k].Tick? && events[k].current.validators == events[k].next.validators == Ok([VALIDATOR])
    ensures !Span(Run(INITIAL, events, 1), RunProgress(events, 1), 1)
  {
    hide Resolve, Get, Good, Step, AfterEvent, Span;
    var ev0, s := FirstTick(NO_DUTIES);
    var ev1 := Tick(SlotOf(9), NO_DUTIES, NO_DUTIES);
    LaterTick(s, 9, NO_DUTIES);
    TickProgress(s, RunProgress([ev0], 1), 9, NO_DUTIES, NO_DUTIES);
    RunSnoc(INITIAL, [ev0], ev1, 1);
    events := [ev0] + [ev1];
    assert events[..|events| - 1] == [ev0];
    SpanExceeded(Run(INITIAL, events, 1), RunProgress(events, 1), 10);
  }

  /** No epoch skipped, but no active validators: the bound fails too. */
  lemma IdleTicksExceedSpan() returns (events: seq<Event>)
    ensures ValidRun(events, 1) && HonestRun(events, 1) && |events| == 3
    ensures forall k | 0 <= k < |events| :: events[k].Tick? && events[k].slot.number == k
    ensures Idle(events[1]) && Idle(events[2])
    ensures !Span(Run(INITIAL, events, 1), RunProgress(events, 1), 1)
  {
    hide Resolve, Get, Good, Step, AfterEvent, Span;
    var ev0, s := FirstTick(IDLE);
    var ev1, ev2 := Tick(SlotOf(1), IDLE, IDLE), Tick(SlotOf(2), IDLE, IDLE);
    LaterTick(s, 1, IDLE);
    RunSnoc(INITIAL, [ev0], ev1, 1);
    assert [ev0] + [ev1] == [ev0, ev1];
    var s1 := Step(s, ev1, 1);
    LaterTick(s1, 2, IDLE);
    TickProgress(s1, RunProgress([ev0, ev1], 1), 2, IDLE, IDLE);
    RunSnoc(INITIAL, [ev0, ev1], ev2, 1);
    events := [ev0, ev1] + [ev2];
    assert events[..|events| - 1] == [ev0, ev1];
    SpanExceeded(Run(INITIAL, events, 1), RunProgress(events, 1), 3);
  }
}
