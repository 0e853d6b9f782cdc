/** How long stored definitions live, when lookups succeed, how many epochs are kept, and what a
    resolve covers. */
module SchedulerHistory {
  import opened Common
  import opened Slots
  import opened SchedulerModel
  import opened SchedulerInvariants
  import opened SchedulerRuns

  /** A state the invariants hold in. */
  ghost predicate Good(s: State, n: nat) {
    n > 0 && Paired(s) && Indexed(s, n)
  }

  /** A run in which every resolve that is made keeps the index in agreement. */
  ghost predicate GoodRun(s: State, events: seq<Event>, n: nat) {
    n > 0 && ValidRun(events, n) && RunFits(s, events, n)
  }

  lemma InitialGood(n: nat)
    requires n > 0
    ensures Good(INITIAL, n)
  {
    InitialIndexed(n);
  }

  lemma RunKeepsGood(s: State, events: seq<Event>, n: nat)
    requires Good(s, n) && GoodRun(s, events, n)
    ensures Good(Run(s, events, n), n)
  {
    RunKeepsPaired(s, events, n);
    IndexAgreement(s, events, n);
  }

  lemma StepKeepsGood(s: State, ev: Event, n: nat)
    requires Good(s, n) && ValidEvent(ev, n) && EventFits(s, ev, n)
    ensures Good(Step(s, ev, n), n)
  {
    StepKeepsPaired(s, ev, n);
    StepIndexedIff(s, ev, n);
  }

  // ---------------------------------------------------------------------------------------------
  // Definitions live until their epoch is trimmed
  // ---------------------------------------------------------------------------------------------

  predicate ResolveTrims(s: State, slot: Slot, a: Answer, epoch: nat)
    requires slot.Valid() && a.Typed()
  {
    && a.validators.Ok? && a.validators.value != [] && slot.Epoch() == epoch + TRIM_EPOCH_OFFSET
    && Resolve(s, slot, a).failure.None?
  }

  /** The event deletes the duties of the epoch: a reorg below the resolved epoch deletes that
      epoch, a finished resolve deletes the epoch three before it. */
  predicate Trims(s: State, ev: Event, epoch: nat, n: nat)
    requires ValidEvent(ev, n)
  {
    match ev
    case Tick(slot, current, next) =>
      || (s.resolvedEpoch != slot.Epoch() && ResolveTrims(s, slot, current, epoch))
      || (slot.LastInEpoch() && ResolveTrims(BeforeBroadcast(s, slot, current), slot.Next(), next, epoch))
    case Reorg(reorged) => reorged < s.resolvedEpoch == epoch
    case Lookup(_) => false
  }

  lemma FirstOutside(s: State, xs: seq<Entry>, epoch: nat, n: nat, duty: Duty, pubkey: PubKey)
    requires n > 0 && Settled(s, xs, epoch, n) && EpochOf(duty, n) != epoch && !Has(s, duty, pubkey)
    ensures First(xs, duty, pubkey) == None
  {
    assert forall i | 0 <= i < |xs| :: xs[i].duty != duty || xs[i].pubkey != pubkey;
  }

  lemma ResolveFate(s: State, slot: Slot, a: Answer, n: nat, duty: Duty, pubkey: PubKey)
    requires Good(s, n) && SlotInRange(slot, n) && a.Typed() && ResolveFits(s, slot, a, n)
    requires EpochOf(duty, n) < slot.Epoch() || Has(s, duty, pubkey)
    ensures Get(Resolve(s, slot, a).state, duty, pubkey) ==
              if ResolveTrims(s, slot, a, EpochOf(duty, n)) then None else Get(s, duty, pubkey)
  {
    if a.validators.Ok? && a.validators.value != [] {
      ResolveGet(s, slot, a, n, duty, pubkey);
      ResolveShape(s, slot, a);
      if !Has(s, duty, pubkey) {
        FirstOutside(s, Offered(slot, a.validators.value, a).0, slot.Epoch(), n, duty, pubkey);
      }
    }
  }

  /** A stored definition survives a step unchanged, unless that step trims its epoch; then it is
      gone. */
  lemma StepFate(s: State, ev: Event, n: nat, duty: Duty, pubkey: PubKey)
    requires Good(s, n) && ValidEvent(ev, n) && EventFits(s, ev, n) && Has(s, duty, pubkey)
    ensures Get(Step(s, ev, n), duty, pubkey) ==
              if Trims(s, ev, EpochOf(duty, n), n) then None else Get(s, duty, pubkey)
  {
    match ev
    case Tick(slot, current, next) =>
      var s1 := BeforeBroadcast(s, slot, current);
      if s.resolvedEpoch != slot.Epoch() {
        ResolveFate(s, slot, current, n, duty, pubkey);
        ResolveKeepsPaired(s, slot, current);
        ResolveKeepsIndexed(s, slot, current, n);
      }
      if slot.LastInEpoch() {
        EpochBounds(slot.number, n, slot.Epoch());
        NextEpoch(slot);
        ResolveFate(s1, slot.Next(), next, n, duty, pubkey);
      }
    case Reorg(epoch) =>
      TrimExact(s, s.resolvedEpoch, n);
    case Lookup(_) =>
  }

  ghost predicate NeverTrimmed(s: State, events: seq<Event>, epoch: nat, n: nat)
    requires ValidRun(events, n)
  {
    forall k | 0 <= k < |events| :: !Trims(Run(s, events[..k], n), events[k], epoch, n)
  }

  /** From any good state, what is stored is found unchanged after any run that does not trim its
      epoch. */
  lemma {:induction false} DefinitionsStable(s: State, events: seq<Event>, n: nat, duty: Duty, pubkey: PubKey)
    requires Good(s, n) && GoodRun(s, events, n) && Has(s, duty, pubkey)
    requires NeverTrimmed(s, events, EpochOf(duty, n), n)
    ensures Get(Run(s, events, n), duty, pubkey) == Get(s, duty, pubkey)
  {
    hide Step, Trims, Good, ValidEvent, EventFits, EpochOf;
    if events != [] {
      var init := events[..|events| - 1];
      assert forall k | 0 <= k < |init| :: init[..k] == events[..k] && init[k] == events[k];
      RunFitsInit(s, events, n);
      DefinitionsStable(s, init, n, duty, pubkey);
      RunKeepsGood(s, init, n);
      assert events[..|events| - 1] == init && !Trims(Run(s, init, n), events[|events| - 1], EpochOf(duty, n), n);
      StepFate(Run(s, init, n), events[|events| - 1], n, duty, pubkey);
    }
  }

  // ---------------------------------------------------------------------------------------------
  // Lookups
  // ---------------------------------------------------------------------------------------------

  /** Stored duties have validators, whatever the beacon node answers. */
  ghost predicate Inhabited(s: State) {
    forall duty | duty in s.duties :: s.duties[duty] != map[]
  }

  lemma {:induction false} StoreAllInhabited(s: State, epoch: nat, xs: seq<Entry>)
    requires Inhabited(s)
    ensures Inhabited(StoreAll(s, epoch, xs))
  {
    if xs != [] {
      var before, x := StoreAll(s, epoch, xs[..|xs| - 1]), xs[|xs| - 1];
      StoreAllInhabited(s, epoch, xs[..|xs| - 1]);
      assert x.pubkey in DefSet(before, x.duty)[x.pubkey := x.definition];
    }
  }

  lemma ResolveInhabited(s: State, slot: Slot, a: Answer)
    requires Paired(s) && Inhabited(s) && slot.Valid() && a.Typed()
    ensures Inhabited(Resolve(s, slot, a).state)
  {
    if a.validators.Ok? && a.validators.value != [] {
      ResolveShape(s, slot, a);
      StoreAllInhabited(s, slot.Epoch(), Offered(slot, a.validators.value, a).0);
    }
  }

  lemma {:induction false} RunInhabited(events: seq<Event>, n: nat)
    requires ValidRun(events, n)
    ensures Inhabited(Run(INITIAL, events, n))
  {
    if events != [] {
      var init, ev := events[..|events| - 1], events[|events| - 1];
      RunInhabited(init, n);
      AttesterAggregatorPairing(init, n);
      if ev.Tick? {
        var s := Run(INITIAL, init, n);
        ResolveInhabited(s, ev.slot, ev.current);
        ResolveKeepsPaired(s, ev.slot, ev.current);
        ResolveInhabited(BeforeBroadcast(s, ev.slot, ev.current), ev.slot.Next(), ev.next);
      }
    }
  }

  /** After any run a lookup succeeds exactly for a stored duty of one of the three newest resolved
      epochs (and not of the deprecated type); it then returns a non-empty set. */
  lemma LookupWindow(events: seq<Event>, n: nat, duty: Duty)
    requires n > 0 && ValidRun(events, n)
    ensures var s := Run(INITIAL, events, n);
            var r, epoch := GetDutyDefinition(s, n, duty), EpochOf(duty, n);
            && (r.Ok? <==> && duty.dutyType != BuilderProposer && duty in s.duties && s.resolvedEpoch != UNRESOLVED
                           && s.resolvedEpoch - 3 < epoch <= s.resolvedEpoch)
            && (r.Ok? ==> r.value == s.duties[duty] && r.value != map[])
  {
    RunInhabited(events, n);
    ResolvedInRange(events, n);
  }

  lemma {:induction false} StoreAllResolved(s: State, epoch: nat, xs: seq<Entry>)
    ensures StoreAll(s, epoch, xs).resolvedEpoch == s.resolvedEpoch
  {
    if xs != [] { StoreAllResolved(s, epoch, xs[..|xs| - 1]); }
  }

  lemma ResolveResolved(s: State, slot: Slot, a: Answer)
    requires Paired(s) && slot.Valid() && a.Typed()
    ensures var o := Resolve(s, slot, a);
            o.state.resolvedEpoch == if o.failure.None? then slot.Epoch() else s.resolvedEpoch
  {
    if a.validators.Ok? && a.validators.value != [] {
      ResolveShape(s, slot, a);
      StoreAllResolved(s, slot.Epoch(), Offered(slot, a.validators.value, a).0);
    }
  }

  lemma EpochBelowSentinel(slot: Slot, n: nat)
    requires SlotInRange(slot, n)
    ensures slot.Epoch() < UNRESOLVED
  {
    ProductGrows(slot.Epoch() + 1, slot.slotsPerEpoch);
  }

  lemma {:induction false} ResolvedInRange(events: seq<Event>, n: nat)
    requires ValidRun(events, n)
    ensures Run(INITIAL, events, n).resolvedEpoch <= UNRESOLVED
  {
    if events != [] {
      var init, ev := events[..|events| - 1], events[|events| - 1];
      ResolvedInRange(init, n);
      AttesterAggregatorPairing(init, n);
      if ev.Tick? {
        var s := Run(INITIAL, init, n);
        ResolveResolved(s, ev.slot, ev.current);
        ResolveKeepsPaired(s, ev.slot, ev.current);
        ResolveResolved(BeforeBroadcast(s, ev.slot, ev.current), ev.slot.Next(), ev.next);
        EpochBelowSentinel(ev.slot, n);
        EpochBelowSentinel(ev.slot.Next(), n);
      }
    }
  }

  /** The event makes some resolve finish. */
  predicate Resolves(s: State, ev: Event, n: nat)
    requires ValidEvent(ev, n)
  {
    ev.Tick? &&
    (|| (s.resolvedEpoch != ev.slot.Epoch() && Resolve(s, ev.slot, ev.current).failure.None?)
     || (ev.slot.LastInEpoch() &&
         Resolve(BeforeBroadcast(s, ev.slot, ev.current), ev.slot.Next(), ev.next).failure.None?))
  }

  ghost predicate NoneResolves(s: State, events: seq<Event>, n: nat)
    requires ValidRun(events, n)
  {
    forall k | 0 <= k < |events| :: !Resolves(Run(s, events[..k], n), events[k], n)
  }

  lemma {:induction false} StaysUnresolved(s: State, events: seq<Event>, n: nat)
    requires Paired(s) && s.resolvedEpoch == UNRESOLVED && ValidRun(events, n) && NoneResolves(s, events, n)
    ensures Run(s, events, n).resolvedEpoch == UNRESOLVED && Paired(Run(s, events, n))
  {
    if events != [] {
      var init, ev := events[..|events| - 1], events[|events| - 1];
      assert forall k | 0 <= k < |init| :: init[..k] == events[..k] && init[k] == events[k];
      StaysUnresolved(s, init, n);
      var t := Run(s, init, n);
      StepKeepsPaired(t, ev, n);
      if ev.Tick? {
        assert events[..|events| - 1] == init;
        assert !Resolves(t, ev, n);
        EpochBelowSentinel(ev.slot, n);
        ResolveResolved(t, ev.slot, ev.current);
        ResolveKeepsPaired(t, ev.slot, ev.current);
        ResolveResolved(BeforeBroadcast(t, ev.slot, ev.current), ev.slot.Next(), ev.next);
      }
    }
  }

  /** After a reorg below the resolved epoch no lookup succeeds until a resolve finishes again. */
  lemma ReorgSilencesLookups(past: seq<Event>, reorged: nat, future: seq<Event>, n: nat, duty: Duty)
    requires n > 0 && ValidRun(past, n) && reorged < Run(INITIAL, past, n).resolvedEpoch
    requires ValidRun(future, n) && NoneResolves(Step(Run(INITIAL, past, n), Reorg(reorged), n), future, n)
    ensures GetDutyDefinition(Run(Step(Run(INITIAL, past, n), Reorg(reorged), n), future, n), n, duty).Err?
  {
    var s := Run(INITIAL, past, n);
    AttesterAggregatorPairing(past, n);
    StepKeepsPaired(s, Reorg(reorged), n);
    StaysUnresolved(Step(s, Reorg(reorged), n), future, n);
  }

  // ---------------------------------------------------------------------------------------------
  // At most four epochs are kept
  // ---------------------------------------------------------------------------------------------

  /** The first epoch ever attempted and the last one resolved. */
  datatype Progress = Progress(first: Option<nat>, last: Option<nat>) {
    function Attempt(epoch: nat, finished: bool): Progress {
      Progress(if first.None? then Some(epoch) else first, if finished then Some(epoch) else last)
    }

    /** Attempted epochs are the last resolved one, the one after it, or the very first. */
    predicate MayAttempt(epoch: nat) {
      match last
      case Some(l) => epoch == l || epoch == l + 1
      case None => first.None? || epoch == first.value
    }

    predicate InSpan(epoch: nat) {
      match last
      case Some(l) => l <= epoch + 2 && epoch <= l + 1
      case None => first == Some(epoch)
    }
  }

  predicate PacedAttempt(p: Progress, slot: Slot, a: Answer)
    requires slot.Valid()
  {
    p.MayAttempt(slot.Epoch()) && (a.validators.Ok? ==> a.validators.value != [])
  }

  function AfterAttempt(s: State, p: Progress, slot: Slot, a: Answer): Progress
    requires slot.Valid() && a.Typed()
  {
    p.Attempt(slot.Epoch(), Resolve(s, slot, a).failure.None?)
  }

  function BetweenAttempts(s: State, p: Progress, ev: Event, n: nat): Progress
    requires ValidEvent(ev, n) && ev.Tick?
  {
    if s.resolvedEpoch != ev.slot.Epoch() then AfterAttempt(s, p, ev.slot, ev.current) else p
  }

  predicate PacedEvent(s: State, p: Progress, ev: Event, n: nat)
    requires ValidEvent(ev, n)
  {
    ev.Tick? ==>
      && (s.resolvedEpoch != ev.slot.Epoch() ==> PacedAttempt(p, ev.slot, ev.current))
      && (ev.slot.LastInEpoch() ==> PacedAttempt(BetweenAttempts(s, p, ev, n), ev.slot.Next(), ev.next))
  }

  function AfterEvent(s: State, p: Progress, ev: Event, n: nat): Progress
    requires ValidEvent(ev, n)
  {
    if !ev.Tick? then p
    else if ev.slot.LastInEpoch() then
      AfterAttempt(BeforeBroadcast(s, ev.slot, ev.current), BetweenAttempts(s, p, ev, n), ev.slot.Next(), ev.next)
    else BetweenAttempts(s, p, ev, n)
  }

  function RunProgress(events: seq<Event>, n: nat): Progress
    requires ValidRun(events, n)
  {
    if events == [] then Progress(None, None) else
    var init := events[..|events| - 1];
    AfterEvent(Run(INITIAL, init, n), RunProgress(init, n), events[|events| - 1], n)
  }

  /** Each epoch is attempted only once its predecessor has been resolved, or as the first one, and
      active validators are never empty. */
  ghost predicate PacedRun(events: seq<Event>, n: nat)
    requires ValidRun(events, n)
  {
    forall k | 0 <= k < |events| ::
      PacedEvent(Run(INITIAL, events[..k], n), RunProgress(events[..k], n), events[k], n)
  }

  ghost predicate Span(s: State, p: Progress, n: nat)
    requires n > 0
  {
    forall duty | duty in s.duties :: p.InSpan(EpochOf(duty, n))
  }

  lemma ResolveSpan(s: State, p: Progress, slot: Slot, a: Answer, n: nat)
    requires Good(s, n) && SlotInRange(slot, n) && a.Typed() && ResolveFits(s, slot, a, n)
    requires Span(s, p, n) && PacedAttempt(p, slot, a)
    ensures Span(Resolve(s, slot, a).state, AfterAttempt(s, p, slot, a), n)
  {
    var o, e := Resolve(s, slot, a), slot.Epoch();
    forall duty | duty in o.state.duties ensures AfterAttempt(s, p, slot, a).InSpan(EpochOf(duty, n)) {
      if a.validators.Ok? {
        ResolveKeepsIndexed(s, slot, a, n);
        assert DutyIndexed(o.state, duty, n);
        var pubkey :| pubkey in o.state.duties[duty];
        ResolveGet(s, slot, a, n, duty, pubkey);
        ResolveShape(s, slot, a);
        var xs := Offered(slot, a.validators.value, a).0;
        if EpochOf(duty, n) != e && !Has(s, duty, pubkey) { FirstOutside(s, xs, e, n, duty, pubkey); }
      }
    }
  }

  /** On paced runs stored duties span at most four epochs: the last resolved one, the two before
      it, and a partly resolved next one. */
  lemma {:induction false} FourEpochSpan(events: seq<Event>, n: nat)
    requires GoodRun(INITIAL, events, n) && PacedRun(events, n)
    ensures Span(Run(INITIAL, events, n), RunProgress(events, n), n)
  {
    hide Step, PacedEvent, AfterEvent, Good, ValidEvent, EventFits;
    if events != [] {
      var init, ev := events[..|events| - 1], events[|events| - 1];
      assert forall k | 0 <= k < |init| :: init[..k] == events[..k] && init[k] == events[k];
      RunFitsInit(INITIAL, events, n);
      FourEpochSpan(init, n);
      InitialGood(n);
      RunKeepsGood(INITIAL, init, n);
      assert events[..|events| - 1] == init;
      SpanStep(Run(INITIAL, init, n), RunProgress(init, n), ev, n);
    }
  }

  lemma SpanStep(s: State, p: Progress, ev: Event, n: nat)
    requires Good(s, n) && ValidEvent(ev, n) && EventFits(s, ev, n) && Span(s, p, n) && PacedEvent(s, p, ev, n)
    ensures Span(Step(s, ev, n), AfterEvent(s, p, ev, n), n)
  {
    if ev.Tick? {
      if s.resolvedEpoch != ev.slot.Epoch() {
        ResolveSpan(s, p, ev.slot, ev.current, n);
        ResolveKeepsPaired(s, ev.slot, ev.current);
        ResolveKeepsIndexed(s, ev.slot, ev.current, n);
      }
      if ev.slot.LastInEpoch() {
        ResolveSpan(BeforeBroadcast(s, ev.slot, ev.current), BetweenAttempts(s, p, ev, n), ev.slot.Next(), ev.next, n);
      }
    }
  }

  /** Whether a resolve finishes, told by its answers. */
  predicate Finishes(slot: Slot, a: Answer)
    requires slot.Valid() && a.Typed()
  {
    a.validators.Ok? && (a.validators.value == [] || Offered(slot, a.validators.value, a).1)
  }

  predicate Active(a: Answer) {
    a.validators.Ok? && a.validators.value != []
  }

  /** What keeps the bound, told before the resolve: every stored duty it does not trim is inside the
      window it moves to, and so is its own epoch if it stores anything new. */
  ghost predicate KeepsSpan(s: State, p: Progress, slot: Slot, a: Answer, n: nat)
    requires n > 0 && slot.Valid() && a.Typed()
  {
    var p', e := p.Attempt(slot.Epoch(), Finishes(slot, a)), slot.Epoch();
    && (forall duty | duty in s.duties ::
          || (Active(a) && Finishes(slot, a) && EpochOf(duty, n) + TRIM_EPOCH_OFFSET == e)
          || p'.InSpan(EpochOf(duty, n)))
    && (Active(a) && (exists x :: x in Offered(slot, a.validators.value, a).0 && !Has(s, x.duty, x.pubkey)) ==>
          p'.InSpan(e))
  }

  lemma FinishesIff(s: State, slot: Slot, a: Answer)
    requires Paired(s) && slot.Valid() && a.Typed()
    ensures Resolve(s, slot, a).failure.None? <==> Finishes(slot, a)
  {
    if Active(a) { ResolveShape(s, slot, a); }
  }

  /** The epochs with stored duties after a resolve with active validators. */
  lemma StoredAfter(s: State, slot: Slot, a: Answer, n: nat, duty: Duty)
    requires Good(s, n) && SlotInRange(slot, n) && a.Typed() && Active(a) && ResolveFits(s, slot, a, n)
    ensures var xs, trimmed := Offered(slot, a.validators.value, a).0,
                               Finishes(slot, a) && EpochOf(duty, n) + TRIM_EPOCH_OFFSET == slot.Epoch();
            duty in Resolve(s, slot, a).state.duties <==>
              !trimmed && (duty in s.duties || exists x :: x in xs && x.duty == duty && !Has(s, duty, x.pubkey))
  {
    var s', xs := Resolve(s, slot, a).state, Offered(slot, a.validators.value, a).0;
    ResolveKeepsIndexed(s, slot, a, n);
    assert DutyIndexed(s, duty, n) && DutyIndexed(s', duty, n);
    if duty in s'.duties {
      var pubkey :| pubkey in s'.duties[duty];
      ResolveGet(s, slot, a, n, duty, pubkey);
    }
    if duty in s.duties {
      var pubkey :| pubkey in s.duties[duty];
      ResolveGet(s, slot, a, n, duty, pubkey);
    }
    forall x | x in xs && x.duty == duty && !Has(s, duty, x.pubkey)
      ensures duty in s'.duties || (Finishes(slot, a) && EpochOf(duty, n) + TRIM_EPOCH_OFFSET == slot.Epoch())
    {
      ResolveGet(s, slot, a, n, duty, x.pubkey);
    }
  }

  /** A fitting resolve ends inside the bound exactly when it keeps it. */
  lemma ResolveSpanIff(s: State, p: Progress, slot: Slot, a: Answer, n: nat)
    requires Good(s, n) && SlotInRange(slot, n) && a.Typed() && ResolveFits(s, slot, a, n)
    ensures Span(Resolve(s, slot, a).state, AfterAttempt(s, p, slot, a), n) <==> KeepsSpan(s, p, slot, a, n)
  {
    hide Resolve, Good, Offered, Progress.InSpan;
    GoodPaired(s, n);
    FinishesIff(s, slot, a);
    if Active(a) {
      forall duty { StoredAfter(s, slot, a, n, duty); }
      NewLieInEpoch(s, slot, a, n);
    } else {
      QuietResolve(s, slot, a);
    }
  }

  lemma GoodPaired(s: State, n: nat)
    requires Good(s, n)
    ensures Paired(s)
  {
  }

  lemma NewLieInEpoch(s: State, slot: Slot, a: Answer, n: nat)
    requires n > 0 && slot.Valid() && a.Typed() && Active(a) && ResolveFits(s, slot, a, n)
    ensures forall x | x in Offered(slot, a.validators.value, a).0 && !Has(s, x.duty, x.pubkey) ::
              EpochOf(x.duty, n) == slot.Epoch()
  {
  }

  lemma QuietResolve(s: State, slot: Slot, a: Answer)
    requires slot.Valid() && a.Typed() && !Active(a)
    ensures Resolve(s, slot, a).state.duties == s.duties
  {
  }

  ghost predicate EventKeepsSpan(s: State, p: Progress, ev: Event, n: nat)
    requires n > 0 && ValidEvent(ev, n)
  {
    ev.Tick? ==>
      && (s.resolvedEpoch != ev.slot.Epoch() ==> KeepsSpan(s, p, ev.slot, ev.current, n))
      && (ev.slot.LastInEpoch() ==>
            var s1, p1 := BeforeBroadcast(s, ev.slot, ev.current), BetweenAttempts(s, p, ev, n);
            KeepsSpan(s1, p1, ev.slot.Next(), ev.next, n))
  }

  /** The bound holds after each resolve the event makes. */
  ghost predicate SpansAfter(s: State, p: Progress, ev: Event, n: nat)
    requires n > 0 && ValidEvent(ev, n)
  {
    ev.Tick? ==>
      && (s.resolvedEpoch != ev.slot.Epoch() ==>
            Span(BeforeBroadcast(s, ev.slot, ev.current), BetweenAttempts(s, p, ev, n), n))
      && (ev.slot.LastInEpoch() ==> Span(Step(s, ev, n), AfterEvent(s, p, ev, n), n))
  }

  lemma EventSpanIff(s: State, p: Progress, ev: Event, n: nat)
    requires Good(s, n) && ValidEvent(ev, n) && EventFits(s, ev, n)
    ensures SpansAfter(s, p, ev, n) <==> EventKeepsSpan(s, p, ev, n)
  {
    hide Resolve, Span, KeepsSpan, ResolveFits;
    if ev.Tick? {
      if s.resolvedEpoch != ev.slot.Epoch() {
        ResolveSpanIff(s, p, ev.slot, ev.current, n);
        ResolveKeepsPaired(s, ev.slot, ev.current);
        ResolveKeepsIndexed(s, ev.slot, ev.current, n);
      }
      if ev.slot.LastInEpoch() {
        var s1, p1 := BeforeBroadcast(s, ev.slot, ev.current), BetweenAttempts(s, p, ev, n);
        ResolveSpanIff(s1, p1, ev.slot.Next(), ev.next, n);
      }
    }
  }

  /** Over a fitting run the bound holds after every resolve exactly when every resolve keeps it. */
  lemma FourEpochSpanIff(events: seq<Event>, n: nat)
    requires GoodRun(INITIAL, events, n)
    ensures (forall k | 0 <= k < |events| ::
               SpansAfter(Run(INITIAL, events[..k], n), RunProgress(events[..k], n), events[k], n)) <==>
            (forall k | 0 <= k < |events| ::
               EventKeepsSpan(Run(INITIAL, events[..k], n), RunProgress(events[..k], n), events[k], n))
  {
    hide SpansAfter, EventKeepsSpan, EventFits, ValidEvent, Good, Step, AfterEvent;
    InitialGood(n);
    forall k | 0 <= k < |events|
      ensures SpansAfter(Run(INITIAL, events[..k], n), RunProgress(events[..k], n), events[k], n) <==>
              EventKeepsSpan(Run(INITIAL, events[..k], n), RunProgress(events[..k], n), events[k], n)
    {
      assert forall j | 0 <= j < k :: events[..k][..j] == events[..j];
      RunKeepsGood(INITIAL, events[..k], n);
      EventSpanIff(Run(INITIAL, events[..k], n), RunProgress(events[..k], n), events[k], n);
    }
  }

  predicate Idle(ev: Event) {
    ev.Tick? ==> ev.current.validators == Ok([]) && ev.next.validators == Ok([])
  }

  /** Why active validators must not be empty: with none, ticks resolve epochs without ever
      trimming, so old duties stay however many epochs go by. */
  lemma {:induction false} IdleTicksKeepDuties(s: State, events: seq<Event>, n: nat)
    requires ValidRun(events, n) && forall k | 0 <= k < |events| :: events[k].Tick? && Idle(events[k])
    ensures Run(s, events, n).duties == s.duties && Run(s, events, n).dutiesByEpoch == s.dutiesByEpoch
  {
    if events != [] { IdleTicksKeepDuties(s, events[..|events| - 1], n); }
  }

  // ---------------------------------------------------------------------------------------------
  // What a finished resolve covers
  // ---------------------------------------------------------------------------------------------

  lemma OfferedNotEarlier(slot: Slot, vals: seq<Validator>, a: Answer, x: Entry, n: nat)
    requires n > 0 && slot.Valid() && slot.slotsPerEpoch == n && a.Typed()
    requires Offered(slot, vals, a).1 && x in Offered(slot, vals, a).0
    ensures EpochOf(x.duty, n) >= slot.Epoch()
  {
    OfferedExactly(slot, vals, a, x);
    EpochMonotone(slot.number, x.duty.slot, n);
  }

  /** A finished resolve stores a definition for every expected entry - for each sync-committee
      validator, one for every slot left in the epoch - and every definition it adds is expected. */
  lemma ResolveCovers(s: State, slot: Slot, a: Answer, n: nat, duty: Duty, pubkey: PubKey)
    requires Good(s, n) && SlotInRange(slot, n) && a.Typed() && ResolveFits(s, slot, a, n)
    requires a.validators.Ok? && a.validators.value != [] && Resolve(s, slot, a).failure.None?
    ensures a.attesters.Ok? && a.proposers.Ok? && a.syncCommittee.Ok?
    ensures var s' := Resolve(s, slot, a).state;
            && (forall d :: Expected(slot, a.validators.value, a, Entry(duty, pubkey, d)) ==> Has(s', duty, pubkey))
            && (Has(s', duty, pubkey) && !Has(s, duty, pubkey) ==>
                  Expected(slot, a.validators.value, a, Entry(duty, pubkey, DefSet(s', duty)[pubkey])))
  {
    var s', vals := Resolve(s, slot, a).state, a.validators.value;
    var xs := Offered(slot, vals, a).0;
    ResolveShape(s, slot, a);
    ResolveGet(s, slot, a, n, duty, pubkey);
    forall d ensures Entry(duty, pubkey, d) in xs <==> Expected(slot, vals, a, Entry(duty, pubkey, d)) {
      OfferedExactly(slot, vals, a, Entry(duty, pubkey, d));
    }
    forall d | Expected(slot, vals, a, Entry(duty, pubkey, d)) ensures Has(s', duty, pubkey) {
      assert Entry(duty, pubkey, d) in xs;
      OfferedNotEarlier(slot, vals, a, Entry(duty, pubkey, d), n);
    }
    OfferedExactly(slot, vals, a, Entry(duty, pubkey, AttesterDef(pubkey, 0, 0, 0, 0, 0, 0)));
  }

  lemma {:induction false} StoreAllPresent(s: State, epoch: nat, xs: seq<Entry>)
    requires forall i | 0 <= i < |xs| :: Has(s, xs[i].duty, xs[i].pubkey)
    ensures StoreAll(s, epoch, xs) == s
  {
    if xs != [] { StoreAllPresent(s, epoch, xs[..|xs| - 1]); }
  }

  lemma LaterFinishes(slot: Slot, later: Slot, vals: seq<Validator>, a: Answer)
    requires slot.Valid() && later.Valid() && a.Typed() && Offered(slot, vals, a).1 && slot.number <= later.number
    ensures Offered(later, vals, a).1
  {
    LaterFilter(slot.number, later.number, vals, a.attesters.value);
    LaterFilter(slot.number, later.number, vals, a.proposers.value);
    LaterFilter(slot.number, later.number, vals, a.syncCommittee.value);
  }

  lemma LaterFilter(from: nat, later: nat, vals: seq<Validator>, ds: seq<Definition>)
    requires from <= later && Filter(from, vals, ds).Ok?
    ensures Filter(later, vals, ds).Ok?
  {
    FilterExact(from, vals, ds);
    FilterExact(later, vals, ds);
    assert forall d :: Mismatched(d, later, vals) ==> Mismatched(d, from, vals);
  }

  lemma LaterOffersLess(slot: Slot, later: Slot, vals: seq<Validator>, a: Answer)
    requires slot.Valid() && later.Valid() && a.Typed() && Offered(slot, vals, a).1
    requires later.slotsPerEpoch == slot.slotsPerEpoch && slot.number <= later.number && later.Epoch() == slot.Epoch()
    ensures Offered(later, vals, a).1
    ensures forall x | x in Offered(later, vals, a).0 :: x in Offered(slot, vals, a).0
  {
    LaterFinishes(slot, later, vals, a);
    forall x | x in Offered(later, vals, a).0 ensures x in Offered(slot, vals, a).0 {
      OfferedExactly(slot, vals, a, x);
      OfferedExactly(later, vals, a, x);
    }
  }

  lemma ResolveHoldsOffered(s: State, slot: Slot, a: Answer, n: nat)
    requires Good(s, n) && SlotInRange(slot, n) && a.Typed() && ResolveFits(s, slot, a, n)
    requires a.validators.Ok? && a.validators.value != [] && Resolve(s, slot, a).failure.None?
    ensures forall x | x in Offered(slot, a.validators.value, a).0 :: Has(Resolve(s, slot, a).state, x.duty, x.pubkey)
  {
    var xs := Offered(slot, a.validators.value, a).0;
    ResolveShape(s, slot, a);
    forall x | x in xs ensures Has(Resolve(s, slot, a).state, x.duty, x.pubkey) {
      OfferedNotEarlier(slot, a.validators.value, a, x, n);
      ResolveGet(s, slot, a, n, x.duty, x.pubkey);
    }
  }

  /** Resolving an epoch again with the same answers, from the same or a later slot, changes
      nothing. */
  lemma ResolveIdempotent(s: State, slot: Slot, later: Slot, a: Answer, n: nat)
    requires Good(s, n) && SlotInRange(slot, n) && SlotInRange(later, n) && a.Typed() && ResolveFits(s, slot, a, n)
    requires slot.number <= later.number && later.Epoch() == slot.Epoch()
    requires Resolve(s, slot, a).failure.None?
    ensures Resolve(Resolve(s, slot, a).state, later, a) == Outcome(Resolve(s, slot, a).state, None)
  {
    var s' := Resolve(s, slot, a).state;
    if a.validators.value != [] {
      ResolveKeepsPaired(s, slot, a);
      FinishedResolve(s, slot, a);
      LaterOffersLess(slot, later, a.validators.value, a);
      ResolveHoldsOffered(s, slot, a, n);
      SettledResolve(s', later, a);
    }
  }

  lemma FinishedResolve(s: State, slot: Slot, a: Answer)
    requires Paired(s) && slot.Valid() && a.Typed() && a.validators.Ok? && a.validators.value != []
    requires Resolve(s, slot, a).failure.None?
    ensures var s', e := Resolve(s, slot, a).state, slot.Epoch();
            && Offered(slot, a.validators.value, a).1 && s'.resolvedEpoch == e
            && (e >= TRIM_EPOCH_OFFSET ==> e - TRIM_EPOCH_OFFSET !in s'.dutiesByEpoch)
  {
    ResolveShape(s, slot, a);
  }

  lemma SettledResolve(s: State, slot: Slot, a: Answer)
    requires Paired(s) && slot.Valid() && a.Typed() && a.validators.Ok? && a.validators.value != []
    requires Offered(slot, a.validators.value, a).1 && s.resolvedEpoch == slot.Epoch()
    requires slot.Epoch() >= TRIM_EPOCH_OFFSET ==> slot.Epoch() - TRIM_EPOCH_OFFSET !in s.dutiesByEpoch
    requires forall x | x in Offered(slot, a.validators.value, a).0 :: Has(s, x.duty, x.pubkey)
    ensures Resolve(s, slot, a) == Outcome(s, None)
  {
    var e := slot.Epoch();
    ResolveShape(s, slot, a);
    StoreAllPresent(s, e, Offered(slot, a.validators.value, a).0);
    if e >= TRIM_EPOCH_OFFSET { TrimAbsent(s, e - TRIM_EPOCH_OFFSET); }
  }

  lemma TrimAbsent(s: State, epoch: nat)
    requires epoch !in s.dutiesByEpoch
    ensures Trim(s, epoch) == s
  {
    assert IndexList(s, epoch) == [];
  }

  // ---------------------------------------------------------------------------------------------
  // Answers the filters let through
  // ---------------------------------------------------------------------------------------------

  /** From the initial state a resolve leaves the index in agreement exactly when everything it
      offered lies in the requested epoch. */
  lemma FirstResolveIndexedIff(slot: Slot, a: Answer, n: nat)
    requires n > 0 && slot.Valid() && a.Typed() && a.validators.Ok? && a.validators.value != []
    ensures Indexed(Resolve(INITIAL, slot, a).state, n) <==>
              EntriesIn(Offered(slot, a.validators.value, a).0, slot.Epoch(), n)
  {
    InitialGood(n);
    ResolveIndexedIff(INITIAL, slot, a, n);
  }

  /** One attester duty five epochs ahead is enough to break the index. */
  lemma OutOfEpochBreaksIndex() returns (slot: Slot, a: Answer)
    ensures SlotInRange(slot, 1) && a.Typed() && a.validators.Ok? && a.validators.value != []
    ensures !Indexed(Resolve(INITIAL, slot, a).state, 1)
  {
    var v := Validator(PubKey([]), 7);
    var d := AttesterDef(v.pubkey, v.index, 5, 0, 0, 0, 0);
    slot := Slot(0, 0, 1, 1);
    a := Answer(Ok([v]), Ok([d]), Ok([]), Ok([]));
    assert FindPubkey([v], v.index) == Some(v.pubkey);
    FilterExact(0, [v], [d]);
    FilterExact(0, [v], []);
    OfferedExactly(slot, [v], a, AttesterEntry(d));
    FirstResolveIndexedIff(slot, a, 1);
    assert EpochOf(AttesterEntry(d).duty, 1) == 5;
  }
}
