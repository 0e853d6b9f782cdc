/** The slot ticker (crates/core/src/scheduler.rs) and the duty gater (crates/core/src/gater.rs)
    over one clock. Times are integer nanoseconds. */
module Ticker {
  import opened Common
  import opened Slots

  const MS: int := 1_000_000

  /** Chain constants. `latest` is the last representable instant: the source panics beyond it.
      Representable instants are fewer than 2^64 slots after genesis. */
  datatype Config = Config(genesis: int, duration: int, slotsPerEpoch: nat, latest: int) {
    predicate Valid() {
      && duration > 0 && duration % MS == 0 && slotsPerEpoch > 0
      && latest - genesis < U64_MAX * duration
    }

    function StartOf(number: nat): int {
      genesis + number * duration
    }
  }

  lemma WholeMillis(cfg: Config)
    requires cfg.Valid()
    ensures cfg.duration / MS > 0 && (cfg.duration / MS) * MS == cfg.duration
  {
  }

  /** Whole slots since genesis, computed in milliseconds as the source does. */
  function SlotsElapsed(cfg: Config, now: int): nat
    requires cfg.Valid()
  {
    WholeMillis(cfg);
    (if now < cfg.genesis then 0 else (now - cfg.genesis) / MS) / (cfg.duration / MS)
  }

  /** Truncating to milliseconds first loses nothing. */
  lemma SlotsElapsedAtLeast(cfg: Config, now: int, k: nat)
    requires cfg.Valid()
    ensures SlotsElapsed(cfg, now) >= k <==> k == 0 || now >= cfg.StartOf(k)
  {
    WholeMillis(cfg);
    var d := cfg.duration / MS;
    assert k >= 1 ==> k * cfg.duration > 0;
    if now >= cfg.genesis {
      var ms := (now - cfg.genesis) / MS;
      DivAtLeast(ms, d, k);
      DivAtLeast(now - cfg.genesis, MS, k * d);
      assert (k * d) * MS == k * (d * MS);
    }
  }

  function SlotAt(cfg: Config, number: nat): Slot {
    Slot(number, cfg.StartOf(number), cfg.duration, cfg.slotsPerEpoch)
  }

  function CurrentSlot(cfg: Config, now: int): Slot
    requires cfg.Valid() && now >= cfg.genesis
  {
    SlotAt(cfg, SlotsElapsed(cfg, now))
  }

  lemma CurrentSlotIsCurrent(cfg: Config, now: int)
    requires cfg.Valid() && now >= cfg.genesis
    ensures var slot := CurrentSlot(cfg, now); slot.time <= now < slot.time + cfg.duration
  {
    var k := SlotsElapsed(cfg, now);
    SlotsElapsedAtLeast(cfg, now, k);
    SlotsElapsedAtLeast(cfg, now, k + 1);
    NextStart(cfg, k);
  }

  lemma NumberInRange(cfg: Config, number: nat)
    requires cfg.Valid() && cfg.StartOf(number) <= cfg.latest
    ensures number < U64_MAX
  {
  }

  lemma EpochAtMost(number: nat, perEpoch: nat)
    requires perEpoch > 0
    ensures number / perEpoch <= number
  {
    DivAtLeast(number, perEpoch, number + 1);
    ProductGrows(number + 1, perEpoch);
  }

  /** How much the clock advances between the loop's readings, besides the requested sleep. Any
      natural numbers: the clock never goes back and a sleep lasts at least as long as asked. */
  datatype Delays = Delays(beforeSleep: nat, afterSleep: nat, beforeReread: nat)

  /** A slot sent to the scheduler and the last clock reading before it was sent. */
  datatype Emission = Emission(slot: Slot, at: int)

  ghost predicate WellTimed(cfg: Config, e: Emission) {
    && e.slot == SlotAt(cfg, e.slot.number)
    && e.slot.time <= e.at <= e.slot.time + cfg.duration
    && e.at <= cfg.latest
  }

  /** Numbers strictly increase, and a slot is skipped only once the one after it has begun. */
  ghost predicate Advances(cfg: Config, a: Emission, b: Emission) {
    && a.slot.number < b.slot.number && a.at <= b.at
    && (a.slot.number + 1 < b.slot.number ==> b.at > cfg.StartOf(a.slot.number + 2))
  }

  /** The ticker task: the slot it waits for, the clock, and what it has sent. `alive` turns false
      when the source would panic on an instant that cannot be represented. */
  datatype TickerState = TickerState(slot: Slot, now: int, alive: bool, emitted: seq<Emission>)

  function Started(cfg: Config, start: int): TickerState
    requires cfg.Valid() && start >= cfg.genesis
  {
    TickerState(CurrentSlot(cfg, start), start, true, [])
  }

  function Send(cfg: Config, st: TickerState, slot: Slot, at: int): TickerState {
    if slot.time + cfg.duration > cfg.latest then st.(now := at, alive := false)
    else TickerState(slot.Next(), at, true, st.emitted + [Emission(slot, at)])
  }

  function Woken(st: TickerState, d: Delays): int {
    var asleep := st.now + d.beforeSleep;
    asleep + (if st.slot.time > asleep then st.slot.time - asleep else 0) + d.afterSleep
  }

  /** One round of the loop: sleep until the slot starts, catch up if it is already over, send. */
  function Round(cfg: Config, st: TickerState, d: Delays): TickerState
    requires cfg.Valid() && st.now >= cfg.genesis
  {
    var woken := Woken(st, d);
    if !st.alive then st
    else if woken > cfg.latest || st.slot.time + cfg.duration > cfg.latest then st.(now := woken, alive := false)
    else if woken <= st.slot.time + cfg.duration then Send(cfg, st, st.slot, woken)
    else var reread := woken + d.beforeReread;
         if reread > cfg.latest then st.(now := reread, alive := false)
         else Send(cfg, st, CurrentSlot(cfg, reread), reread)
  }

  function Rounds(cfg: Config, start: int, delays: seq<Delays>): (st: TickerState)
    requires cfg.Valid() && start >= cfg.genesis
    ensures st.now >= start
  {
    if delays == [] then Started(cfg, start)
    else Round(cfg, Rounds(cfg, start, delays[..|delays| - 1]), delays[|delays| - 1])
  }

  /** The loop itself, over any finite sequence of clock behaviours. */
  method RunTicker(cfg: Config, start: int, delays: seq<Delays>) returns (emitted: seq<Emission>, panicked: bool)
    requires cfg.Valid() && start >= cfg.genesis
    ensures emitted == Rounds(cfg, start, delays).emitted
    ensures panicked == !Rounds(cfg, start, delays).alive
  {
    hide CurrentSlot;
    var slot, now := CurrentSlot(cfg, start), start;
    emitted := [];
    for i := 0 to |delays|
      invariant Rounds(cfg, start, delays[..i]) == TickerState(slot, now, true, emitted)
    {
      assert delays[..i + 1][..i] == delays[..i];
      assert Rounds(cfg, start, delays[..i + 1]) == Round(cfg, TickerState(slot, now, true, emitted), delays[i]);
      now := now + delays[i].beforeSleep;
      var wait := if slot.time > now then slot.time - now else 0;
      now := now + wait + delays[i].afterSleep;
      if now > cfg.latest || slot.time + cfg.duration > cfg.latest {
        DeadStays(cfg, start, delays, i + 1);
        return emitted, true;
      }
      if now > slot.time + cfg.duration {
        now := now + delays[i].beforeReread;
        if now > cfg.latest {
          DeadStays(cfg, start, delays, i + 1);
          return emitted, true;
        }
        slot := CurrentSlot(cfg, now);
      }
      if slot.time + cfg.duration > cfg.latest {
        DeadStays(cfg, start, delays, i + 1);
        return emitted, true;
      }
      emitted := emitted + [Emission(slot, now)];
      slot := slot.Next();
    }
    assert delays[..|delays|] == delays;
    return emitted, false;
  }

  lemma {:induction false} DeadStays(cfg: Config, start: int, delays: seq<Delays>, n: nat)
    requires cfg.Valid() && start >= cfg.genesis && n <= |delays| && !Rounds(cfg, start, delays[..n]).alive
    ensures Rounds(cfg, start, delays) == Rounds(cfg, start, delays[..n])
    decreases |delays|
  {
    if n == |delays| {
      assert delays[..n] == delays;
    } else {
      assert delays[..|delays| - 1][..n] == delays[..n];
      DeadStays(cfg, start, delays[..|delays| - 1], n);
    }
  }

  ghost predicate Sound(cfg: Config, st: TickerState) {
    var k := |st.emitted|;
    && (forall i | 0 <= i < k :: WellTimed(cfg, st.emitted[i]))
    && (forall i | 0 < i < k :: Advances(cfg, st.emitted[i - 1], st.emitted[i]))
    && (st.alive ==> st.slot == SlotAt(cfg, st.slot.number))
    && (st.alive && k > 0 ==> st.slot.number == st.emitted[k - 1].slot.number + 1 && st.emitted[k - 1].at <= st.now)
    && (!st.alive ==> st.now + cfg.duration > cfg.latest)
  }

  lemma SendSound(cfg: Config, st: TickerState, slot: Slot, at: int)
    requires cfg.Valid() && Sound(cfg, st) && st.alive && st.now <= at <= cfg.latest
    requires slot == SlotAt(cfg, slot.number) && slot.time <= at <= slot.time + cfg.duration
    requires slot.number >= st.slot.number && (slot.number > st.slot.number ==> at > cfg.StartOf(st.slot.number + 1))
    ensures Sound(cfg, Send(cfg, st, slot, at))
  {
    NumberInRange(cfg, slot.number);
    NextStart(cfg, slot.number);
  }

  lemma RoundSound(cfg: Config, st: TickerState, d: Delays)
    requires cfg.Valid() && st.now >= cfg.genesis && Sound(cfg, st)
    ensures Sound(cfg, Round(cfg, st, d))
  {
    hide CurrentSlot, Config.StartOf;
    var woken := Woken(st, d);
    if st.alive && woken <= cfg.latest && st.slot.time + cfg.duration <= cfg.latest {
      if woken <= st.slot.time + cfg.duration {
        SendSound(cfg, st, st.slot, woken);
      } else if woken + d.beforeReread <= cfg.latest {
        CatchUp(cfg, st.slot.number, woken + d.beforeReread);
        SendSound(cfg, st, CurrentSlot(cfg, woken + d.beforeReread), woken + d.beforeReread);
      }
    }
  }

  lemma CatchUp(cfg: Config, number: nat, now: int)
    requires cfg.Valid() && now >= cfg.genesis && now > cfg.StartOf(number) + cfg.duration
    ensures var slot := CurrentSlot(cfg, now);
            && slot == SlotAt(cfg, slot.number) && slot.number > number
            && slot.time <= now <= slot.time + cfg.duration && now > cfg.StartOf(number + 1)
  {
    NextStart(cfg, number);
    CurrentSlotIsCurrent(cfg, now);
    SlotsElapsedAtLeast(cfg, now, number + 1);
  }

  lemma NextStart(cfg: Config, number: nat)
    ensures cfg.StartOf(number + 1) == cfg.StartOf(number) + cfg.duration
  {
  }

  /** With a clock that never goes back, every slot is sent with its true start time, not before
      that time and at most a slot later, with strictly increasing numbers; a round sends a slot
      unless time itself runs out. */
  lemma {:induction false} TickerSound(cfg: Config, start: int, delays: seq<Delays>)
    requires cfg.Valid() && start >= cfg.genesis
    ensures Sound(cfg, Rounds(cfg, start, delays))
    ensures Rounds(cfg, start, delays).alive ==> |Rounds(cfg, start, delays).emitted| == |delays|
  {
    if delays != [] {
      TickerSound(cfg, start, delays[..|delays| - 1]);
      RoundSound(cfg, Rounds(cfg, start, delays[..|delays| - 1]), delays[|delays| - 1]);
    }
  }

  /** The slot running at the start is sent first, unless it was over by then. */
  ghost predicate StartsWith(cfg: Config, start: int, e: Emission) {
    exists k: nat ::
      && (k == 0 || cfg.StartOf(k) <= start) && start < cfg.StartOf(k + 1)
      && (e.slot.number == k || (e.slot.number > k && e.at > cfg.StartOf(k + 1)))
  }

  lemma {:induction false} FirstEmission(cfg: Config, start: int, delays: seq<Delays>)
    requires cfg.Valid() && start >= cfg.genesis && Rounds(cfg, start, delays).emitted != []
    ensures StartsWith(cfg, start, Rounds(cfg, start, delays).emitted[0])
  {
    hide Round, StartsWith, Sound;
    if delays != [] {
      var init, d := delays[..|delays| - 1], delays[|delays| - 1];
      var before := Rounds(cfg, start, init);
      TickerSound(cfg, start, init);
      if before.emitted != [] {
        FirstEmission(cfg, start, init);
        RoundExtends(cfg, before, d);
      } else if before.alive {
        assert init == [];
        FirstRound(cfg, start, d);
      } else {
        RoundExtends(cfg, before, d);
      }
    }
  }

  lemma RoundExtends(cfg: Config, st: TickerState, d: Delays)
    requires cfg.Valid() && st.now >= cfg.genesis
    ensures st.emitted <= Round(cfg, st, d).emitted
    ensures !st.alive ==> Round(cfg, st, d) == st
  {
  }

  lemma FirstRound(cfg: Config, start: int, d: Delays)
    requires cfg.Valid() && start >= cfg.genesis && Round(cfg, Started(cfg, start), d).emitted != []
    ensures StartsWith(cfg, start, Round(cfg, Started(cfg, start), d).emitted[0])
  {
    hide CurrentSlot, SlotsElapsed;
    var k := SlotsElapsed(cfg, start);
    assert CurrentSlot(cfg, start) == SlotAt(cfg, k) by { CurrentIsAt(cfg, start); }
    SlotsElapsedAtLeast(cfg, start, k);
    SlotsElapsedAtLeast(cfg, start, k + 1);
    NextStart(cfg, k);
    var woken := Woken(Started(cfg, start), d);
    if woken > cfg.StartOf(k) + cfg.duration {
      var reread := woken + d.beforeReread;
      CurrentIsAt(cfg, reread);
      SlotsElapsedAtLeast(cfg, reread, k + 1);
    }
  }

  lemma CurrentIsAt(cfg: Config, now: int)
    requires cfg.Valid() && now >= cfg.genesis
    ensures CurrentSlot(cfg, now) == SlotAt(cfg, SlotsElapsed(cfg, now))
  {
  }

  // ---------------------------------------------------------------------------------------------
  // The gater
  // ---------------------------------------------------------------------------------------------

  function SaturatingAdd(a: nat, b: nat): nat {
    if a + b <= U64_MAX then a + b else U64_MAX
  }

  function CurrentEpoch(cfg: Config, now: int): nat
    requires cfg.Valid()
  {
    SlotsElapsed(cfg, now) / cfg.slotsPerEpoch
  }

  predicate Allows(cfg: Config, futureEpochs: nat, duty: Duty, now: int)
    requires cfg.Valid()
  {
    && duty.dutyType.IsValid()
    && duty.slot / cfg.slotsPerEpoch <= SaturatingAdd(CurrentEpoch(cfg, now), futureEpochs)
  }

  /** A duty is let through from one instant on: the start of the epoch that lies `futureEpochs`
      before its own. */
  lemma AllowsFrom(cfg: Config, futureEpochs: nat, duty: Duty, now: int)
    requires cfg.Valid() && duty.slot <= U64_MAX
    ensures var epoch := duty.slot / cfg.slotsPerEpoch;
            Allows(cfg, futureEpochs, duty, now) <==>
              && duty.dutyType.IsValid()
              && (epoch <= futureEpochs || now >= cfg.StartOf((epoch - futureEpochs) * cfg.slotsPerEpoch))
  {
    var n, epoch := cfg.slotsPerEpoch, duty.slot / cfg.slotsPerEpoch;
    EpochBounds(duty.slot, n, epoch);
    EpochAtMost(duty.slot, n);
    if epoch > futureEpochs {
      var k := epoch - futureEpochs;
      DivAtLeast(SlotsElapsed(cfg, now), n, k);
      assert k * n > 0;
      SlotsElapsedAtLeast(cfg, now, k * n);
    }
  }

  lemma BroadcastTypesValid(t: DutyType)
    ensures t in ALL_DUTY_TYPES <==> t.IsValid()
  {
    if t.IsValid() {
      match t {
        case Proposer => assert ALL_DUTY_TYPES[0] == t;
        case Attester => assert ALL_DUTY_TYPES[1] == t;
        case Signature => assert ALL_DUTY_TYPES[2] == t;
        case Exit => assert ALL_DUTY_TYPES[3] == t;
        case BuilderProposer => assert ALL_DUTY_TYPES[4] == t;
        case BuilderRegistration => assert ALL_DUTY_TYPES[5] == t;
        case Randao => assert ALL_DUTY_TYPES[6] == t;
        case PrepareAggregator => assert ALL_DUTY_TYPES[7] == t;
        case Aggregator => assert ALL_DUTY_TYPES[8] == t;
        case SyncMessage => assert ALL_DUTY_TYPES[9] == t;
        case PrepareSyncContribution => assert ALL_DUTY_TYPES[10] == t;
        case SyncContribution => assert ALL_DUTY_TYPES[11] == t;
        case InfoSync => assert ALL_DUTY_TYPES[12] == t;
      }
    }
  }

  /** Every duty broadcast for a slot the ticker sent passes the gater when it was sent and at
      every later time, whatever number of future epochs the gater allows. */
  lemma BroadcastsPassGater(cfg: Config, start: int, delays: seq<Delays>, i: nat, t: DutyType,
                            futureEpochs: nat, now: int)
    requires cfg.Valid() && start >= cfg.genesis && i < |Rounds(cfg, start, delays).emitted|
    requires t in ALL_DUTY_TYPES && now >= Rounds(cfg, start, delays).emitted[i].at
    ensures Allows(cfg, futureEpochs, Duty(Rounds(cfg, start, delays).emitted[i].slot.number, t), now)
  {
    var e := Rounds(cfg, start, delays).emitted[i];
    TickerSound(cfg, start, delays);
    assert WellTimed(cfg, e);
    BroadcastTypesValid(t);
    SlotsElapsedAtLeast(cfg, now, e.slot.number);
    EpochMonotone(e.slot.number, SlotsElapsed(cfg, now), cfg.slotsPerEpoch);
    NumberInRange(cfg, e.slot.number);
    EpochAtMost(e.slot.number, cfg.slotsPerEpoch);
  }
}
