/** Duties and slot arithmetic (crates/core/src/types.rs). */
module Slots {
  import opened Common

  datatype DutyType =
    | Unknown | Proposer | Attester | Signature | Exit | BuilderProposer | BuilderRegistration
    | Randao | PrepareAggregator | Aggregator | SyncMessage | PrepareSyncContribution
    | SyncContribution | InfoSync | DutySentinel(inner: DutyType)
  {
    predicate IsValid() {
      !Unknown? && !DutySentinel?
    }
  }

  /** The thirteen types the scheduler walks through on each slot. */
  const ALL_DUTY_TYPES: seq<DutyType> :=
    [Proposer, Attester, Signature, Exit, BuilderProposer, BuilderRegistration, Randao,
     PrepareAggregator, Aggregator, SyncMessage, PrepareSyncContribution, SyncContribution, InfoSync]

  datatype Duty = Duty(slot: nat, dutyType: DutyType)

  datatype PubKey = PubKey(bytes: seq<Byte>)

  /** Times are nanoseconds; `number` is a u64 in the source. */
  datatype Slot = Slot(number: nat, time: int, duration: int, slotsPerEpoch: nat) {
    predicate Valid() {
      slotsPerEpoch > 0
    }

    function Epoch(): nat
      requires Valid()
    {
      number / slotsPerEpoch
    }

    predicate LastInEpoch()
      requires Valid()
    {
      number % slotsPerEpoch == slotsPerEpoch - 1
    }

    /** `SlotNumber::next` saturates at u64::MAX. */
    function Next(): Slot {
      Slot(if number < U64_MAX then number + 1 else U64_MAX, time + duration, duration, slotsPerEpoch)
    }

    /** The first slot of the following epoch. */
    function EpochEnd(): nat
      requires Valid()
    {
      (Epoch() + 1) * slotsPerEpoch
    }
  }

  lemma ProductGrows(x: nat, y: nat)
    requires y >= 1
    ensures x <= x * y
  {
  }

  lemma EpochBounds(number: nat, perEpoch: nat, e: nat)
    requires perEpoch > 0
    ensures number / perEpoch == e <==> e * perEpoch <= number < (e + 1) * perEpoch
  {
    var q, r := number / perEpoch, number % perEpoch;
    assert number == q * perEpoch + r;
    assert (e + 1) * perEpoch == e * perEpoch + perEpoch;
    if q < e {
      assert (q + 1) * perEpoch <= e * perEpoch;
      assert (q + 1) * perEpoch == q * perEpoch + perEpoch;
    } else if q > e {
      assert (e + 1) * perEpoch <= q * perEpoch;
    }
  }

  lemma EpochMonotone(a: nat, b: nat, perEpoch: nat)
    requires perEpoch > 0 && a <= b
    ensures a / perEpoch <= b / perEpoch
  {
    EpochBounds(a, perEpoch, a / perEpoch);
    EpochBounds(b, perEpoch, b / perEpoch);
  }

  /** Stepping off the last slot of an epoch, and only that, enters the next one. */
  lemma NextEpoch(slot: Slot)
    requires slot.Valid() && slot.number < U64_MAX
    ensures slot.Next().Epoch() == slot.Epoch() + (if slot.LastInEpoch() then 1 else 0)
  {
    var n, q, r := slot.slotsPerEpoch, slot.Epoch(), slot.number % slot.slotsPerEpoch;
    assert slot.number == q * n + r;
    assert (q + 1) * n == q * n + n && (q + 2) * n == q * n + 2 * n;
    EpochBounds(slot.number + 1, n, q);
    EpochBounds(slot.number + 1, n, q + 1);
  }
}
