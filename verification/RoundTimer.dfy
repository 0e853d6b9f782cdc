/** Consensus round timers (crates/consensus/src/timer.rs). Durations and instants are
    nanoseconds. */
module RoundTimer {
  import opened Common

  const LINEAR_ROUND_INC: nat := 1_000_000_000
  const PROPOSAL_TIMEOUT: nat := 1_500_000_000

  datatype TimerError = InvalidRound | DurationOverflow | DeadlineOverflow

  /** A round number is an i64. */
  predicate IsRound(round: int) {
    -0x8000_0000_0000_0000 <= round <= I64_MAX
  }

  /** `linear_round_timeout`: one second a round, for rounds that fit u32. */
  function LinearRoundTimeout(round: int): Result<nat, TimerError> {
    if round < 0 then Err(InvalidRound)
    else if round > U32_MAX then Err(DurationOverflow)
    else Ok(LINEAR_ROUND_INC * round)
  }

  /** `linear_subsequent_round_timeout`, with its checked i64 steps. */
  function LinearSubsequentTimeout(round: int): Result<nat, TimerError> {
    if round < 0 then Err(InvalidRound) else
    var increment := (round - 1) * 200;
    if increment > I64_MAX then Err(DurationOverflow) else
    var timeout := increment + 200;
    if timeout > I64_MAX || timeout < 0 then Err(DurationOverflow) else Ok(timeout)
  }

  /** The checked steps fail exactly when 200 times the round leaves i64. */
  lemma SubsequentTimeoutIff(round: int)
    requires IsRound(round)
    ensures LinearSubsequentTimeout(round) ==
              if round < 0 then Err(InvalidRound)
              else if 200 * round <= I64_MAX then Ok(200 * round) else Err(DurationOverflow)
  {
  }

  // ---------------------------------------------------------------------------------------------
  // The eager double-linear timer
  // ---------------------------------------------------------------------------------------------

  /** `proposal`: a proposer duty with the proposal-timeout feature; `latest`: the last instant that
      can be represented. */
  datatype Config = Config(proposal: bool, latest: int) {
    function Timeout(round: int): Result<nat, TimerError> {
      if round == 1 && proposal then Ok(PROPOSAL_TIMEOUT) else LinearRoundTimeout(round)
    }

    function Deadline(start: int, timeout: nat): Result<int, TimerError> {
      if start + timeout <= latest then Ok(start + timeout) else Err(DeadlineOverflow)
    }
  }

  /** Round 0 has no timeout, each further round adds a second up to the last u32 round, and only the
      first round of a proposal differs, at a second and a half. */
  lemma Timeouts(cfg: Config, round: int)
    requires IsRound(round)
    ensures round < 0 ==> cfg.Timeout(round) == Err(InvalidRound)
    ensures cfg.Timeout(0) == Ok(0)
    ensures cfg.Timeout(1) == Ok(if cfg.proposal then 1_500_000_000 else 1_000_000_000)
    ensures cfg.Timeout(2) == Ok(2_000_000_000)
    ensures 2 <= round < 4_294_967_295 ==>
              && cfg.Timeout(round).Ok?
              && cfg.Timeout(round + 1) == Ok(cfg.Timeout(round).value + 1_000_000_000)
    ensures round > 4_294_967_295 ==> cfg.Timeout(round) == Err(DurationOverflow)
  {
  }

  type Deadlines = map<int, int>

  /** One call to `timer`: the new map and the deadline returned. */
  function TimerCall(cfg: Config, first: Deadlines, round: int, now: int): (Deadlines, Result<int, TimerError>) {
    match cfg.Timeout(round)
    case Err(e) => (first, Err(e))
    case Ok(timeout) =>
      if round in first then (first, cfg.Deadline(first[round], timeout))
      else match cfg.Deadline(now, timeout)
           case Err(e) => (first, Err(e))
           case Ok(deadline) => (first[round := deadline], Ok(deadline))
  }

  class EagerDoubleLinearRoundTimer {
    const cfg: Config
    var firstDeadlines: Deadlines

    constructor (cfg: Config)
      ensures this.cfg == cfg && firstDeadlines == map[]
    {
      this.cfg := cfg;
      firstDeadlines := map[];
    }

    /** `now` is the clock reading the call makes. */
    method Timer(round: int, now: int) returns (r: Result<int, TimerError>)
      modifies this
      ensures (firstDeadlines, r) == TimerCall(cfg, old(firstDeadlines), round, now)
    {
      var timeout := cfg.Timeout(round);
      if timeout.Err? { return Err(timeout.error); }
      if round in firstDeadlines {
        return cfg.Deadline(firstDeadlines[round], timeout.value);
      }
      var deadline := cfg.Deadline(now, timeout.value);
      if deadline.Ok? {
        firstDeadlines := firstDeadlines[round := deadline.value];
      }
      return deadline;
    }
  }

  // ---------------------------------------------------------------------------------------------
  // Sequences of calls
  // ---------------------------------------------------------------------------------------------

  datatype Call = Call(round: int, now: int)

  function After(cfg: Config, calls: seq<Call>): Deadlines {
    if calls == [] then map[]
    else var last := calls[|calls| - 1];
         TimerCall(cfg, After(cfg, calls[..|calls| - 1]), last.round, last.now).0
  }

  /** Whether a call would succeed as the round's first. */
  predicate CanStart(cfg: Config, c: Call) {
    cfg.Timeout(c.round).Ok? && c.now + cfg.Timeout(c.round).value <= cfg.latest
  }

  /** When the round started: the time of its first call that could. Calls for other rounds do not
      enter. */
  function StartOf(cfg: Config, calls: seq<Call>, round: int): Option<int> {
    if calls == [] then None
    else if calls[0].round == round && CanStart(cfg, calls[0]) then Some(calls[0].now)
    else StartOf(cfg, calls[1..], round)
  }

  lemma {:induction false} StartOfSnoc(cfg: Config, calls: seq<Call>, c: Call, round: int)
    ensures StartOf(cfg, calls + [c], round) ==
              (if StartOf(cfg, calls, round).Some? then StartOf(cfg, calls, round)
               else if c.round == round && CanStart(cfg, c) then Some(c.now) else None)
  {
    if calls == [] {
      assert calls + [c] == [c] && [c][1..] == [];
    } else {
      assert (calls + [c])[1..] == calls[1..] + [c];
      StartOfSnoc(cfg, calls[1..], c, round);
    }
  }

  /** The map holds, for exactly the rounds that started, one timeout past their start. */
  lemma {:induction false} DeadlinesAre(cfg: Config, calls: seq<Call>, round: int)
    ensures var start, m := StartOf(cfg, calls, round), After(cfg, calls);
            && (round in m <==> start.Some?)
            && (start.Some? ==> cfg.Timeout(round).Ok? && m[round] == start.value + cfg.Timeout(round).value)
  {
    if calls != [] {
      var init, c := calls[..|calls| - 1], calls[|calls| - 1];
      assert calls == init + [c];
      DeadlinesAre(cfg, init, round);
      StartOfSnoc(cfg, init, c, round);
    }
  }

  /** After any calls, a call for a round with timeout T returns: for a round not yet started, one T
      from now, if that can be represented; for a round started at t0, t0 + 2T, whenever it is
      made. A failed call leaves the timer as it was. */
  lemma EagerDeadlines(cfg: Config, calls: seq<Call>, c: Call)
    ensures var start, timeout := StartOf(cfg, calls, c.round), cfg.Timeout(c.round);
            var (m, r) := TimerCall(cfg, After(cfg, calls), c.round, c.now);
            && (timeout.Err? ==> r == Err(timeout.error))
            && (timeout.Ok? && start.None? ==>
                  r == if c.now + timeout.value <= cfg.latest then Ok(c.now + timeout.value) else Err(DeadlineOverflow))
            && (timeout.Ok? && start.Some? ==>
                  r == if start.value + 2 * timeout.value <= cfg.latest then Ok(start.value + 2 * timeout.value)
                       else Err(DeadlineOverflow))
            && (r.Err? || start.Some? ==> m == After(cfg, calls))
  {
    DeadlinesAre(cfg, calls, c.round);
  }

  /** Two peers that started a round at the same time agree on its end, whatever other calls each
      of them made and whenever they asked. */
  lemma PeersAgree(cfg: Config, a: seq<Call>, b: seq<Call>, round: int, nowA: int, nowB: int)
    requires StartOf(cfg, a, round).Some? && StartOf(cfg, a, round) == StartOf(cfg, b, round)
    ensures TimerCall(cfg, After(cfg, a), round, nowA).1 == TimerCall(cfg, After(cfg, b), round, nowB).1
  {
    EagerDeadlines(cfg, a, Call(round, nowA));
    EagerDeadlines(cfg, b, Call(round, nowB));
  }
}
